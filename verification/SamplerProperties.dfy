/** What the stratified sample promises: its size, its rows, its fairness, and that the order of
    the input does not matter. */
module SamplerProperties {
  import opened Sampler

  // ----- every row goes to exactly one place --------------------------------------------

  lemma SplitLast(rows: seq<Row>)
    requires rows != []
    ensures multiset(rows) == multiset(rows[..|rows| - 1]) + multiset{rows[|rows| - 1]}
  {
    assert rows == rows[..|rows| - 1] + [rows[|rows| - 1]];
  }

  lemma {:induction false} MinorityCount(rows: seq<Row>, x: Row)
    ensures multiset(Minority(rows))[x] == if x.sourceBug then 0 else multiset(rows)[x]
  {
    if rows != [] {
      SplitLast(rows);
      MinorityCount(rows[..|rows| - 1], x);
    }
  }

  lemma {:induction false} StratumCount(rows: seq<Row>, source: int, x: Row)
    ensures multiset(Stratum(rows, source))[x] == if InStratum(x, source) then multiset(rows)[x] else 0
  {
    if rows != [] {
      SplitLast(rows);
      StratumCount(rows[..|rows| - 1], source, x);
    }
  }

  lemma ContentsSplit(b: seq<seq<Row>>, init: seq<seq<Row>>, n: nat)
    requires |b| == n + 1 && |init| == n && forall i :: 0 <= i < n ==> b[i] == init[i]
    ensures Contents(b) == Contents(init) + multiset(b[n])
  {
    assert b[..n] == init;
  }

  lemma BucketsSplit(rows: seq<Row>, sources: seq<int>, n: nat, key: Row -> int)
    requires |sources| == n + 1
    ensures Contents(Buckets(rows, sources, key)) ==
      Contents(Buckets(rows, sources[..n], key)) + multiset(Stratum(rows, sources[n]))
  {
    ContentsSplit(Buckets(rows, sources, key), Buckets(rows, sources[..n], key), n);
  }

  ghost predicate Distinct(sources: seq<int>) {
    forall i, j :: 0 <= i < j < |sources| ==> sources[i] != sources[j]
  }

  lemma DistinctInit(sources: seq<int>, n: nat, source: int)
    requires Distinct(sources) && |sources| == n + 1
    ensures Distinct(sources[..n]) && sources[n] !in sources[..n]
    ensures source in sources <==> source in sources[..n] || source == sources[n]
  {
    assert sources == sources[..n] + [sources[n]];
  }

  lemma {:induction false} BucketsCount(rows: seq<Row>, sources: seq<int>, key: Row -> int, x: Row)
    requires Distinct(sources)
    ensures Contents(Buckets(rows, sources, key))[x] ==
      if x.sourceBug && x.source in sources then multiset(rows)[x] else 0
  {
    if sources != [] {
      var n := |sources| - 1;
      DistinctInit(sources, n, x.source);
      BucketsCount(rows, sources[..n], key, x);
      BucketsSplit(rows, sources, n, key);
      StratumCount(rows, sources[n], x);
    }
  }

  lemma {:induction false} SourceSetIs(rows: seq<Row>, source: int)
    ensures source in SourceSet(rows) <==> exists x :: x in rows && InStratum(x, source)
  {
    if rows != [] {
      var init, last := rows[..|rows| - 1], rows[|rows| - 1];
      SourceSetIs(init, source);
      assert rows == init + [last];
      if InStratum(last, source) {
        assert last in rows;
      } else if x :| x in init && InStratum(x, source) {
        assert x in rows;
      }
    }
  }

  /** Minority and buckets together hold every row as often as the input does. */
  lemma Partition(rows: seq<Row>, key: Row -> int)
    ensures multiset(Minority(rows)) + Contents(AllBuckets(rows, key)) == multiset(rows)
  {
    var sources := Ascending(SourceSet(rows));
    forall x
      ensures (multiset(Minority(rows)) + Contents(AllBuckets(rows, key)))[x] == multiset(rows)[x]
    {
      MinorityCount(rows, x);
      BucketsCount(rows, sources, key, x);
      SourceSetIs(rows, x.source);
      if x.sourceBug && x.source !in sources { assert x !in rows; }
    }
  }

  // ----- size and contents --------------------------------------------------------------

  lemma TakePrefix(s: seq<Row>, n: int)
    ensures TakeRows(s, n) <= s && multiset(TakeRows(s, n)) <= multiset(s)
    ensures |TakeRows(s, n)| == if n <= 0 then 0 else if n < |s| then n else |s|
  {
    var t := TakeRows(s, n);
    assert s == t + s[|t|..];
  }

  lemma RowsSplit(rows: seq<Row>, minorityKey: Row -> int, bucketKey: Row -> int)
    ensures var minority, rest := Sorted(Minority(rows), minorityKey), Rounds(AllBuckets(rows, bucketKey));
      multiset(minority) + multiset(rest) == multiset(rows) && |minority| + |rest| == |rows|
  {
    var minority, rest := Sorted(Minority(rows), minorityKey), Rounds(AllBuckets(rows, bucketKey));
    Partition(rows, bucketKey);
    RoundsAreContents(AllBuckets(rows, bucketKey));
    assert |multiset(minority + rest)| == |minority + rest| && |multiset(rows)| == |rows|;
  }

  lemma SelectSize(minority: seq<Row>, rest: seq<Row>, size: nat)
    ensures |Select(minority, rest, size)| == if size <= |minority| + |rest| then size else |minority| + |rest|
    ensures multiset(Select(minority, rest, size)) <= multiset(minority) + multiset(rest)
    ensures size >= |minority| ==> multiset(minority) <= multiset(Select(minority, rest, size))
  {
    TakePrefix(minority, size);
    TakePrefix(rest, size - |minority|);
    if size == |minority| { assert TakeRows(minority, size) == minority; }
  }

  /** The sample holds rows of the input, none more often than it occurs there, and as many as
      were asked for or as there are. */
  lemma SampleSize(rows: seq<Row>, size: nat, minorityKey: Row -> int, bucketKey: Row -> int)
    ensures |Sample(rows, size, minorityKey, bucketKey)| == if size <= |rows| then size else |rows|
    ensures multiset(Sample(rows, size, minorityKey, bucketKey)) <= multiset(rows)
  {
    RowsSplit(rows, minorityKey, bucketKey);
    SelectSize(Sorted(Minority(rows), minorityKey), Rounds(AllBuckets(rows, bucketKey)), size);
  }

  /** When they fit, all rows that are not source bugs are in the sample. */
  lemma MinorityIsKept(rows: seq<Row>, size: nat, minorityKey: Row -> int, bucketKey: Row -> int, x: Row)
    requires |Minority(rows)| <= size && !x.sourceBug
    ensures multiset(Sample(rows, size, minorityKey, bucketKey))[x] == multiset(rows)[x]
  {
    var minority := Sorted(Minority(rows), minorityKey);
    assert |minority| == |multiset(minority)| == |multiset(Minority(rows))| == |Minority(rows)|;
    MinorityCount(rows, x);
    SampleSize(rows, size, minorityKey, bucketKey);
    SelectSize(minority, Rounds(AllBuckets(rows, bucketKey)), size);
  }

  // ----- fairness -----------------------------------------------------------------------

  ghost predicate OwnRows(s: seq<Row>, source: int) { forall r :: r in s ==> InStratum(r, source) }

  /** Bucket `i` holds rows of stratum `sources[i]` only, and the sources differ. */
  ghost predicate Tagged(b: seq<seq<Row>>, sources: seq<int>) {
    && |b| == |sources|
    && (forall i :: 0 <= i < |b| ==> OwnRows(b[i], sources[i]))
    && forall i, j :: 0 <= i < j < |sources| ==> sources[i] != sources[j]
  }

  lemma {:induction false} StratumAppends(a: seq<Row>, b: seq<Row>, source: int)
    ensures Stratum(a + b, source) == Stratum(a, source) + Stratum(b, source)
  {
    if b == [] {
      assert a + b == a;
    } else {
      assert (a + b)[..|a + b| - 1] == a + b[..|b| - 1];
      StratumAppends(a, b[..|b| - 1], source);
    }
  }

  lemma StratumJoin(whole: seq<Row>, a: seq<Row>, b: seq<Row>, source: int, first: seq<Row>)
    requires whole == a + b && Stratum(a, source) == first
    ensures Stratum(whole, source) == first + Stratum(b, source)
  {
    StratumAppends(a, b, source);
  }

  lemma TailsTagged(b: seq<seq<Row>>, sources: seq<int>)
    requires Tagged(b, sources)
    ensures Tagged(Tails(b), sources)
  {
    forall i | 0 <= i < |b| ensures OwnRows(Tails(b)[i], sources[i]) {
      assert OwnRows(b[i], sources[i]);
    }
  }

  lemma StratumOfHead(s: seq<Row>, own: int, source: int)
    requires OwnRows(s, own)
    ensures Stratum(Head(s), source) == if own == source then Head(s) else []
  {
    if s != [] {
      assert s[0] in s;
      assert Head(s)[..0] == [];
    }
  }

  lemma TaggedInit(b: seq<seq<Row>>, sources: seq<int>, n: nat)
    requires Tagged(b, sources) && |b| == n + 1
    ensures Tagged(b[..n], sources[..n]) && sources[n] !in sources[..n]
    ensures OwnRows(b[n], sources[n])
  {
  }

  lemma HeadsSplit(b: seq<seq<Row>>, n: nat, source: int)
    requires |b| == n + 1
    ensures Stratum(Heads(b), source) == Stratum(Heads(b[..n]), source) + Stratum(Head(b[n]), source)
  {
    StratumJoin(Heads(b), Heads(b[..n]), Head(b[n]), source, Stratum(Heads(b[..n]), source));
  }

  lemma {:induction false} ForeignHeads(b: seq<seq<Row>>, sources: seq<int>, source: int)
    requires Tagged(b, sources) && source !in sources
    ensures Stratum(Heads(b), source) == []
  {
    if b != [] {
      var n := |b| - 1;
      TaggedInit(b, sources, n);
      ForeignHeads(b[..n], sources[..n], source);
      HeadsSplit(b, n, source);
      StratumOfHead(b[n], sources[n], source);
    }
  }

  /** A round takes from each stratum the head of its bucket. */
  lemma {:induction false} StratumOfHeads(b: seq<seq<Row>>, sources: seq<int>, i: nat)
    requires Tagged(b, sources) && i < |b|
    ensures Stratum(Heads(b), sources[i]) == Head(b[i])
  {
    var n := |b| - 1;
    TaggedInit(b, sources, n);
    HeadsSplit(b, n, sources[i]);
    StratumOfHead(b[n], sources[n], sources[i]);
    if i == n {
      ForeignHeads(b[..n], sources[..n], sources[n]);
    } else {
      StratumOfHeads(b[..n], sources[..n], i);
    }
  }

  /** How many rows of a stratum the first `n` rows of the rounds hold. */
  ghost function Taken(b: seq<seq<Row>>, n: nat, source: int): seq<Row> {
    Stratum(TakeRows(Rounds(b), n), source)
  }

  lemma RoundsUnfold(b: seq<seq<Row>>, n: nat)
    requires Heads(b) != [] && n >= |Heads(b)|
    ensures TakeRows(Rounds(b), n) == Heads(b) + TakeRows(Rounds(Tails(b)), n - |Heads(b)|)
  {
    TakeConcat(Heads(b), Rounds(Tails(b)), n);
    assert Rounds(b) == Heads(b) + Rounds(Tails(b));
  }

  lemma TakenStep(b: seq<seq<Row>>, n: nat, source: int, first: seq<Row>)
    requires Heads(b) != [] && n >= |Heads(b)| && Stratum(Heads(b), source) == first
    ensures Taken(b, n, source) == first + Taken(Tails(b), n - |Heads(b)|, source)
  {
    RoundsUnfold(b, n);
    StratumJoin(TakeRows(Rounds(b), n), Heads(b), TakeRows(Rounds(Tails(b)), n - |Heads(b)|), source, first);
  }

  /** Past the first round: its head, then what the later rounds take. */
  lemma TakenAfterRound(b: seq<seq<Row>>, sources: seq<int>, n: nat, i: nat)
    requires Tagged(b, sources) && i < |b| && Heads(b) != [] && n >= |Heads(b)|
    ensures Taken(b, n, sources[i]) == Head(b[i]) + Taken(Tails(b), n - |Heads(b)|, sources[i])
  {
    StratumOfHeads(b, sources, i);
    TakenStep(b, n, sources[i], Head(b[i]));
  }

  lemma StratumOfPrefix(s: seq<Row>, n: nat, source: int)
    ensures Stratum(TakeRows(s, n), source) <= Stratum(s, source)
  {
    var p := TakeRows(s, n);
    StratumJoin(s, p, s[|p|..], source, Stratum(p, source));
  }

  lemma RoundsStart(b: seq<seq<Row>>, n: nat)
    requires n <= |Heads(b)|
    ensures TakeRows(Rounds(b), n) == TakeRows(Heads(b), n)
  {
    if Heads(b) != [] { TakeConcat(Heads(b), Rounds(Tails(b)), n); }
  }

  /** Within the first round: at most the head. */
  lemma TakenInRound(b: seq<seq<Row>>, sources: seq<int>, n: nat, i: nat)
    requires Tagged(b, sources) && i < |b| && n <= |Heads(b)|
    ensures Taken(b, n, sources[i]) <= Head(b[i])
  {
    RoundsStart(b, n);
    StratumOfPrefix(Heads(b), n, sources[i]);
    StratumOfHeads(b, sources, i);
  }

  lemma NoMoreTaken(b: seq<seq<Row>>, n: nat, source: int)
    requires Heads(b) == []
    ensures Taken(b, n, source) == []
  {
    assert TakeRows(Rounds(b), n) == [];
  }

  lemma PrefixStep(s: seq<Row>, taken: seq<Row>, later: seq<Row>)
    requires taken == Head(s) + later && later <= Tail(s)
    ensures taken <= s
  {
  }

  lemma HeadIsPrefix(s: seq<Row>, taken: seq<Row>)
    requires taken <= Head(s)
    ensures taken <= s
  {
  }

  /** What is left to prove of fairness after a round that took the heads of both buckets. */
  lemma FairStep(
    s: seq<Row>, taken: seq<Row>, later: seq<Row>, otherHead: seq<Row>, other: seq<Row>, otherLater: seq<Row>)
    requires taken == Head(s) + later && s != [] && other == otherHead + otherLater && |otherHead| <= 1
    requires |taken| + 1 < |other|
    ensures |later| + 1 < |otherLater|
    ensures |later| == |Tail(s)| ==> |taken| == |s|
  {
  }

  lemma FewerLeft(b: seq<seq<Row>>)
    requires Heads(b) != []
    ensures |Contents(Tails(b))| < |Contents(b)|
  {
    HeadsAndTails(b);
  }

  lemma PrefixAfterRound(b: seq<seq<Row>>, sources: seq<int>, n: nat, i: nat)
    requires Tagged(b, sources) && i < |b| && Heads(b) != [] && n >= |Heads(b)|
    requires Taken(Tails(b), n - |Heads(b)|, sources[i]) <= Tails(b)[i]
    ensures Taken(b, n, sources[i]) <= b[i]
  {
    TakenAfterRound(b, sources, n, i);
    PrefixStep(b[i], Taken(b, n, sources[i]), Taken(Tails(b), n - |Heads(b)|, sources[i]));
  }

  lemma PrefixInRound(b: seq<seq<Row>>, sources: seq<int>, n: nat, i: nat)
    requires Tagged(b, sources) && i < |b| && (Heads(b) == [] || n <= |Heads(b)|)
    ensures Taken(b, n, sources[i]) <= b[i]
  {
    if Heads(b) == [] {
      NoMoreTaken(b, n, sources[i]);
    } else {
      TakenInRound(b, sources, n, i);
      HeadIsPrefix(b[i], Taken(b, n, sources[i]));
    }
  }

  /** From every stratum the rounds take a prefix of its bucket. */
  lemma {:induction false} TakenIsPrefix(b: seq<seq<Row>>, sources: seq<int>, n: nat, i: nat)
    requires Tagged(b, sources) && i < |b|
    ensures Taken(b, n, sources[i]) <= b[i]
    decreases |Contents(b)|
  {
    if Heads(b) == [] || n <= |Heads(b)| {
      PrefixInRound(b, sources, n, i);
    } else {
      FewerLeft(b);
      assert Tagged(Tails(b), sources) by { TailsTagged(b, sources); }
      TakenIsPrefix(Tails(b), sources, n - |Heads(b)|, i);
      PrefixAfterRound(b, sources, n, i);
    }
  }

  lemma AtMostOne(s: seq<Row>, taken: seq<Row>)
    requires taken <= Head(s)
    ensures |taken| <= 1
  {
  }

  lemma FairAfterRound(b: seq<seq<Row>>, sources: seq<int>, n: nat, m: nat, i: nat, j: nat)
    requires Tagged(b, sources) && i < |b| && j < |b| && b[i] != []
    requires Heads(b) != [] && n == |Heads(b)| + m
    requires |Taken(b, n, sources[i])| + 1 < |Taken(b, n, sources[j])|
    ensures |Taken(Tails(b), m, sources[i])| + 1 < |Taken(Tails(b), m, sources[j])|
    ensures |Taken(Tails(b), m, sources[i])| == |Tails(b)[i]| ==> |Taken(b, n, sources[i])| == |b[i]|
  {
    TakenAfterRound(b, sources, n, i);
    TakenAfterRound(b, sources, n, j);
    AtMostOne(b[j], Head(b[j]));
    FairStep(
      b[i], Taken(b, n, sources[i]), Taken(Tails(b), m, sources[i]),
      Head(b[j]), Taken(b, n, sources[j]), Taken(Tails(b), m, sources[j]));
  }

  /** Two strata differ by at most one row, unless the smaller one is exhausted. */
  lemma {:induction false} RoundsAreFair(b: seq<seq<Row>>, sources: seq<int>, n: nat, i: nat, j: nat)
    requires Tagged(b, sources) && i < |b| && j < |b|
    requires |Taken(b, n, sources[i])| + 1 < |Taken(b, n, sources[j])|
    ensures |Taken(b, n, sources[i])| == |b[i]|
    decreases |Contents(b)|
  {
    if b[i] == [] {
      TakenIsPrefix(b, sources, n, i);
    } else if Heads(b) == [] {
      NoMoreTaken(b, n, sources[j]);
    } else if n <= |Heads(b)| {
      TakenInRound(b, sources, n, j);
      AtMostOne(b[j], Taken(b, n, sources[j]));
    } else {
      var m := n - |Heads(b)|;
      FewerLeft(b);
      TailsTagged(b, sources);
      FairAfterRound(b, sources, n, m, i, j);
      RoundsAreFair(Tails(b), sources, m, i, j);
    }
  }

  lemma {:induction false} NoStratum(s: seq<Row>, source: int)
    requires forall r :: r in s ==> !r.sourceBug
    ensures Stratum(s, source) == []
  {
    if s != [] {
      assert s[|s| - 1] in s;
      NoStratum(s[..|s| - 1], source);
    }
  }

  lemma MinorityHasNoStratum(rows: seq<Row>, key: Row -> int, n: int, source: int)
    ensures Stratum(Sorted(Minority(rows), key), source) == []
    ensures Stratum(TakeRows(Sorted(Minority(rows), key), n), source) == []
  {
    var minority := Sorted(Minority(rows), key);
    forall r | r in minority ensures !r.sourceBug {
      assert r in multiset(minority);
      assert r in multiset(Minority(rows));
      MinorityCount(rows, r);
    }
    TakePrefix(minority, n);
    assert forall r :: r in TakeRows(minority, n) ==> r in minority;
    NoStratum(minority, source);
    NoStratum(TakeRows(minority, n), source);
  }

  lemma SortedStratumIsOwn(rows: seq<Row>, source: int, key: Row -> int)
    ensures OwnRows(Sorted(Stratum(rows, source), key), source)
  {
    var bucket := Sorted(Stratum(rows, source), key);
    forall r | r in bucket ensures InStratum(r, source) {
      assert r in multiset(bucket);
      StratumCount(rows, source, r);
    }
  }

  lemma BucketsTagged(rows: seq<Row>, key: Row -> int)
    ensures Tagged(AllBuckets(rows, key), Ascending(SourceSet(rows)))
  {
    var sources, b := Ascending(SourceSet(rows)), AllBuckets(rows, key);
    forall i | 0 <= i < |b| ensures OwnRows(b[i], sources[i]) { SortedStratumIsOwn(rows, sources[i], key); }
  }

  lemma SelectStratum(minority: seq<Row>, rest: seq<Row>, size: nat, source: int)
    requires Stratum(minority, source) == [] && Stratum(TakeRows(minority, size), source) == []
    ensures Stratum(Select(minority, rest, size), source) ==
      if |minority| >= size then [] else Stratum(TakeRows(rest, size - |minority|), source)
  {
    if |minority| < size {
      StratumJoin(Select(minority, rest, size), minority, TakeRows(rest, size - |minority|), source, []);
    }
  }

  /** The source bugs of a stratum in the sample. */
  lemma SampleStratum(
    rows: seq<Row>, size: nat, minorityKey: Row -> int, bucketKey: Row -> int, source: int)
    ensures Stratum(Sample(rows, size, minorityKey, bucketKey), source) ==
      if |Sorted(Minority(rows), minorityKey)| >= size then []
      else Taken(AllBuckets(rows, bucketKey), size - |Sorted(Minority(rows), minorityKey)|, source)
  {
    MinorityHasNoStratum(rows, minorityKey, size, source);
    SelectStratum(Sorted(Minority(rows), minorityKey), Rounds(AllBuckets(rows, bucketKey)), size, source);
  }

  lemma SourcePosition(rows: seq<Row>, key: Row -> int, source: int) returns (i: nat)
    requires source in SourceSet(rows)
    ensures i < |AllBuckets(rows, key)| && Ascending(SourceSet(rows))[i] == source
    ensures AllBuckets(rows, key)[i] == Sorted(Stratum(rows, source), key)
  {
    var sources := Ascending(SourceSet(rows));
    assert source in sources;
    i :| 0 <= i < |sources| && sources[i] == source;
  }

  /** The part comes first in the whole, and is all of it if another part has two rows more. */
  ghost predicate Fair(part: seq<Row>, whole: seq<Row>, other: seq<Row>) {
    part <= whole && (|part| + 1 < |other| ==> part == whole)
  }

  lemma TakenIsFair(rows: seq<Row>, n: nat, key: Row -> int, small: int, large: int)
    requires small in SourceSet(rows) && large in SourceSet(rows)
    ensures var b := AllBuckets(rows, key);
      Fair(Taken(b, n, small), Sorted(Stratum(rows, small), key), Taken(b, n, large))
  {
    var b, sources := AllBuckets(rows, key), Ascending(SourceSet(rows));
    BucketsTagged(rows, key);
    var i := SourcePosition(rows, key, small);
    var j := SourcePosition(rows, key, large);
    TakenIsPrefix(b, sources, n, i);
    if |Taken(b, n, small)| + 1 < |Taken(b, n, large)| { RoundsAreFair(b, sources, n, i, j); }
  }

  /** The sample takes the first rows of a stratum by key, and two strata get numbers that differ
      by at most one unless the smaller one is taken whole. */
  lemma SampleIsFair(
    rows: seq<Row>, size: nat, minorityKey: Row -> int, bucketKey: Row -> int, small: int, large: int)
    requires small in SourceSet(rows) && large in SourceSet(rows)
    ensures var sample := Sample(rows, size, minorityKey, bucketKey);
      Fair(Stratum(sample, small), Sorted(Stratum(rows, small), bucketKey), Stratum(sample, large))
  {
    SampleStratum(rows, size, minorityKey, bucketKey, small);
    SampleStratum(rows, size, minorityKey, bucketKey, large);
    var minority := Sorted(Minority(rows), minorityKey);
    if |minority| < size { TakenIsFair(rows, size - |minority|, bucketKey, small, large); }
  }

  // ----- order independence -------------------------------------------------------------

  lemma SameSorted(a: seq<Row>, b: seq<Row>, key: Row -> int)
    requires multiset(a) == multiset(b) && KeysDistinct(a, key)
    ensures Sorted(a, key) == Sorted(b, key)
  {
    SortedIsSorted(a, key);
    SortedIsSorted(b, key);
    forall x | x in Sorted(a, key) ensures x in a { assert x in multiset(Sorted(a, key)); }
    SortedUnique(Sorted(a, key), Sorted(b, key), key);
  }

  lemma SameSources(a: seq<Row>, b: seq<Row>)
    requires multiset(a) == multiset(b)
    ensures SourceSet(a) == SourceSet(b)
  {
    forall s ensures s in SourceSet(a) <==> s in SourceSet(b) {
      SourceSetIs(a, s);
      SourceSetIs(b, s);
      forall x ensures x in a <==> x in b { assert x in multiset(a) <==> x in multiset(b); }
    }
  }

  lemma SameMinority(a: seq<Row>, b: seq<Row>, key: Row -> int)
    requires multiset(a) == multiset(b) && KeysDistinct(Minority(a), key)
    ensures Sorted(Minority(a), key) == Sorted(Minority(b), key)
  {
    forall x ensures multiset(Minority(a))[x] == multiset(Minority(b))[x] {
      MinorityCount(a, x);
      MinorityCount(b, x);
    }
    SameSorted(Minority(a), Minority(b), key);
  }

  lemma SameStratum(a: seq<Row>, b: seq<Row>, source: int, key: Row -> int)
    requires multiset(a) == multiset(b) && KeysDistinct(Stratum(a, source), key)
    ensures Sorted(Stratum(a, source), key) == Sorted(Stratum(b, source), key)
  {
    forall x ensures multiset(Stratum(a, source))[x] == multiset(Stratum(b, source))[x] {
      StratumCount(a, source, x);
      StratumCount(b, source, x);
    }
    SameSorted(Stratum(a, source), Stratum(b, source), key);
  }

  ghost predicate StrataDistinct(rows: seq<Row>, key: Row -> int) {
    forall s :: s in SourceSet(rows) ==> KeysDistinct(Stratum(rows, s), key)
  }

  lemma SameBuckets(a: seq<Row>, b: seq<Row>, key: Row -> int)
    requires multiset(a) == multiset(b) && StrataDistinct(a, key)
    ensures AllBuckets(a, key) == AllBuckets(b, key)
  {
    SameSources(a, b);
    var sources := Ascending(SourceSet(a));
    forall i | 0 <= i < |sources| ensures AllBuckets(a, key)[i] == AllBuckets(b, key)[i] {
      assert sources[i] in SourceSet(a);
      SameStratum(a, b, sources[i], key);
    }
  }

  /** If rows that are sorted together have different keys, a reordered input gives the same
      sample, in the same order. */
  lemma OrderDoesNotMatter(a: seq<Row>, b: seq<Row>, size: int, minorityKey: Row -> int, bucketKey: Row -> int)
    requires multiset(a) == multiset(b)
    requires KeysDistinct(Minority(a), minorityKey) && StrataDistinct(a, bucketKey)
    ensures Sample(a, size, minorityKey, bucketKey) == Sample(b, size, minorityKey, bucketKey)
  {
    SameMinority(a, b, minorityKey);
    SameBuckets(a, b, bucketKey);
  }

  // ----- the order of the rounds --------------------------------------------------------

  function Least(a: nat, b: nat): nat { if a < b then a else b }

  /** The rows that the first `p` rounds take. */
  ghost function InEarlierRounds(b: seq<seq<Row>>, p: nat): nat {
    if b == [] then 0 else InEarlierRounds(b[..|b| - 1], p) + Least(|b[|b| - 1]|, p)
  }

  /** The first `i` buckets that still have a row in round `p`. */
  ghost function EarlierInRound(b: seq<seq<Row>>, i: nat, p: nat): nat
    requires i <= |b|
  {
    if i == 0 then 0 else EarlierInRound(b, i - 1, p) + if |b[i - 1]| > p then 1 else 0
  }

  lemma {:induction false} HeadAt(b: seq<seq<Row>>, i: nat)
    requires i < |b| && b[i] != []
    ensures EarlierInRound(b, i, 0) < |Heads(b)| && Heads(b)[EarlierInRound(b, i, 0)] == b[i][0]
  {
    HeadsBefore(b, i);
    HeadsStep(b, i);
    HeadsPrefix(b, i + 1);
  }

  lemma {:induction false} HeadsBefore(b: seq<seq<Row>>, i: nat)
    requires i <= |b|
    ensures |Heads(b[..i])| == EarlierInRound(b, i, 0)
  {
    if i > 0 {
      HeadsBefore(b, i - 1);
      HeadsStep(b, i - 1);
    }
  }

  lemma {:induction false} EarlierInTails(b: seq<seq<Row>>, i: nat, p: nat)
    requires i <= |b| && p > 0
    ensures EarlierInRound(b, i, p) == EarlierInRound(Tails(b), i, p - 1)
  {
    if i > 0 { EarlierInTails(b, i - 1, p); }
  }

  lemma {:induction false} EarlierRoundsInTails(b: seq<seq<Row>>, p: nat)
    requires p > 0
    ensures InEarlierRounds(b, p) == |Heads(b)| + InEarlierRounds(Tails(b), p - 1)
  {
    if b != [] {
      var n := |b| - 1;
      EarlierRoundsInTails(b[..n], p);
      assert Tails(b)[..n] == Tails(b[..n]);
    }
  }

  lemma {:induction false} NoEarlierRounds(b: seq<seq<Row>>)
    ensures InEarlierRounds(b, 0) == 0
  {
    if b != [] { NoEarlierRounds(b[..|b| - 1]); }
  }

  lemma RowsOfRounds(b: seq<seq<Row>>)
    requires Heads(b) != []
    ensures Rounds(b) == Heads(b) + Rounds(Tails(b))
  {
  }

  lemma ThereIsAHead(b: seq<seq<Row>>, i: nat)
    requires i < |b| && b[i] != []
    ensures Heads(b) != []
  {
    NoHeads(b);
  }

  lemma PlaceInJoin(first: seq<Row>, rest: seq<Row>, whole: seq<Row>, place: nat)
    requires whole == first + rest
    ensures place < |first| ==> place < |whole| && whole[place] == first[place]
    ensures place < |rest| ==> |first| + place < |whole| && whole[|first| + place] == rest[place]
  {
  }

  /** The place of a row: after the rows of earlier rounds and those of earlier sources in its own. */
  ghost function Place(b: seq<seq<Row>>, i: nat, p: nat): nat
    requires i <= |b|
  {
    InEarlierRounds(b, p) + EarlierInRound(b, i, p)
  }

  lemma PlaceInTails(b: seq<seq<Row>>, i: nat, p: nat)
    requires i < |b| && p > 0
    ensures Place(b, i, p) == |Heads(b)| + Place(Tails(b), i, p - 1)
  {
    EarlierInTails(b, i, p);
    EarlierRoundsInTails(b, p);
  }

  lemma PlaceInFirst(b: seq<seq<Row>>, i: nat)
    requires i < |b| && b[i] != []
    ensures Place(b, i, 0) < |Heads(b)| && Heads(b)[Place(b, i, 0)] == b[i][0]
  {
    NoEarlierRounds(b);
    HeadAt(b, i);
  }

  /** The rounds hold the row at the place. */
  ghost predicate Holds(rounds: seq<Row>, place: nat, row: Row) {
    place < |rounds| && rounds[place] == row
  }

  lemma FirstPlace(b: seq<seq<Row>>, i: nat, p: nat)
    requires i < |b| && p == 0 && b[i] != []
    ensures Holds(Rounds(b), Place(b, i, p), b[i][p])
  {
    ThereIsAHead(b, i);
    RowsOfRounds(b);
    PlaceInFirst(b, i);
    PlaceInJoin(Heads(b), Rounds(Tails(b)), Rounds(b), Place(b, i, 0));
  }

  lemma LaterPlace(b: seq<seq<Row>>, i: nat, p: nat, row: Row)
    requires i < |b| && p > 0 && b[i] != [] && Holds(Rounds(Tails(b)), Place(Tails(b), i, p - 1), row)
    ensures Holds(Rounds(b), Place(b, i, p), row)
  {
    ThereIsAHead(b, i);
    RowsOfRounds(b);
    PlaceInTails(b, i, p);
    PlaceInJoin(Heads(b), Rounds(Tails(b)), Rounds(b), Place(Tails(b), i, p - 1));
  }

  lemma TailRow(b: seq<seq<Row>>, i: nat, p: nat)
    requires i < |b| && 0 < p < |b[i]|
    ensures p - 1 < |Tails(b)[i]| && Tails(b)[i][p - 1] == b[i][p]
  {
  }

  /** The row of bucket `i` in round `p` is at its place. */
  ghost predicate Placed(b: seq<seq<Row>>, i: nat, p: nat)
    requires i < |b| && p < |b[i]|
  {
    Holds(Rounds(b), Place(b, i, p), b[i][p])
  }

  lemma NextPlace(b: seq<seq<Row>>, tails: seq<seq<Row>>, i: nat, p: nat)
    requires i < |b| && 0 < p < |b[i]| && tails == Tails(b) && p - 1 < |tails[i]| && Placed(tails, i, p - 1)
    ensures Placed(b, i, p)
  {
    TailRow(b, i, p);
    LaterPlace(b, i, p, tails[i][p - 1]);
  }

  lemma TailsOf(b: seq<seq<Row>>, i: nat, p: nat) returns (tails: seq<seq<Row>>)
    requires i < |b| && 0 < p < |b[i]|
    ensures tails == Tails(b) && i < |tails| && p - 1 < |tails[i]|
  {
    tails := Tails(b);
    TailRow(b, i, p);
  }

  lemma {:induction false} PlaceOfRow(b: seq<seq<Row>>, i: nat, p: nat)
    requires i < |b| && p < |b[i]|
    ensures Placed(b, i, p)
    decreases p
  {
    if p == 0 {
      FirstPlace(b, i, p);
    } else {
      var tails := TailsOf(b, i, p);
      PlaceOfRow(tails, i, p - 1);
      NextPlace(b, tails, i, p);
    }
  }

  // ----- the order of the sample --------------------------------------------------------

  function Greatest(a: int, b: int): int { if a < b then b else a }

  /** The minority as far as it goes, and then as much of the rest as fits; a negative size only
      shortens the minority. */
  ghost predicate Shape(sample: seq<Row>, minority: seq<Row>, rest: seq<Row>, size: int) {
    if size < 0 then sample <= minority && |sample| == Greatest(0, |minority| + size)
    else if size <= |minority| then sample == minority[..size]
    else sample == minority + rest[..Least(size - |minority|, |rest|)]
  }

  lemma SelectShape(minority: seq<Row>, rest: seq<Row>, size: int)
    ensures Shape(Select(minority, rest, size), minority, rest, size)
  {
  }

  /** The sample starts with the minority in the order of its keys; then come the rounds. */
  lemma SampleShape(rows: seq<Row>, size: int, minorityKey: Row -> int, bucketKey: Row -> int)
    ensures Shape(Sample(rows, size, minorityKey, bucketKey), Sorted(Minority(rows), minorityKey),
                  Rounds(AllBuckets(rows, bucketKey)), size)
  {
    var minority, b := Sorted(Minority(rows), minorityKey), AllBuckets(rows, bucketKey);
    SelectIsSample(rows, size, minorityKey, bucketKey, minority, b);
    SelectShape(minority, Rounds(b), size);
  }

  /** The strata in the order of their sources, each in the order of its keys. */
  lemma StrataInOrder(rows: seq<Row>, key: Row -> int, i: nat, j: nat)
    requires i < j < |AllBuckets(rows, key)|
    ensures exists s, t ::
      && s in SourceSet(rows) && t in SourceSet(rows) && s < t
      && AllBuckets(rows, key)[i] == Sorted(Stratum(rows, s), key)
      && AllBuckets(rows, key)[j] == Sorted(Stratum(rows, t), key)
    ensures IsSorted(AllBuckets(rows, key)[i], key)
  {
    var sources := Ascending(SourceSet(rows));
    assert sources[i] in SourceSet(rows) && sources[j] in SourceSet(rows);
    SortedIsSorted(Stratum(rows, sources[i]), key);
  }
}
