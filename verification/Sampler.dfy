/**
 The stratified sample of the diagnostics evaluation: all rows that are not source bugs come
 first, then the strata of source bugs are emptied round robin.  Rows are sorted by a digest
 of the seed and the row, here an arbitrary key.
 */
module Sampler {
  import opened FiniteSets

  /** `source` stands for the source kind, by its rank among the names. */
  datatype Row = Row(id: int, sourceBug: bool, source: int)

  // ----- sorting ------------------------------------------------------------------------

  function InsertSorted(s: seq<Row>, x: Row, key: Row -> int): (r: seq<Row>)
    ensures multiset(r) == multiset(s) + multiset{x}
  {
    if s == [] || key(s[|s| - 1]) <= key(x) then s + [x]
    else
      assert s == s[..|s| - 1] + [s[|s| - 1]];
      InsertSorted(s[..|s| - 1], x, key) + [s[|s| - 1]]
  }

  /** A stable sort. */
  function Sorted(s: seq<Row>, key: Row -> int): (r: seq<Row>)
    ensures multiset(r) == multiset(s)
  {
    if s == [] then []
    else
      assert s == s[..|s| - 1] + [s[|s| - 1]];
      InsertSorted(Sorted(s[..|s| - 1], key), s[|s| - 1], key)
  }

  ghost predicate IsSorted(s: seq<Row>, key: Row -> int) {
    forall i, j :: 0 <= i <= j < |s| ==> key(s[i]) <= key(s[j])
  }

  lemma {:induction false} InsertKeepsSorted(s: seq<Row>, x: Row, key: Row -> int)
    requires IsSorted(s, key)
    ensures IsSorted(InsertSorted(s, x, key), key)
  {
    if s != [] && key(s[|s| - 1]) > key(x) {
      var init, last := s[..|s| - 1], s[|s| - 1];
      InsertKeepsSorted(init, x, key);
      var r := InsertSorted(init, x, key);
      forall i | 0 <= i < |r| ensures key(r[i]) <= key(last) {
        assert r[i] in multiset(r);
        assert r[i] in multiset(init) || r[i] == x;
      }
    }
  }

  lemma {:induction false} SortedIsSorted(s: seq<Row>, key: Row -> int)
    ensures IsSorted(Sorted(s, key), key)
  {
    if s != [] {
      SortedIsSorted(s[..|s| - 1], key);
      InsertKeepsSorted(Sorted(s[..|s| - 1], key), s[|s| - 1], key);
    }
  }

  /** Different rows have different keys. */
  ghost predicate KeysDistinct(s: seq<Row>, key: Row -> int) {
    forall x, y :: x in s && y in s && key(x) == key(y) ==> x == y
  }

  lemma LastIsGreatest(a: seq<Row>, b: seq<Row>, key: Row -> int)
    requires IsSorted(a, key) && multiset(a) == multiset(b) && a != [] && |a| == |b|
    ensures b[|b| - 1] in a && key(b[|b| - 1]) <= key(a[|a| - 1])
  {
    assert b[|b| - 1] in multiset(b);
    assert b[|b| - 1] in multiset(a);
  }

  lemma LastsEqual(a: seq<Row>, b: seq<Row>, key: Row -> int)
    requires IsSorted(a, key) && IsSorted(b, key) && multiset(a) == multiset(b) && KeysDistinct(a, key)
    requires a != [] && |a| == |b|
    ensures a[|a| - 1] == b[|b| - 1]
  {
    LastIsGreatest(a, b, key);
    LastIsGreatest(b, a, key);
    assert a[|a| - 1] in a;
  }

  lemma InitSorted(a: seq<Row>, key: Row -> int)
    requires a != []
    ensures IsSorted(a, key) ==> IsSorted(a[..|a| - 1], key)
    ensures KeysDistinct(a, key) ==> KeysDistinct(a[..|a| - 1], key)
  {
    assert forall x :: x in a[..|a| - 1] ==> x in a;
  }

  lemma AppendCancels(p: seq<Row>, q: seq<Row>, x: Row)
    requires multiset(p + [x]) == multiset(q + [x])
    ensures multiset(p) == multiset(q)
  {
    assert multiset(p) == multiset(p + [x]) - multiset{x};
    assert multiset(q) == multiset(q + [x]) - multiset{x};
  }

  lemma SplitEnd(s: seq<Row>)
    requires s != []
    ensures s == s[..|s| - 1] + [s[|s| - 1]]
  {
  }

  lemma InitsSame(a: seq<Row>, b: seq<Row>)
    requires multiset(a) == multiset(b) && a != [] && |a| == |b| && a[|a| - 1] == b[|b| - 1]
    ensures multiset(a[..|a| - 1]) == multiset(b[..|b| - 1])
  {
    SplitEnd(a);
    SplitEnd(b);
    AppendCancels(a[..|a| - 1], b[..|b| - 1], a[|a| - 1]);
  }

  lemma {:induction false} SortedUnique(a: seq<Row>, b: seq<Row>, key: Row -> int)
    requires IsSorted(a, key) && IsSorted(b, key) && multiset(a) == multiset(b) && KeysDistinct(a, key)
    ensures a == b
  {
    assert |a| == |multiset(a)| == |multiset(b)| == |b|;
    if a != [] {
      LastsEqual(a, b, key);
      InitSorted(a, key);
      InitSorted(b, key);
      InitsSame(a, b);
      SortedUnique(a[..|a| - 1], b[..|b| - 1], key);
      SplitEnd(a);
      SplitEnd(b);
    }
  }

  // ----- strata -------------------------------------------------------------------------

  function Minority(rows: seq<Row>): seq<Row> {
    if rows == [] then []
    else Minority(rows[..|rows| - 1]) + if rows[|rows| - 1].sourceBug then [] else [rows[|rows| - 1]]
  }

  predicate InStratum(row: Row, source: int) { row.sourceBug && row.source == source }

  function Stratum(rows: seq<Row>, source: int): seq<Row> {
    if rows == [] then []
    else Stratum(rows[..|rows| - 1], source) + if InStratum(rows[|rows| - 1], source) then [rows[|rows| - 1]] else []
  }

  ghost function SourceSet(rows: seq<Row>): set<int> {
    if rows == [] then {}
    else SourceSet(rows[..|rows| - 1]) + if rows[|rows| - 1].sourceBug then {rows[|rows| - 1].source} else {}
  }

  /** The elements of a set in ascending order. */
  function Ascending(s: set<int>): (r: seq<int>)
    ensures forall x :: x in r <==> x in s
    ensures forall i, j :: 0 <= i < j < |r| ==> r[i] < r[j]
  {
    if s == {} then [] else [Minimum(s)] + Ascending(s - {Minimum(s)})
  }

  function Buckets(rows: seq<Row>, sources: seq<int>, key: Row -> int): (b: seq<seq<Row>>)
    ensures |b| == |sources|
    ensures forall i :: 0 <= i < |b| ==> b[i] == Sorted(Stratum(rows, sources[i]), key)
  {
    seq(|sources|, i requires 0 <= i < |sources| => Sorted(Stratum(rows, sources[i]), key))
  }

  // ----- the reference: rounds over the buckets -----------------------------------------

  function Head(s: seq<Row>): seq<Row> { if s == [] then [] else [s[0]] }

  /** The first row of every bucket that has one, in order. */
  function Heads(b: seq<seq<Row>>): seq<Row> {
    if b == [] then []
    else Heads(b[..|b| - 1]) + Head(b[|b| - 1])
  }

  function Tail(s: seq<Row>): seq<Row> { if s == [] then [] else s[1..] }

  function Tails(b: seq<seq<Row>>): (t: seq<seq<Row>>)
    ensures |t| == |b|
    ensures forall i :: 0 <= i < |b| ==> t[i] == Tail(b[i])
  {
    seq(|b|, i requires 0 <= i < |b| => Tail(b[i]))
  }

  /** All rows of the buckets, as a multiset. */
  ghost function Contents(b: seq<seq<Row>>): multiset<Row> {
    if b == [] then multiset{} else Contents(b[..|b| - 1]) + multiset(b[|b| - 1])
  }

  lemma HeadAndTail(s: seq<Row>)
    ensures multiset(s) == multiset(Head(s)) + multiset(Tail(s))
  {
    assert s == Head(s) + Tail(s);
  }

  lemma TailsInit(b: seq<seq<Row>>)
    requires b != []
    ensures Contents(Tails(b)) == Contents(Tails(b[..|b| - 1])) + multiset(Tail(b[|b| - 1]))
  {
    assert Tails(b)[..|b| - 1] == Tails(b[..|b| - 1]);
  }

  lemma {:induction false} HeadsAndTails(b: seq<seq<Row>>)
    ensures Contents(b) == multiset(Heads(b)) + Contents(Tails(b))
  {
    if b != [] {
      HeadsAndTails(b[..|b| - 1]);
      TailsInit(b);
      HeadAndTail(b[|b| - 1]);
    }
  }

  lemma {:induction false} NoHeads(b: seq<seq<Row>>)
    ensures Heads(b) == [] <==> forall i :: 0 <= i < |b| ==> b[i] == []
  {
    if b != [] {
      NoHeads(b[..|b| - 1]);
      assert forall i :: 0 <= i < |b| - 1 ==> b[..|b| - 1][i] == b[i];
    }
  }

  /** One round after another, until all buckets are empty. */
  ghost function Rounds(b: seq<seq<Row>>): seq<Row>
    decreases |Contents(b)|
  {
    HeadsAndTails(b);
    if Heads(b) == [] then [] else Heads(b) + Rounds(Tails(b))
  }

  ghost function TakeRows(s: seq<Row>, n: int): seq<Row> {
    if n <= 0 then [] else if n < |s| then s[..n] else s
  }

  lemma {:induction false} EmptyContents(b: seq<seq<Row>>)
    requires forall i :: 0 <= i < |b| ==> b[i] == []
    ensures Contents(b) == multiset{}
  {
    if b != [] { EmptyContents(b[..|b| - 1]); }
  }

  lemma {:induction false} RoundsAreContents(b: seq<seq<Row>>)
    ensures multiset(Rounds(b)) == Contents(b)
    decreases |Contents(b)|
  {
    HeadsAndTails(b);
    if Heads(b) == [] {
      NoHeads(b);
      EmptyContents(b);
    } else {
      RoundsAreContents(Tails(b));
    }
  }

  /** The minority, cut to the size, or all of it and then as much of the rest as fits.  A negative
      size slices from the end, as Python does. */
  ghost function Select(minority: seq<Row>, rest: seq<Row>, size: int): seq<Row> {
    if |minority| >= size then TakeRows(minority, if size >= 0 then size else |minority| + size)
    else minority + TakeRows(rest, size - |minority|)
  }

  ghost function AllBuckets(rows: seq<Row>, key: Row -> int): seq<seq<Row>> {
    Buckets(rows, Ascending(SourceSet(rows)), key)
  }

  /** The sample, without the loop. */
  ghost function Sample(rows: seq<Row>, size: int, minorityKey: Row -> int, bucketKey: Row -> int): seq<Row> {
    Select(Sorted(Minority(rows), minorityKey), Rounds(AllBuckets(rows, bucketKey)), size)
  }

  // ----- the loop -----------------------------------------------------------------------

  method GroupBySource(rows: seq<Row>) returns (strata: map<int, seq<Row>>)
    ensures strata.Keys == SourceSet(rows)
    ensures forall s :: s in strata ==> strata[s] == Stratum(rows, s)
  {
    strata := map[];
    for i := 0 to |rows|
      invariant strata.Keys == SourceSet(rows[..i])
      invariant forall s :: Stratum(rows[..i], s) == if s in strata then strata[s] else []
    {
      assert rows[..i + 1][..i] == rows[..i];
      var row := rows[i];
      if row.sourceBug {
        var before := if row.source in strata then strata[row.source] else [];
        strata := strata[row.source := before + [row]];
      }
    }
    assert rows[..|rows|] == rows;
  }

  predicate Listed(sources: seq<int>, buckets: map<int, seq<Row>>) {
    && (forall i :: 0 <= i < |sources| ==> sources[i] in buckets)
    && forall i, j :: 0 <= i < j < |sources| ==> sources[i] != sources[j]
  }

  /** `v` is the buckets in the order of the sources. */
  ghost predicate Shows(v: seq<seq<Row>>, sources: seq<int>, buckets: map<int, seq<Row>>) {
    Listed(sources, buckets) && |v| == |sources| && forall i :: 0 <= i < |v| ==> v[i] == buckets[sources[i]]
  }

  lemma {:induction false} HeadsPrefix(b: seq<seq<Row>>, k: nat)
    requires k <= |b|
    ensures Heads(b[..k]) <= Heads(b)
  {
    if k < |b| {
      HeadsPrefix(b[..|b| - 1], k);
      assert b[..|b| - 1][..k] == b[..k];
    } else {
      assert b[..k] == b;
    }
  }

  lemma HeadsStep(b: seq<seq<Row>>, k: nat)
    requires k < |b|
    ensures Heads(b[..k + 1]) == Heads(b[..k]) + Head(b[k])
  {
    assert b[..k + 1][..k] == b[..k];
  }

  lemma ShowsUpdate(v: seq<seq<Row>>, sources: seq<int>, buckets: map<int, seq<Row>>, j: nat, bucket: seq<Row>)
    requires Shows(v, sources, buckets) && j < |sources|
    ensures Shows(v[j := bucket], sources, buckets[sources[j] := bucket])
  {
  }

  lemma TakesPrefix(p: seq<Row>, s: seq<Row>, n: nat)
    requires p <= s && |p| == n > 0
    ensures p == TakeRows(s, n)
  {
  }

  lemma PickedAll(v: seq<seq<Row>>, k: nat, remaining: nat, picked: seq<Row>)
    requires k <= |v| && picked == Heads(v[..k]) && |picked| == remaining > 0
    ensures picked == TakeRows(Heads(v), remaining)
  {
    HeadsPrefix(v, k);
    TakesPrefix(picked, Heads(v), remaining);
  }

  /** The first `n` buckets have lost their heads, and the others have not been touched. */
  ghost predicate Played(v: seq<seq<Row>>, w: seq<seq<Row>>, n: nat) {
    |w| == |v| && forall i :: 0 <= i < |v| ==> w[i] == if i < n then Tail(v[i]) else v[i]
  }

  lemma PlayedStep(v: seq<seq<Row>>, w: seq<seq<Row>>, n: nat)
    requires Played(v, w, n) && n < |v|
    ensures w[n] == v[n]
    ensures if v[n] == [] then Played(v, w, n + 1) else Played(v, w[n := v[n][1..]], n + 1)
  {
  }

  lemma PlayedAll(v: seq<seq<Row>>, w: seq<seq<Row>>)
    requires Played(v, w, |v|)
    ensures w == Tails(v) && v[..|v|] == v
  {
  }

  /** One pass over the sources: a row from every bucket that has one, until none may be taken. */
  method PlayRound(sources: seq<int>, buckets: map<int, seq<Row>>, remaining: nat, ghost v: seq<seq<Row>>)
    returns (picked: seq<Row>, after: map<int, seq<Row>>, left: nat, ghost w: seq<seq<Row>>)
    requires Shows(v, sources, buckets) && remaining > 0
    ensures picked == TakeRows(Heads(v), remaining) && left == remaining - |picked|
    ensures Shows(w, sources, after)
    ensures left > 0 ==> w == Tails(v)
  {
    picked, after, left, w := [], buckets, remaining, v;
    for j := 0 to |sources|
      invariant picked == Heads(v[..j]) && left == remaining - |picked| > 0
      invariant Shows(w, sources, after)
      invariant Played(v, w, j)
    {
      HeadsStep(v, j);
      PlayedStep(v, w, j);
      var bucket := after[sources[j]];
      if bucket == [] { continue; }
      picked := picked + [bucket[0]];
      ShowsUpdate(w, sources, after, j, bucket[1..]);
      after, w := after[sources[j] := bucket[1..]], w[j := bucket[1..]];
      left := left - 1;
      if left == 0 {
        PickedAll(v, j + 1, remaining, picked);
        return;
      }
    }
    PlayedAll(v, w);
  }

  lemma TakeConcat(a: seq<Row>, b: seq<Row>, n: nat)
    ensures n <= |a| ==> TakeRows(a + b, n) == TakeRows(a, n)
    ensures n >= |a| ==> TakeRows(a + b, n) == a + TakeRows(b, n - |a|)
  {
  }

  /** What a round picks and leaves is what the reference takes. */
  lemma AfterRound(b: seq<seq<Row>>, after: seq<seq<Row>>, n: nat, picked: seq<Row>, left: nat)
    requires n > 0 && picked == TakeRows(Heads(b), n) && left == n - |picked|
    requires left > 0 ==> after == Tails(b)
    ensures TakeRows(Rounds(b), n) == picked + (if picked == [] then [] else TakeRows(Rounds(after), left))
  {
    if Heads(b) != [] {
      TakeConcat(Heads(b), Rounds(Tails(b)), n);
      if n <= |Heads(b)| { assert picked + [] == picked; }
    }
  }

  /** The selection so far and what the reference still takes make up the goal. */
  ghost predicate Towards(goal: seq<Row>, selected: seq<Row>, v: seq<seq<Row>>, remaining: nat) {
    goal == selected + TakeRows(Rounds(v), remaining)
  }

  lemma Reassociate(goal: seq<Row>, a: seq<Row>, bc: seq<Row>, b: seq<Row>, c: seq<Row>)
    requires goal == a + bc && bc == b + c
    ensures goal == (a + b) + c
    ensures b == [] && c == [] ==> goal == a
  {
  }

  lemma RoundTowards(
    goal: seq<Row>, selected: seq<Row>, v: seq<seq<Row>>, n: nat, picked: seq<Row>, w: seq<seq<Row>>, left: nat)
    requires Towards(goal, selected, v, n) && n > 0
    requires picked == TakeRows(Heads(v), n) && left == n - |picked| && (left > 0 ==> w == Tails(v))
    ensures picked != [] ==> Towards(goal, selected + picked, w, left)
    ensures picked == [] ==> goal == selected
  {
    AfterRound(v, w, n, picked, left);
    var rest := if picked == [] then [] else TakeRows(Rounds(w), left);
    Reassociate(goal, selected, TakeRows(Rounds(v), n), picked, rest);
  }

  lemma GoalReached(goal: seq<Row>, selected: seq<Row>, v: seq<seq<Row>>, n: nat)
    requires Towards(goal, selected, v, n) && (n == 0 || v == [])
    ensures goal == selected
  {
    assert selected + [] == selected;
  }

  method FillRoundRobin(
    sources: seq<int>, strata: map<int, seq<Row>>, minority: seq<Row>, size: int, ghost b: seq<seq<Row>>)
    returns (selected: seq<Row>)
    requires Shows(b, sources, strata) && |minority| < size
    ensures selected == Select(minority, Rounds(b), size)
  {
    ghost var goal, v := minority + TakeRows(Rounds(b), size - |minority|), b;
    selected := minority;
    var remaining: nat := size - |selected|;
    var buckets := strata;
    while remaining > 0 && sources != []
      invariant Shows(v, sources, buckets)
      invariant Towards(goal, selected, v, remaining)
      decreases remaining
    {
      var picked, after, left, w := PlayRound(sources, buckets, remaining, v);
      RoundTowards(goal, selected, v, remaining, picked, w, left);
      if picked == [] { return; }
      selected := selected + picked;
      remaining, buckets, v := left, after, w;
    }
    GoalReached(goal, selected, v, remaining);
  }

  lemma BucketsShow(rows: seq<Row>, sources: seq<int>, sorted: map<int, seq<Row>>, key: Row -> int)
    requires Listed(sources, sorted)
    requires forall s :: s in sorted ==> sorted[s] == Sorted(Stratum(rows, s), key)
    ensures Shows(Buckets(rows, sources, key), sources, sorted)
  {
  }

  /** The strata by source, each sorted, and the sources in order. */
  method SortStrata(rows: seq<Row>, key: Row -> int) returns (sources: seq<int>, sorted: map<int, seq<Row>>)
    ensures Shows(AllBuckets(rows, key), sources, sorted)
  {
    var strata := GroupBySource(rows);
    sorted := map s | s in strata :: Sorted(strata[s], key);
    sources := Ascending(strata.Keys);
    BucketsShow(rows, sources, sorted, key);
  }

  /** Python's minority[:size]. */
  method FirstRows(minority: seq<Row>, size: int, ghost rest: seq<Row>) returns (first: seq<Row>)
    requires size <= |minority|
    ensures first == Select(minority, rest, size)
  {
    if size >= 0 { return minority[..size]; }
    return if |minority| + size >= 0 then minority[..|minority| + size] else [];
  }

  lemma SelectIsSample(
    rows: seq<Row>, size: int, minorityKey: Row -> int, bucketKey: Row -> int, minority: seq<Row>, b: seq<seq<Row>>)
    requires minority == Sorted(Minority(rows), minorityKey) && b == AllBuckets(rows, bucketKey)
    ensures Select(minority, Rounds(b), size) == Sample(rows, size, minorityKey, bucketKey)
  {
  }

  method StratifiedSample(rows: seq<Row>, size: int, minorityKey: Row -> int, bucketKey: Row -> int)
    returns (selected: seq<Row>)
    ensures selected == Sample(rows, size, minorityKey, bucketKey)
  {
    var minority := Sorted(Minority(rows), minorityKey);
    ghost var b := AllBuckets(rows, bucketKey);
    if |minority| >= size {
      selected := FirstRows(minority, size, Rounds(b));
    } else {
      var sources, sorted := SortStrata(rows, bucketKey);
      selected := FillRoundRobin(sources, sorted, minority, size, b);
    }
    SelectIsSample(rows, size, minorityKey, bucketKey, minority, b);
  }
}
