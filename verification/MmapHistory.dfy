/**
 Whole runs of the mmap table, from empty maps.  The reference is the history of requests:
 the ring of a pid stands for its last four starts, the table for the refs stored with them.
 */
module MmapHistory {
  import opened Wrappers
  import opened BpfMap
  import opened MmapRing

  const EMPTY: Core := Core(map[], map[])

  /** The starts a pid has stored, oldest first. */
  ghost function PidStarts(h: seq<Store>, pid: int): (s: seq<U64>)
    ensures 0 !in s
  {
    if h == [] then []
    else
      var e := h[|h| - 1];
      PidStarts(h[..|h| - 1], pid) + if e.pid == pid && e.Effective() then [e.start] else []
  }

  ghost predicate InLastFour(s: seq<U64>, start: U64) {
    exists k :: 0 <= k < |s| && |s| - SLOTS <= k && s[k] == start
  }

  /** The mapping is among the last four of its pid. */
  ghost predicate Live(h: seq<Store>, key: Key) {
    InLastFour(PidStarts(h, key.pid), key.start)
  }

  ghost function Pids(h: seq<Store>): set<int> {
    set i | 0 <= i < |h| && h[i].Effective() :: h[i].pid
  }

  ghost function LiveKeys(h: seq<Store>): set<Key> {
    set i | 0 <= i < |h| && h[i].Effective() && Live(h, h[i].TableKey()) :: h[i].TableKey()
  }

  /** The ref of the latest request for the key that was carried out. */
  ghost function LastRef(h: seq<Store>, key: Key): Option<Ref> {
    if h == [] then None
    else
      var e := h[|h| - 1];
      if e.Effective() && e.TableKey() == key then Some(e.TableRef()) else LastRef(h[..|h| - 1], key)
  }

  ghost function Run(h: seq<Store>): (t: Core)
    ensures t.Valid()
  {
    if h == [] then EMPTY else Run(h[..|h| - 1]).Stored(h[|h| - 1])
  }

  /** No map update of the run was refused. */
  ghost predicate Admitted(h: seq<Store>) {
    h == [] || (Admitted(h[..|h| - 1]) && Run(h[..|h| - 1]).Admits(h[|h| - 1]))
  }

  // ----- one ring against the starts of its pid -----------------------------------------

  /** Slot `k % 4` holds start number `k`, unless that start was stored again later. */
  ghost predicate Represents(r: Ring, s: seq<U64>) {
    && |r.starts| == SLOTS
    && r.next == |s| % SLOTS
    && (forall k :: 0 <= k < |s| && |s| - SLOTS <= k ==> r.starts[k % SLOTS] == if s[k] in s[k + 1..] then 0 else s[k])
    && forall j :: |s| <= j < SLOTS ==> r.starts[j] == 0
  }

  /** The start that leaves the last four when `start` is appended, 0 for none. */
  ghost function Leaves(s: seq<U64>, start: U64): U64 {
    if |s| < SLOTS || s[|s| - SLOTS] in s[|s| - 3..] || s[|s| - SLOTS] == start then 0 else s[|s| - SLOTS]
  }

  lemma InAppended(tail: seq<U64>, start: U64, x: U64)
    ensures x in tail + [start] <==> x in tail || x == start
  {
    if x == start { assert (tail + [start])[|tail|] == x; }
  }

  lemma RepresentsSlot(r: Ring, s: seq<U64>, start: U64, k: nat)
    requires Represents(r, s) && start != 0 && k < |s| && |s| - 3 <= k
    ensures k % SLOTS != |s| % SLOTS
    ensures Cleared(r.starts, start)[k % SLOTS] == if s[k] in s[k + 1..] + [start] then 0 else s[k]
  {
    InAppended(s[k + 1..], start, s[k]);
    assert r.starts[k % SLOTS] == if s[k] in s[k + 1..] then 0 else s[k];
  }

  lemma EvictedIsLeaving(r: Ring, s: seq<U64>, start: U64)
    requires Represents(r, s)
    ensures Slot(r) == |s| % SLOTS
    ensures Evicted(r, start) == Leaves(s, start)
  {
    if |s| >= SLOTS {
      var k := |s| - SLOTS;
      assert k % SLOTS == |s| % SLOTS;
      assert s[k + 1..] == s[|s| - 3..];
    }
  }

  lemma RepresentsStep(r: Ring, s: seq<U64>, start: U64)
    requires Represents(r, s) && start != 0
    ensures Represents(Remembered(r, start), s + [start])
  {
    var n, t, q := |s|, s + [start], Remembered(r, start);
    EvictedIsLeaving(r, s, start);
    assert q.starts[n % SLOTS] == start;
    forall k | 0 <= k < |t| && |t| - SLOTS <= k
      ensures q.starts[k % SLOTS] == if t[k] in t[k + 1..] then 0 else t[k]
    {
      if k < n {
        RepresentsSlot(r, s, start, k);
        assert t[k + 1..] == s[k + 1..] + [start];
      } else {
        assert t[k + 1..] == [];
      }
    }
    forall j | |t| <= j < SLOTS ensures q.starts[j] == 0 {
      assert j != n % SLOTS && r.starts[j] == 0;
    }
  }

  lemma LastFourGrows(s: seq<U64>, start: U64, x: U64)
    requires InLastFour(s, x) && x != Leaves(s, start)
    ensures InLastFour(s + [start], x)
  {
    var n, t := |s|, s + [start];
    var k :| 0 <= k < n && n - SLOTS <= k && s[k] == x;
    if k > n - SLOTS {
      assert t[k] == x;
    } else if x == start {
      assert t[n] == x;
    } else {
      var j :| 0 <= j < 3 && s[n - 3..][j] == x;
      assert t[n - 3 + j] == x;
    }
  }

  lemma LastFourShrinks(s: seq<U64>, start: U64, x: U64)
    requires InLastFour(s + [start], x) && x != 0
    ensures x == start || (InLastFour(s, x) && x != Leaves(s, start))
  {
    var n, t := |s|, s + [start];
    var k :| 0 <= k < |t| && |t| - SLOTS <= k && t[k] == x;
    if k < n {
      assert s[k] == x;
      if n >= SLOTS { assert s[n - 3..][k - (n - 3)] == x; }
    }
  }

  lemma InLastFourStep(s: seq<U64>, start: U64, x: U64)
    requires start != 0 && x != 0
    ensures InLastFour(s + [start], x) <==> x == start || (InLastFour(s, x) && x != Leaves(s, start))
  {
    if InLastFour(s + [start], x) { LastFourShrinks(s, start, x); }
    if InLastFour(s, x) && x != Leaves(s, start) { LastFourGrows(s, start, x); }
    if x == start { assert (s + [start])[|s|] == x; }
  }

  lemma LastFourNonzero(s: seq<U64>)
    requires 0 !in s
    ensures !InLastFour(s, 0)
  {
    forall k | 0 <= k < |s| ensures s[k] != 0 { assert s[k] in s; }
  }

  /** The occupied slots are distinct and hold exactly the last four starts. */
  lemma RingIsLastFour(r: Ring, s: seq<U64>)
    requires Represents(r, s) && 0 !in s
    ensures forall x :: x != 0 ==> (x in r.starts <==> InLastFour(s, x))
    ensures forall i, j :: 0 <= i < j < SLOTS && r.starts[i] != 0 ==> r.starts[i] != r.starts[j]
  {
    var n := |s|;
    forall x | x != 0 ensures x in r.starts <==> InLastFour(s, x) {
      if x in r.starts {
        var j :| 0 <= j < SLOTS && r.starts[j] == x;
        var k := Occupant(n, j);
        assert s[k] == x;
      }
      if InLastFour(s, x) {
        var k :| 0 <= k < n && n - SLOTS <= k && s[k] == x;
        var last := LatestOf(s, k);
        assert r.starts[last % SLOTS] == x;
      }
    }
    forall i, j | 0 <= i < j < SLOTS && r.starts[i] != 0 ensures r.starts[i] != r.starts[j] {
      if r.starts[j] != 0 {
        var a := Occupant(n, i);
        var b := Occupant(n, j);
        if a < b { assert s[b] == s[a + 1..][b - a - 1]; } else { assert s[a] == s[b + 1..][a - b - 1]; }
      }
    }
  }

  /** The position whose start a used slot holds. */
  lemma Occupant(n: nat, j: nat) returns (k: nat)
    requires j < SLOTS
    ensures j < n ==> k < n && n - SLOTS <= k && k % SLOTS == j
  {
    k := 0;
    if j < n {
      var d := (n - 1 - j) % SLOTS;
      k := n - 1 - d;
    }
  }

  lemma LatestOf(s: seq<U64>, k: nat) returns (last: nat)
    requires k < |s|
    ensures k <= last < |s| && s[last] == s[k] && s[last] !in s[last + 1..]
    decreases |s| - k
  {
    if s[k] in s[k + 1..] {
      var j :| 0 <= j < |s[k + 1..]| && s[k + 1..][j] == s[k];
      last := LatestOf(s, k + 1 + j);
    } else {
      last := k;
    }
  }

  // ----- the tables against the history -------------------------------------------------

  ghost predicate Agrees(t: Core, h: seq<Store>) {
    && t.Valid()
    && t.index.Keys == Pids(h)
    && (forall pid :: pid in t.index ==> Represents(t.index[pid], PidStarts(h, pid)))
    && (forall key :: key in t.mmaps <==> Live(h, key))
    && forall key :: key in t.mmaps ==> LastRef(h, key) == Some(t.mmaps[key])
  }

  lemma PidStartsStep(h: seq<Store>, e: Store, pid: int)
    ensures PidStarts(h + [e], pid) == PidStarts(h, pid) + if e.pid == pid && e.Effective() then [e.start] else []
  {
    assert (h + [e])[..|h|] == h;
  }

  lemma LastRefStep(h: seq<Store>, e: Store, key: Key)
    ensures LastRef(h + [e], key) ==
            if e.Effective() && e.TableKey() == key then Some(e.TableRef()) else LastRef(h, key)
  {
    assert (h + [e])[..|h|] == h;
  }

  lemma PidsStep(h: seq<Store>, e: Store)
    ensures Pids(h + [e]) == Pids(h) + if e.Effective() then {e.pid} else {}
  {
    var g := h + [e];
    forall pid | pid in Pids(h) + (if e.Effective() then {e.pid} else {}) ensures pid in Pids(g) {
      if pid in Pids(h) {
        var i :| 0 <= i < |h| && h[i].Effective() && h[i].pid == pid;
        assert g[i].pid == pid;
      } else {
        assert g[|h|].pid == pid;
      }
    }
  }

  lemma {:induction false} PidsHaveStarts(h: seq<Store>, pid: int)
    ensures pid in Pids(h) <==> PidStarts(h, pid) != []
  {
    if h != [] {
      var n := |h| - 1;
      assert h == h[..n] + [h[n]];
      PidsStep(h[..n], h[n]);
      PidsHaveStarts(h[..n], pid);
    }
  }

  lemma LiveStep(h: seq<Store>, e: Store, key: Key)
    requires e.Effective()
    ensures Live(h + [e], key) <==>
      key == e.TableKey() ||
      (Live(h, key) && !(key.pid == e.pid && key.start == Leaves(PidStarts(h, e.pid), e.start)))
  {
    PidStartsStep(h, e, key.pid);
    var s := PidStarts(h, key.pid);
    LastFourNonzero(s);
    LastFourNonzero(PidStarts(h + [e], key.pid));
    if key.start != 0 && key.pid == e.pid {
      InLastFourStep(s, e.start, key.start);
    } else {
      assert s + [] == s;
    }
  }

  /** What the store evicts is the mapping that leaves the last four of its pid. */
  lemma EvictsWhatLeaves(t: Core, h: seq<Store>, e: Store)
    requires Agrees(t, h) && e.Effective()
    ensures t.Evicts(e) == Leaves(PidStarts(h, e.pid), e.start)
    ensures forall key :: key in t.AfterEviction(e) <==>
      Live(h, key) && !(key.pid == e.pid && key.start == Leaves(PidStarts(h, e.pid), e.start))
  {
    PidsHaveStarts(h, e.pid);
    if e.pid in t.index { EvictedIsLeaving(t.index[e.pid], PidStarts(h, e.pid), e.start); }
    forall key | Live(h, key) ensures key.start != 0 { LastFourNonzero(PidStarts(h, key.pid)); }
  }

  lemma FirstRing(start: U64)
    requires start != 0
    ensures Represents(Ring([start, 0, 0, 0], 1), [start])
  {
  }

  lemma RingsStep(t: Core, h: seq<Store>, e: Store, pid: int)
    requires Agrees(t, h) && t.Admits(e) && pid in t.Stored(e).index
    ensures Represents(t.Stored(e).index[pid], PidStarts(h + [e], pid))
  {
    PidStartsStep(h, e, pid);
    PidsHaveStarts(h, pid);
    var s := PidStarts(h, pid);
    if pid != e.pid || !e.Effective() {
      assert s + [] == s;
      assert t.Stored(e).index[pid] == t.index[pid];
    } else if pid in t.index {
      RepresentsStep(t.index[pid], s, e.start);
    } else {
      assert s + [e.start] == [e.start];
      FirstRing(e.start);
    }
  }

  lemma TableStep(t: Core, h: seq<Store>, e: Store, key: Key)
    requires Agrees(t, h) && t.Admits(e)
    ensures key in t.Stored(e).mmaps <==> Live(h + [e], key)
    ensures key in t.Stored(e).mmaps ==> LastRef(h + [e], key) == Some(t.Stored(e).mmaps[key])
  {
    LastRefStep(h, e, key);
    if e.Effective() {
      EvictsWhatLeaves(t, h, e);
      LiveStep(h, e, key);
    } else {
      PidStartsStep(h, e, key.pid);
      assert PidStarts(h, key.pid) + [] == PidStarts(h, key.pid);
    }
  }

  lemma AgreesStep(t: Core, h: seq<Store>, e: Store)
    requires Agrees(t, h) && t.Admits(e)
    ensures Agrees(t.Stored(e), h + [e])
  {
    var g, u := h + [e], t.Stored(e);
    PidsStep(h, e);
    assert u.index.Keys == Pids(g);
    forall pid | pid in u.index ensures Represents(u.index[pid], PidStarts(g, pid)) {
      RingsStep(t, h, e, pid);
    }
    forall key
      ensures key in u.mmaps <==> Live(g, key)
      ensures key in u.mmaps ==> LastRef(g, key) == Some(u.mmaps[key])
    {
      TableStep(t, h, e, key);
    }
  }

  lemma {:induction false} AdmittedRunAgrees(h: seq<Store>)
    requires Admitted(h)
    ensures Agrees(Run(h), h)
  {
    if h == [] {
      assert Agrees(EMPTY, []);
    } else {
      var n := |h| - 1;
      AdmittedRunAgrees(h[..n]);
      AgreesStep(Run(h[..n]), h[..n], h[n]);
      assert h == h[..n] + [h[n]];
    }
  }

  /** The main result: as long as no update was refused, ring and table are the last four
      stores of every pid, and the table holds what was stored last for each of them. */
  lemma RingAndTableHoldLastFour(h: seq<Store>, pid: int)
    requires Admitted(h)
    ensures pid in Run(h).index <==> PidStarts(h, pid) != []
    ensures pid in Run(h).index ==>
      && (forall x :: x != 0 ==> (x in Run(h).index[pid].starts <==> InLastFour(PidStarts(h, pid), x)))
      && (forall i, j :: 0 <= i < j < SLOTS && Run(h).index[pid].starts[i] != 0 ==>
           Run(h).index[pid].starts[i] != Run(h).index[pid].starts[j])
    ensures forall start :: Key(pid, start) in Run(h).mmaps <==> InLastFour(PidStarts(h, pid), start)
    ensures forall start :: Key(pid, start) in Run(h).mmaps ==>
      LastRef(h, Key(pid, start)) == Some(Run(h).mmaps[Key(pid, start)])
  {
    AdmittedRunAgrees(h);
    PidsHaveStarts(h, pid);
    if pid in Run(h).index { RingIsLastFour(Run(h).index[pid], PidStarts(h, pid)); }
    forall start ensures Key(pid, start) in Run(h).mmaps <==> InLastFour(PidStarts(h, pid), start) {
      assert Key(pid, start) in Run(h).mmaps <==> Live(h, Key(pid, start));
    }
  }
}
