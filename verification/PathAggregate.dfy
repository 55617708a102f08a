/**
 Aggregation of file deletions by directory prefix, with an overflow counter that itself lives
 in a hash map of capacity one.  From any initial maps, the counts and the base overflow
 counter grow by exactly the number of drop verdicts; the shadow counter is never reached.
 */
module PathAggregate {
  import opened BpfMap
  import opened MapSum

  const CAPACITY: nat := 4
  const OVERFLOW_CAPACITY: nat := 1
  const DETAIL_LEN: nat := 8
  const MAX_FILENAME_LEN: nat := 32
  const EVENT_TYPE_FILE_DELETE: nat := 15
  const SLASH: Byte := 47

  datatype Key = Key(pid: U32, eventType: U32, detail: seq<Byte>)
  datatype Value = Value(count: U64, lastMarker: U64, extra: seq<Byte>)

  // ----- the directory prefix -----------------------------------------------------------

  /** The bytes copied before the first NUL, at most seven. */
  function Copied(path: seq<Byte>, i: nat): (n: nat)
    requires |path| >= DETAIL_LEN && i <= DETAIL_LEN - 1
    ensures i <= n <= DETAIL_LEN - 1
    decreases DETAIL_LEN - i
  {
    if i == DETAIL_LEN - 1 || path[i] == 0 then i else Copied(path, i + 1)
  }

  /** The last slash among the first `n` bytes, 0 if there is none. */
  function LastSlash(path: seq<Byte>, n: nat): (s: nat)
    requires n <= |path|
    ensures s == 0 || s < n
  {
    if n == 0 then 0 else if path[n - 1] == SLASH then n - 1 else LastSlash(path, n - 1)
  }

  /** The detail: the copied bytes, with a NUL in place of the last slash but not after it. */
  function DirPrefix(path: seq<Byte>): (d: seq<Byte>)
    requires |path| >= DETAIL_LEN
    ensures |d| == DETAIL_LEN
  {
    var n := Copied(path, 0);
    var cut := LastSlash(path, n);
    seq(DETAIL_LEN, i requires 0 <= i < DETAIL_LEN => if i < n && !(cut > 0 && i == cut) then path[i] else 0)
  }

  method ExtractDirPrefix(path: seq<Byte>, out: array<Byte>)
    requires |path| >= DETAIL_LEN && out.Length == DETAIL_LEN
    requires forall i :: 0 <= i < DETAIL_LEN ==> out[i] == 0
    modifies out
    ensures out[..] == DirPrefix(path)
  {
    var lastSlash := 0;
    var i := 0;
    while i < DETAIL_LEN - 1
      invariant 0 <= i <= DETAIL_LEN - 1 && Copied(path, i) == Copied(path, 0)
      invariant lastSlash == LastSlash(path, i)
      invariant forall j :: 0 <= j < DETAIL_LEN ==> out[j] == if j < i then path[j] else 0
    {
      var c := path[i];
      if c == 0 { break; }
      if c == SLASH { lastSlash := i; }
      out[i] := c;
      i := i + 1;
    }
    assert i == Copied(path, 0);
    if lastSlash > 0 { out[lastSlash] := 0; }
    assert out[..] == DirPrefix(path);
  }

  /** A slash past the first byte with no other after it before the NUL or the end of the detail. */
  ghost predicate CutSlash(path: seq<Byte>, i: int)
    requires |path| >= DETAIL_LEN
  {
    && 0 < i < 7 && path[i] == SLASH
    && forall k :: i < k < 7 && path[k] == SLASH ==> EndsBefore(path, k)
  }

  /** There is a NUL before position `k`. */
  ghost predicate EndsBefore(path: seq<Byte>, k: int)
    requires |path| >= DETAIL_LEN && k <= |path|
  {
    exists j :: 0 <= j < k && path[j] == 0
  }

  lemma {:induction false} CopiedIs(path: seq<Byte>, i: nat)
    requires |path| >= DETAIL_LEN && i <= 7
    ensures forall k :: i <= k < Copied(path, i) ==> path[k] != 0
    ensures Copied(path, i) < 7 ==> path[Copied(path, i)] == 0
    decreases 7 - i
  {
    if i < 7 && path[i] != 0 { CopiedIs(path, i + 1); }
  }

  lemma {:induction false} LastSlashIs(path: seq<Byte>, n: nat)
    requires n <= |path|
    ensures forall k :: LastSlash(path, n) < k < n ==> path[k] != SLASH
    ensures LastSlash(path, n) > 0 ==> path[LastSlash(path, n)] == SLASH
  {
    if n > 0 && path[n - 1] != SLASH { LastSlashIs(path, n - 1); }
  }

  /** Every byte of the detail: the path's, except for NUL past the path's end, in place of the last
      slash, and at the end. */
  lemma DirPrefixBytes(path: seq<Byte>, i: nat)
    requires |path| >= DETAIL_LEN && i < DETAIL_LEN
    ensures DirPrefix(path)[i] ==
      if i == 7 || EndsBefore(path, i) || CutSlash(path, i) then 0 else path[i]
  {
    var n := Copied(path, 0);
    CopiedIs(path, 0);
    LastSlashIs(path, n);
    if i < n {
      forall k | i < k < 7 && path[k] == SLASH && k >= n ensures EndsBefore(path, k) { assert path[n] == 0; }
      assert CutSlash(path, i) <==> LastSlash(path, n) > 0 && i == LastSlash(path, n);
    }
  }

  // ----- the program --------------------------------------------------------------------

  datatype Aggregates = Aggregates(values: map<Key, Value>, overflows: map<U32, U64>) {
    /** What the overflow counter itself holds. */
    function Base(): U64 { if 0 in overflows then overflows[0] else 0 }

    /** The event is counted, under its key or in the overflow counter. */
    predicate Counts(key: Key) { HasRoom(values, key, CAPACITY) || 0 in overflows }

    function Updated(key: Key, marker: Byte, guarded: Byte): Aggregates {
      if key in values then
        Aggregates(values[key := Value(Wrap64(values[key].count + 1), marker, key.detail)], overflows)
      else if |values| < CAPACITY then Aggregates(values[key := Value(1, marker, key.detail)], overflows)
      else if 0 !in overflows then this
      else
        var shadowed := if guarded % 2 == 1 && guarded in overflows then Bumped(overflows, guarded) else overflows;
        Aggregates(values, Bumped(shadowed, 0))
    }
  }

  function Bumped(overflows: map<U32, U64>, key: U32): map<U32, U64>
    requires key in overflows
  {
    overflows[key := Wrap64(overflows[key] as int + 1)]
  }

  /** A packet long enough to hold the three selectors and the path, with a selected event. */
  predicate Selected(packet: seq<Byte>) {
    |packet| >= 3 + MAX_FILENAME_LEN && packet[1] != 0
  }

  function KeyOf(packet: seq<Byte>): Key
    requires Selected(packet)
  {
    Key(packet[0], EVENT_TYPE_FILE_DELETE, DirPrefix(packet[3..3 + MAX_FILENAME_LEN]))
  }

  /** The verdict is a drop unless the key map is full and the overflow counter is missing. */
  predicate Drops(a: Aggregates, tracing: bool, packet: seq<Byte>) {
    tracing && Selected(packet) && a.Counts(KeyOf(packet))
  }

  function Handled(a: Aggregates, tracing: bool, packet: seq<Byte>): Aggregates {
    if tracing && Selected(packet) then a.Updated(KeyOf(packet), packet[0], packet[2]) else a
  }

  class PathProgram {
    var values: map<Key, Value>
    var overflows: map<U32, U64>
    var tracing: bool

    ghost function View(): Aggregates
      reads this
    {
      Aggregates(values, overflows)
    }

    method Xdp(packet: seq<Byte>) returns (verdict: Verdict)
      modifies this`values, this`overflows
      ensures View() == Handled(old(View()), tracing, packet)
      ensures verdict == if Drops(old(View()), tracing, packet) then Drop else Pass
    {
      if !tracing || |packet| < 3 + MAX_FILENAME_LEN { return Pass; }
      var pid, selector, guarded := packet[0], packet[1], packet[2];
      if selector == 0 { return Pass; }
      var filepath := packet[3..3 + MAX_FILENAME_LEN];
      var detail := new Byte[DETAIL_LEN](_ => 0);
      ExtractDirPrefix(filepath, detail);
      var key := Key(pid, EVENT_TYPE_FILE_DELETE, detail[..]);
      if key in values {
        values := values[key := Value(Wrap64(values[key].count + 1), pid, key.detail)];
        return Drop;
      }
      if |values| < CAPACITY {
        values := values[key := Value(1, pid, key.detail)];
        return Drop;
      }
      if 0 !in overflows { return Pass; }
      if guarded % 2 == 1 {
        if guarded in overflows { overflows := Bumped(overflows, guarded); }
      }
      overflows := Bumped(overflows, 0);
      return Drop;
    }
  }

  /** What a counted event leaves behind: the entry of its pid and directory prefix, with one more
      event, the pid as marker and the prefix; no other entry is touched, and not the overflow map. */
  lemma EntryOfPacket(a: Aggregates, packet: seq<Byte>)
    requires |packet| >= 35 && packet[1] != 0
    ensures var key := Key(packet[0], 15, DirPrefix(packet[3..35]));
      var before := if key in a.values then a.values[key].count else 0;
      HasRoom(a.values, key, 4) && before + 1 < TWO_TO_64 ==>
        Handled(a, true, packet) ==
          Aggregates(a.values[key := Value(before + 1, packet[0], DirPrefix(packet[3..35]))], a.overflows)
  {
  }

  /** With four other entries an event goes into the overflow counter, if that exists, and is dropped;
      otherwise it passes and leaves no trace. */
  lemma FullMap(a: Aggregates, packet: seq<Byte>)
    requires |packet| >= 35 && packet[1] != 0
    requires |a.values| >= 4 && Key(packet[0], 15, DirPrefix(packet[3..35])) !in a.values
    ensures Drops(a, true, packet) <==> 0 in a.overflows
    ensures Handled(a, true, packet).values == a.values
    ensures 0 !in a.overflows ==> Handled(a, true, packet) == a
  {
  }

  /** Anything else passes without a trace. */
  lemma IgnoredPacket(a: Aggregates, tracing: bool, packet: seq<Byte>)
    requires !tracing || |packet| < 35 || packet[1] == 0
    ensures Handled(a, tracing, packet) == a && !Drops(a, tracing, packet)
  {
  }

  // ----- whole runs ---------------------------------------------------------------------

  ghost function Run(start: Aggregates, tracing: bool, packets: seq<seq<Byte>>): Aggregates {
    if packets == [] then start
    else Handled(Run(start, tracing, packets[..|packets| - 1]), tracing, packets[|packets| - 1])
  }

  ghost function DropCount(start: Aggregates, tracing: bool, packets: seq<seq<Byte>>): nat {
    if packets == [] then 0
    else
      var n := |packets| - 1;
      DropCount(start, tracing, packets[..n]) +
      if Drops(Run(start, tracing, packets[..n]), tracing, packets[n]) then 1 else 0
  }

  ghost function CountsOf(values: map<Key, Value>): map<Key, int> {
    map k | k in values :: values[k].count
  }

  ghost function Counted(a: Aggregates): int {
    Sum(CountsOf(a.values)) + a.Base()
  }

  /** In a map of capacity one, no other key stands beside the overflow counter. */
  lemma NoShadowBesideBase(overflows: map<U32, U64>, shadow: U32)
    requires |overflows| <= OVERFLOW_CAPACITY && 0 in overflows && shadow % 2 == 1
    ensures shadow !in overflows
  {
    SmallerMap(overflows, 0);
    var rest := overflows - {0};
    InhabitedMap(rest);
    assert rest == map[];
    assert forall key :: key in overflows ==> key == 0 || key in rest;
  }

  lemma CountedUnderKey(a: Aggregates, key: Key, marker: Byte, guarded: Byte)
    requires HasRoom(a.values, key, CAPACITY) && Counted(a) + 1 < TWO_TO_64
    ensures Counted(a.Updated(key, marker, guarded)) == Counted(a) + 1
  {
    var counts, b := CountsOf(a.values), a.Updated(key, marker, guarded);
    var before := if key in a.values then a.values[key].count else 0;
    SumNonNegative(counts);
    if key in a.values { MemberAtMostSum(counts, key); }
    assert b.values[key].count == before + 1;
    assert CountsOf(b.values) == counts[key := before + 1];
    SumUpdate(counts, key, before + 1);
  }

  lemma CountedAsOverflow(a: Aggregates, key: Key, marker: Byte, guarded: Byte)
    requires |a.overflows| <= OVERFLOW_CAPACITY && Counted(a) + 1 < TWO_TO_64
    requires !HasRoom(a.values, key, CAPACITY) && 0 in a.overflows
    ensures a.Updated(key, marker, guarded) == Aggregates(a.values, Bumped(a.overflows, 0))
    ensures Counted(a.Updated(key, marker, guarded)) == Counted(a) + 1
  {
    if guarded % 2 == 1 { NoShadowBesideBase(a.overflows, guarded); }
    SumNonNegative(CountsOf(a.values));
  }

  lemma UpdatedConserves(a: Aggregates, key: Key, marker: Byte, guarded: Byte)
    requires |a.overflows| <= OVERFLOW_CAPACITY && Counted(a) + 1 < TWO_TO_64
    ensures var b := a.Updated(key, marker, guarded);
      && b.overflows.Keys == a.overflows.Keys
      && Counted(b) == Counted(a) + if a.Counts(key) then 1 else 0
  {
    if HasRoom(a.values, key, CAPACITY) {
      CountedUnderKey(a, key, marker, guarded);
    } else if 0 in a.overflows {
      CountedAsOverflow(a, key, marker, guarded);
    }
  }

  lemma SameKeysSameSize(m: map<U32, U64>, n: map<U32, U64>)
    requires m.Keys == n.Keys
    ensures |m| == |n|
  {
    assert |m| == |m.Keys| && |n| == |n.Keys|;
  }

  /** Conservation from any maps the capacities allow: every drop verdict is counted once, and
      nothing else is; the overflow map keeps its keys. */
  lemma {:induction false} EveryDropIsCounted(start: Aggregates, tracing: bool, packets: seq<seq<Byte>>)
    requires |start.overflows| <= OVERFLOW_CAPACITY
    requires Counted(start) + |packets| < TWO_TO_64
    ensures var end := Run(start, tracing, packets);
      && Counted(end) == Counted(start) + DropCount(start, tracing, packets)
      && end.overflows.Keys == start.overflows.Keys && |end.overflows| <= OVERFLOW_CAPACITY
    ensures DropCount(start, tracing, packets) <= |packets|
  {
    if packets != [] {
      var n := |packets| - 1;
      EveryDropIsCounted(start, tracing, packets[..n]);
      var a, packet := Run(start, tracing, packets[..n]), packets[n];
      if tracing && Selected(packet) { UpdatedConserves(a, KeyOf(packet), packet[0], packet[2]); }
      SameKeysSameSize(Run(start, tracing, packets).overflows, start.overflows);
    }
  }
}
