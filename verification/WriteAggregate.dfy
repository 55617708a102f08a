/**
 Aggregation of finished writes: each packet consumes the context saved for its thread and is
 counted under a key made of pid and descriptor, or in the overflow counter when the map of
 keys is full.  Nothing consumed is lost: counts plus overflow are the contexts consumed.
 */
module WriteAggregate {
  import opened BpfMap
  import opened MapSum

  const CAPACITY: nat := 32
  const EVENT_TYPE_WRITE: nat := 15
  const DETAIL_LEN: nat := 8

  datatype Key = Key(pid: U32, eventType: U32, detail: seq<Byte>)
  datatype Value = Value(count: U64, totalBytes: U64, lastFd: int)

  type S32 = x: int | -0x8000_0000 <= x < 0x8000_0000

  /** The last decimal digit the detail shows.  Negating the least value wraps to itself, and the
      remainder keeps the sign of its dividend. */
  function LastDigit(fd: S32): int {
    if fd == -0x8000_0000 then -8 else if fd < 0 then -fd % 10 else fd % 10
  }

  /** "fd=" followed by the sign and the last digit, zero padded. */
  function FdDetail(fd: S32): (d: seq<Byte>)
    ensures |d| == DETAIL_LEN
  {
    if fd < 0 then [102, 100, 61, 45, 48 + LastDigit(fd), 0, 0, 0]
    else [102, 100, 61, 48 + LastDigit(fd), 0, 0, 0, 0]
  }

  method FormatFdDetail(detail: array<Byte>, fd: S32)
    requires detail.Length == DETAIL_LEN
    modifies detail
    ensures detail[..] == FdDetail(fd)
  {
    for i := 0 to DETAIL_LEN
      invariant forall j :: 0 <= j < i ==> detail[j] == 0
    {
      detail[i] := 0;
    }
    detail[0], detail[1], detail[2] := 102, 100, 61;
    if fd < 0 {
      detail[3] := 45;
      detail[4] := 48 + LastDigit(fd);
    } else {
      detail[3] := 48 + LastDigit(fd);
    }
    assert detail[..] == FdDetail(fd);
  }

  /** "fd=", a minus sign for a negative descriptor, and the last decimal digit of its absolute value;
      for the least value the byte eight below '0', since the remainder keeps its sign. */
  lemma DetailShows(fd: S32, tens: nat, digit: nat)
    requires digit < 10
    ensures fd == 10 * tens + digit ==> FdDetail(fd) == [102, 100, 61, 48 + digit, 0, 0, 0, 0]
    ensures fd < 0 && fd != -0x8000_0000 && -fd == 10 * tens + digit ==>
      FdDetail(fd) == [102, 100, 61, 45, 48 + digit, 0, 0, 0]
    ensures FdDetail(-0x8000_0000) == [102, 100, 61, 45, 40, 0, 0, 0]
  {
  }

  /** The two descriptors are the same, or of the same sign and a multiple of ten apart, the least
      one excepted. */
  predicate SharesDetail(a: S32, b: S32) {
    || a == b
    || (a != -0x8000_0000 && b != -0x8000_0000 && (a < 0 <==> b < 0) && (a - b) % 10 == 0)
  }

  lemma SameDigit(x: nat, y: nat)
    ensures x % 10 == y % 10 <==> (x - y) % 10 == 0
  {
    var q, d := x / 10 - y / 10, x % 10 - y % 10;
    assert x - y == 10 * q + d;
  }

  lemma LastDigitsEqual(a: S32, b: S32)
    requires a != -0x8000_0000 && b != -0x8000_0000 && (a < 0 <==> b < 0)
    ensures LastDigit(a) == LastDigit(b) <==> (a - b) % 10 == 0
  {
    if a < 0 { SameDigit(-b, -a); } else { SameDigit(a, b); }
  }

  /** Exactly those descriptors are counted under one key. */
  lemma SharedDetailIff(a: S32, b: S32)
    ensures FdDetail(a) == FdDetail(b) <==> SharesDetail(a, b)
  {
    if a != -0x8000_0000 && b != -0x8000_0000 && (a < 0 <==> b < 0) { LastDigitsEqual(a, b); }
    assert FdDetail(a) == FdDetail(b) ==> FdDetail(a)[3] == FdDetail(b)[3] && FdDetail(a)[4] == FdDetail(b)[4];
  }

  datatype Aggregates = Aggregates(values: map<Key, Value>, overflow: U64) {
    /** The key is counted, in place or as a fresh entry. */
    predicate Counts(key: Key) { HasRoom(values, key, CAPACITY) }

    function Updated(key: Key, bytes: U64, fd: S32): Aggregates {
      if key in values then
        var v := values[key];
        Aggregates(values[key := Value(Wrap64(v.count + 1), Wrap64(v.totalBytes + bytes), fd)], overflow)
      else if |values| < CAPACITY then Aggregates(values[key := Value(1, bytes, fd)], overflow)
      else Aggregates(values, Wrap64(overflow + 1))
    }
  }

  function ContextId(packet: seq<Byte>): U64
    requires |packet| >= 5
  {
    packet[0] as int * TWO_TO_32 + packet[1]
  }

  /** The packet finishes a write whose context was saved. */
  predicate Consumes(contexts: map<U64, S32>, packet: seq<Byte>) {
    |packet| >= 5 && packet[2] != 0 && ContextId(packet) in contexts
  }

  function KeyOf(contexts: map<U64, S32>, packet: seq<Byte>): Key
    requires Consumes(contexts, packet)
  {
    Key(packet[0], EVENT_TYPE_WRITE, FdDetail(contexts[ContextId(packet)]))
  }

  function Handled(a: Aggregates, contexts: map<U64, S32>, packet: seq<Byte>): Aggregates {
    if Consumes(contexts, packet)
    then a.Updated(KeyOf(contexts, packet), packet[2], contexts[ContextId(packet)]) else a
  }

  predicate Drops(a: Aggregates, contexts: map<U64, S32>, packet: seq<Byte>) {
    Consumes(contexts, packet) && a.Counts(KeyOf(contexts, packet))
  }

  class WriteProgram {
    var contexts: map<U64, S32>
    var values: map<Key, Value>
    var overflow: U64

    ghost function View(): Aggregates
      reads this
    {
      Aggregates(values, overflow)
    }

    method UpdateAggMap(key: Key, bytes: U64, fd: S32) returns (counted: bool)
      modifies this`values, this`overflow
      ensures View() == old(View()).Updated(key, bytes, fd)
      ensures counted == old(View()).Counts(key)
    {
      if key in values {
        var v := values[key];
        values := values[key := Value(Wrap64(v.count + 1), Wrap64(v.totalBytes + bytes), fd)];
        return true;
      }
      if !HasRoom(values, key, CAPACITY) {
        overflow := Wrap64(overflow + 1);
        return false;
      }
      values := values[key := Value(1, bytes, fd)];
      return true;
    }

    method Xdp(packet: seq<Byte>) returns (verdict: Verdict)
      modifies this
      ensures View() == Handled(old(View()), old(contexts), packet)
      ensures contexts == if Consumes(old(contexts), packet) then old(contexts) - {ContextId(packet)} else old(contexts)
      ensures verdict == if Drops(old(View()), old(contexts), packet) then Drop else Pass
    {
      if |packet| < 5 { return Pass; }
      var pid, tid, ret := packet[0], packet[1], packet[2];
      var id: U64 := pid as int * TWO_TO_32 + tid;
      if ret == 0 { return Pass; }
      if id !in contexts { return Pass; }
      var fd := contexts[id];
      contexts := contexts - {id};
      var detail := new Byte[DETAIL_LEN](_ => 0);
      FormatFdDetail(detail, fd);
      var counted := UpdateAggMap(Key(pid, EVENT_TYPE_WRITE, detail[..]), ret, fd);
      return if counted then Drop else Pass;
    }
  }

  /** Which packets consume a context, by their bytes. */
  lemma ConsumesIff(contexts: map<U64, S32>, packet: seq<Byte>)
    ensures Consumes(contexts, packet) <==>
      |packet| >= 5 && packet[2] != 0 && packet[0] as int * 0x1_0000_0000 + packet[1] as int in contexts
  {
  }

  /** Where a consumed write is counted: under its pid and the detail of its descriptor, as long as that
      entry is there or there are fewer than thirty-two; otherwise in the overflow counter. */
  lemma CountedWhere(a: Aggregates, contexts: map<U64, S32>, packet: seq<Byte>)
    requires Consumes(contexts, packet)
    ensures var fd := contexts[packet[0] as int * 0x1_0000_0000 + packet[1] as int];
      var key := Key(packet[0], 15, FdDetail(fd));
      if key in a.values || |a.values| < 32 then
        && Drops(a, contexts, packet) && Handled(a, contexts, packet).overflow == a.overflow
        && Handled(a, contexts, packet).values.Keys == a.values.Keys + {key}
        && Handled(a, contexts, packet).values[key].lastFd == fd
      else !Drops(a, contexts, packet) && Handled(a, contexts, packet) == Aggregates(a.values, Wrap64(a.overflow + 1))
  {
  }

  // ----- whole runs ---------------------------------------------------------------------

  /** A packet with the contexts other programs have left when it arrives. */
  datatype Input = Input(contexts: map<U64, S32>, packet: seq<Byte>)

  ghost function Run(inputs: seq<Input>): Aggregates {
    if inputs == [] then Aggregates(map[], 0)
    else
      var last := inputs[|inputs| - 1];
      Handled(Run(inputs[..|inputs| - 1]), last.contexts, last.packet)
  }

  ghost function Consumed(inputs: seq<Input>): nat {
    if inputs == [] then 0
    else
      var last := inputs[|inputs| - 1];
      Consumed(inputs[..|inputs| - 1]) + if Consumes(last.contexts, last.packet) then 1 else 0
  }

  /** The bytes of the packets whose verdict is a drop. */
  ghost function DroppedBytes(inputs: seq<Input>): nat {
    if inputs == [] then 0
    else
      var n := |inputs| - 1;
      DroppedBytes(inputs[..n]) +
      if Drops(Run(inputs[..n]), inputs[n].contexts, inputs[n].packet) then inputs[n].packet[2] else 0
  }

  ghost function CountsOf(values: map<Key, Value>): map<Key, int> {
    map k | k in values :: values[k].count
  }

  ghost function BytesOf(values: map<Key, Value>): map<Key, int> {
    map k | k in values :: values[k].totalBytes
  }

  /** The value of the entry that an event is counted in, before the event. */
  ghost function Before(values: map<Key, Value>, key: Key): Value {
    if key in values then values[key] else Value(0, 0, 0)
  }

  lemma EntryAfter(a: Aggregates, key: Key, bytes: U64, fd: S32)
    requires a.Counts(key) && Sum(CountsOf(a.values)) + 1 < TWO_TO_64 && Sum(BytesOf(a.values)) + bytes < TWO_TO_64
    ensures var v := Before(a.values, key);
      && v.count + 1 < TWO_TO_64 && v.totalBytes + bytes < TWO_TO_64
      && a.Updated(key, bytes, fd) ==
           Aggregates(a.values[key := Value(v.count + 1, v.totalBytes + bytes, fd)], a.overflow)
  {
    if key in a.values {
      MemberAtMostSum(CountsOf(a.values), key);
      MemberAtMostSum(BytesOf(a.values), key);
    }
  }

  lemma SumsAfter(values: map<Key, Value>, key: Key, v: Value)
    ensures var w := values[key := v];
      && Sum(CountsOf(w)) == Sum(CountsOf(values)) + v.count - Before(values, key).count
      && Sum(BytesOf(w)) == Sum(BytesOf(values)) + v.totalBytes - Before(values, key).totalBytes
  {
    assert CountsOf(values[key := v]) == CountsOf(values)[key := v.count];
    assert BytesOf(values[key := v]) == BytesOf(values)[key := v.totalBytes];
    SumUpdate(CountsOf(values), key, v.count);
    SumUpdate(BytesOf(values), key, v.totalBytes);
  }

  lemma UpdateSums(a: Aggregates, key: Key, bytes: U64, fd: S32)
    requires Sum(CountsOf(a.values)) + a.overflow + 1 < TWO_TO_64
    requires a.Counts(key) ==> Sum(BytesOf(a.values)) + bytes < TWO_TO_64
    ensures var b := a.Updated(key, bytes, fd);
      && Sum(CountsOf(b.values)) + b.overflow == Sum(CountsOf(a.values)) + a.overflow + 1
      && Sum(BytesOf(b.values)) == Sum(BytesOf(a.values)) + if a.Counts(key) then bytes else 0
  {
    if a.Counts(key) {
      EntryAfter(a, key, bytes, fd);
      var v := Before(a.values, key);
      SumsAfter(a.values, key, Value(v.count + 1, v.totalBytes + bytes, fd));
    } else {
      SumNonNegative(CountsOf(a.values));
    }
  }

  /** Conservation: as long as the totals fit into the counters, counts plus overflow are exactly
      the contexts consumed, and the summed bytes exactly those of the dropped packets. */
  lemma {:induction false} NothingIsLost(inputs: seq<Input>)
    requires Consumed(inputs) < TWO_TO_64 && DroppedBytes(inputs) < TWO_TO_64
    ensures Sum(CountsOf(Run(inputs).values)) + Run(inputs).overflow == Consumed(inputs)
    ensures Sum(BytesOf(Run(inputs).values)) == DroppedBytes(inputs)
  {
    if inputs != [] {
      var n := |inputs| - 1;
      var last, a := inputs[n], Run(inputs[..n]);
      NothingIsLost(inputs[..n]);
      if Consumes(last.contexts, last.packet) {
        UpdateSums(a, KeyOf(last.contexts, last.packet), last.packet[2], last.contexts[ContextId(last.packet)]);
      }
    } else {
      assert CountsOf(map[]) == map[] && BytesOf(map[]) == map[];
    }
  }

  // ----- descriptors that share a key ---------------------------------------------------

  /** A write of `bytes` bytes by a thread of the pid, with the descriptor in its saved context. */
  function Write(pid: Byte, tid: Byte, bytes: Byte, fd: S32): Input {
    Input(map[pid as int * TWO_TO_32 + tid := fd], [pid, tid, bytes, 0, 0])
  }

  lemma FirstWrite(pid: Byte, tid: Byte, bytes: Byte, fd: S32)
    requires bytes != 0
    ensures Run([Write(pid, tid, bytes, fd)])
         == Aggregates(map[Key(pid, EVENT_TYPE_WRITE, FdDetail(fd)) := Value(1, bytes, fd)], 0)
  {
    assert [Write(pid, tid, bytes, fd)][..0] == [];
  }

  lemma SecondWrite(first: Input, second: Input)
    requires Consumes(second.contexts, second.packet)
    ensures Run([first, second]) ==
      Run([first]).Updated(KeyOf(second.contexts, second.packet), second.packet[2],
                           second.contexts[ContextId(second.packet)])
  {
    assert [first, second][..1] == [first];
  }

  lemma SecondUpdate(key: Key, v: Value, key2: Key, n: Byte, fd: S32)
    requires v.count == 1 && v.totalBytes < 256
    ensures var end := Aggregates(map[key := v], 0).Updated(key2, n, fd);
      && (|end.values| == 1 <==> key == key2)
      && (key == key2 ==> end.values == map[key := Value(2, v.totalBytes + n as int, fd)])
  {
  }

  /** Two writes of a process to any two descriptors end in one entry, in which the first descriptor
      no longer appears, iff the descriptors share their detail: 3 and 13 do, 3 and 4 do not. */
  lemma TwoWritesOneEntryIff(pid: Byte, tid: Byte, m: Byte, a: S32, tid2: Byte, n: Byte, b: S32)
    requires m != 0 && n != 0
    ensures var end := Run([Write(pid, tid, m, a), Write(pid, tid2, n, b)]);
      && (|end.values| == 1 <==> SharesDetail(a, b))
      && (SharesDetail(a, b) ==>
           end.values == map[Key(pid, EVENT_TYPE_WRITE, FdDetail(b)) := Value(2, m as int + n as int, b)])
    ensures SharesDetail(3, 13) && !SharesDetail(3, 4)
  {
    var first, second := Write(pid, tid, m, a), Write(pid, tid2, n, b);
    var key, key2 := Key(pid, EVENT_TYPE_WRITE, FdDetail(a)), Key(pid, EVENT_TYPE_WRITE, FdDetail(b));
    FirstWrite(pid, tid, m, a);
    SecondWrite(first, second);
    SharedDetailIff(a, b);
    SecondUpdate(key, Value(1, m, a), key2, n, b);
  }
}
