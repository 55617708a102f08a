/**
 What the log scanners read off a line, in terms of its parsed fields, and what they answer on the
 smallest logs that show each of their rules.
 */
module ScanLaws {
  import opened Wrappers
  import opened LogLines
  import opened RingbufScan
  import opened RegisterScan
  import opened PacketScan

  // ----- fields of a line ---------------------------------------------------------------

  lemma RefsIff(line: Line, register: nat, size: int, ref: nat)
    ensures ref in line.Refs(register, size) <==>
      line.Text? && Mention(register, RingbufMem(ref, size)) in line.mentions
  {
    if line.Text? && Mention(register, RingbufMem(ref, size)) in line.mentions {
      assert Mention(register, RingbufMem(ref, size)).value.ref == ref;
    }
  }

  lemma ScalarsIff(line: Line, register: nat, v: int)
    ensures v in line.Scalars(register) <==> line.Text? && Mention(register, Scalar(v)) in line.mentions
  {
    if line.Text? && Mention(register, Scalar(v)) in line.mentions {
      assert Mention(register, Scalar(v)).value.number == v;
    }
  }

  /** Some mention says that the register holds a wanted number; every register does if none is given. */
  ghost predicate HoldsWanted(mentions: seq<Mention>, register: nat, wanted: Option<set<int>>) {
    wanted.None? || exists v :: v in wanted.value && Mention(register, Scalar(v)) in mentions
  }

  lemma WantedIff(line: Line, register: nat, wanted: set<int>)
    requires line.Text?
    ensures wanted * line.Scalars(register) != {} <==> HoldsWanted(line.mentions, register, Some(wanted))
  {
    if v :| v in wanted && Mention(register, Scalar(v)) in line.mentions {
      ScalarsIff(line, register, v);
      assert v in wanted * line.Scalars(register);
    }
    if wanted * line.Scalars(register) != {} {
      var v :| v in wanted * line.Scalars(register);
      ScalarsIff(line, register, v);
    }
  }

  /** A 32-bit store at the offset, through a base register that points to the record, of a source
      register that holds a wanted number. */
  ghost predicate Stores(line: Line, wanted: Option<set<int>>, offset: int, size: int, ref: nat) {
    line.Text? && exists base, source ::
      && line.store == Some(Store(32, base, offset, source))
      && Mention(base, RingbufMem(ref, size)) in line.mentions
      && HoldsWanted(line.mentions, source, wanted)
  }

  lemma StoredRefsIff(line: Line, wanted: Option<set<int>>, offset: int, size: int, ref: nat)
    ensures ref in line.StoredRefs(wanted, offset, size) <==> Stores(line, wanted, offset, size, ref)
  {
    if line.Text? && line.store.Some? {
      var s := line.store.value;
      assert s == Store(s.width, s.base, s.offset, s.source);
      RefsIff(line, s.base, size, ref);
      if wanted.Some? { WantedIff(line, s.source, wanted.value); }
    }
  }

  /** What the scan for written records collects, by the fields of the lines. */
  lemma WrittenWithIff(log: seq<Line>, v: int, offset: int, size: int, ref: nat)
    ensures WrittenWith(log, v, offset, size, ref) <==>
      exists j :: InTrace(log, j) && Stores(log[j], Some({v}), offset, size, ref)
  {
    forall j | InTrace(log, j)
      ensures ref in log[j].StoredRefs(Some({v}), offset, size) <==> Stores(log[j], Some({v}), offset, size, ref)
    {
      StoredRefsIff(log[j], Some({v}), offset, size, ref);
    }
  }

  /** What the path-sensitive scan counts as written, by the fields of the lines. */
  lemma WrittenBeforeIff(log: seq<Line>, i: int, wanted: Option<set<int>>, offset: int, size: int, ref: nat)
    requires i <= |log|
    ensures WrittenBefore(log, i, wanted, offset, size, ref) <==>
      exists j :: j < i && Active(log, j) && Stores(log[j], wanted, offset, size, ref) && NoReset(log, j, i)
  {
    forall j ensures Writes(log, j, wanted, offset, size, ref) <==>
                       Active(log, j) && Stores(log[j], wanted, offset, size, ref)
    {
      if Active(log, j) { StoredRefsIff(log[j], wanted, offset, size, ref); }
    }
  }

  /** The last mention of the register. */
  ghost predicate LastAt(mentions: seq<Mention>, register: nat, k: int, value: Value) {
    && 0 <= k < |mentions| && mentions[k] == Mention(register, value)
    && forall j :: k < j < |mentions| ==> mentions[j].register != register
  }

  lemma {:induction false} LastValueIff(mentions: seq<Mention>, register: nat, value: Value)
    ensures LastValue(mentions, register) == Some(value) <==> exists k :: LastAt(mentions, register, k, value)
  {
    if mentions != [] {
      var n := |mentions| - 1;
      var init := mentions[..n];
      LastValueIff(init, register, value);
      if mentions[n].register == register {
        if mentions[n].value == value { assert LastAt(mentions, register, n, value); }
      } else {
        if k :| LastAt(init, register, k, value) { assert LastAt(mentions, register, k, value); }
        if k :| LastAt(mentions, register, k, value) { assert LastAt(init, register, k, value); }
      }
    }
  }

  /** The last mention of the register as a packet pointer; others do not count. */
  ghost predicate LastPacketAt(mentions: seq<Mention>, register: nat, k: int, offset: int) {
    && 0 <= k < |mentions| && mentions[k] == Mention(register, Packet(offset))
    && forall j :: k < j < |mentions| ==> mentions[j].register != register || !mentions[j].value.Packet?
  }

  lemma {:induction false} LastPacketIff(mentions: seq<Mention>, register: nat, offset: int)
    ensures LastPacket(mentions, register) == Some(offset) <==> exists k :: LastPacketAt(mentions, register, k, offset)
  {
    if mentions != [] {
      var n := |mentions| - 1;
      var init := mentions[..n];
      LastPacketIff(init, register, offset);
      if mentions[n].register == register && mentions[n].value.Packet? {
        if mentions[n].value.offset == offset { assert LastPacketAt(mentions, register, n, offset); }
      } else {
        if k :| LastPacketAt(init, register, k, offset) { assert LastPacketAt(mentions, register, k, offset); }
        if k :| LastPacketAt(mentions, register, k, offset) { assert LastPacketAt(init, register, k, offset); }
      }
    }
  }

  // ----- lines --------------------------------------------------------------------------

  function Start(mentions: seq<Mention>): Line { Text(TraceStart, mentions, {}, None, None) }

  function Header(mentions: seq<Mention>): Line { Text(From, mentions, {}, None, None) }

  function StateLine(mentions: seq<Mention>): Line { Text(Plain, mentions, {}, None, None) }

  function Call(helper: string): Line { Text(Plain, [], {helper}, None, None) }

  function StoreLine(mentions: seq<Mention>, store: Store): Line { Text(Plain, mentions, {}, Some(store), None) }

  function LoadLine(mentions: seq<Mention>, load: Load): Line { Text(Plain, mentions, {}, None, Some(load)) }

  // ----- ring buffer scanners -----------------------------------------------------------

  lemma TracedFromFirst(log: seq<Line>, i: nat)
    requires 0 < i && log != [] && log[0].IsStart()
    ensures Traced(log, i)
  {
  }

  /** A store and then the call. */
  function StoreThenCall(m: seq<Mention>, s: Store, helper: string): seq<Line> {
    [Start([]), StoreLine(m, s), Call(helper)]
  }

  lemma FirstArgument(m: seq<Mention>, s: Store, helper: string, size: int, ref: nat)
    ensures RefAt(StoreThenCall(m, s, helper), 2, 1, size, ref) <==> Mention(1, RingbufMem(ref, size)) in m
  {
    var log := StoreThenCall(m, s, helper);
    RefAtStep(log, 2, 1, size, ref);
    RefAtStep(log, 1, 1, size, ref);
    RefAtStep(log, 0, 1, size, ref);
    RefsIff(log[1], 1, size, ref);
    RefsIff(log[0], 1, size, ref);
  }

  lemma StoredAtFirst(
    m: seq<Mention>, s: Store, helper: string, wanted: Option<set<int>>, offset: int, size: int, ref: nat)
    ensures WrittenBefore(StoreThenCall(m, s, helper), 2, wanted, offset, size, ref) <==>
      Stores(StoreLine(m, s), wanted, offset, size, ref)
  {
    var log := StoreThenCall(m, s, helper);
    TracedFromFirst(log, 1);
    WrittenBeforeStep(log, 1, wanted, offset, size, ref);
    WrittenBeforeStep(log, 0, wanted, offset, size, ref);
    StoredRefsIff(log[1], wanted, offset, size, ref);
  }

  lemma OnlyCall(m: seq<Mention>, s: Store, helper: string, i: int)
    ensures HelperLine(StoreThenCall(m, s, helper), i, helper) <==> i == 2
  {
    TracedFromFirst(StoreThenCall(m, s, helper), 2);
  }

  /** The path-sensitive scan accepts it iff one record is the first argument and was stored to. */
  lemma StoreThenCallIff(m: seq<Mention>, s: Store, helper: string, wanted: Option<set<int>>, offset: int, size: int)
    ensures WrittenBeforeEveryCall(StoreThenCall(m, s, helper), helper, wanted, offset, size) <==>
      exists ref ::
        && Mention(1, RingbufMem(ref, size)) in m && Mention(s.base, RingbufMem(ref, size)) in m
        && s.width == 32 && s.offset == offset && HoldsWanted(m, s.source, wanted)
  {
    var log := StoreThenCall(m, s, helper);
    OnlyCall(m, s, helper, 2);
    forall i | i != 2 ensures !HelperLine(log, i, helper) { OnlyCall(m, s, helper, i); }
    forall ref
      ensures RefAt(log, 2, 1, size, ref) <==> Mention(1, RingbufMem(ref, size)) in m
      ensures WrittenBefore(log, 2, wanted, offset, size, ref) <==>
        && Mention(s.base, RingbufMem(ref, size)) in m
        && s.width == 32 && s.offset == offset && HoldsWanted(m, s.source, wanted)
    {
      FirstArgument(m, s, helper, size, ref);
      StoredAtFirst(m, s, helper, wanted, offset, size, ref);
      assert s == Store(s.width, s.base, s.offset, s.source);
    }
  }

  /** The other two: the records stored to, and the records passed. */
  lemma CollectedIff(m: seq<Mention>, s: Store, helper: string, v: int, offset: int, size: int, ref: nat)
    ensures WrittenWith(StoreThenCall(m, s, helper), v, offset, size, ref) <==>
      && Mention(s.base, RingbufMem(ref, size)) in m && Mention(s.source, Scalar(v)) in m
      && s.width == 32 && s.offset == offset
    ensures PassedTo(StoreThenCall(m, s, helper), helper, size, ref) <==> Mention(1, RingbufMem(ref, size)) in m
  {
    var log := StoreThenCall(m, s, helper);
    WrittenWithIff(log, v, offset, size, ref);
    TracedFromFirst(log, 1);
    assert InTrace(log, 1) && !InTrace(log, 0);
    assert s == Store(s.width, s.base, s.offset, s.source);
    FirstArgument(m, s, helper, size, ref);
    OnlyCall(m, s, helper, 2);
    forall i | i != 2 ensures !HelperLine(log, i, helper) { OnlyCall(m, s, helper, i); }
  }

  /** A reset between store and call makes the path-sensitive scan forget the store. */
  lemma ResetForgets(
    m: seq<Mention>, s: Store, reset: Line, helper: string, wanted: Option<set<int>>, offset: int, size: int)
    requires reset.Blank? || reset == Header([]) || reset == Start([])
    ensures !WrittenBeforeEveryCall(
              [Start([]), StoreLine(m, s), reset, Call(helper)], helper, wanted, offset, size)
  {
    var log := [Start([]), StoreLine(m, s), reset, Call(helper)];
    TracedFromFirst(log, 3);
    assert HelperLine(log, 3, helper);
    forall ref ensures !WrittenBefore(log, 3, wanted, offset, size, ref) {
      WrittenBeforeStep(log, 2, wanted, offset, size, ref);
    }
  }

  /** A record passed to the call after a reset is one that the reset line or a later one mentions. */
  lemma PassedAfterReset(m: seq<Mention>, own: seq<Mention>, reset: Line, helper: string, size: int, ref: nat)
    requires reset.Blank? || reset == Header(own) || reset == Start(own)
    ensures PassedTo([Start([]), StateLine(m), reset, Call(helper)], helper, size, ref) <==>
      reset.Text? && Mention(1, RingbufMem(ref, size)) in own
  {
    var log := [Start([]), StateLine(m), reset, Call(helper)];
    TracedFromFirst(log, 3);
    assert HelperLine(log, 3, helper);
    RefAtStep(log, 3, 1, size, ref);
    RefAtStep(log, 2, 1, size, ref);
    RefsIff(log[2], 1, size, ref);
    RefsIff(log[3], 1, size, ref);
    forall i | i != 3 ensures !HelperLine(log, i, helper) {}
  }

  // ----- every call, in the trace -------------------------------------------------------

  /** Where nothing calls the helper no scan finds anything. */
  lemma WithoutCall(
    log: seq<Line>, helper: string, wanted: Option<set<int>>, offset: int, size: int, r: nat, v: int, width: nat)
    requires forall i :: 0 <= i < |log| && log[i].Text? ==> helper !in log[i].calls
    ensures !WrittenBeforeEveryCall(log, helper, wanted, offset, size) && !EveryCallUses(log, helper, r, v)
    ensures forall i :: !LooseCall(log, i, helper, r, v) && !PacketStore(log, i, helper, width, offset, wanted)
    ensures forall ref :: !PassedTo(log, helper, size, ref)
  {
  }

  /** Nor do the scans that need a trace start before the first one. */
  lemma WithoutTrace(
    log: seq<Line>, helper: string, wanted: Option<set<int>>, offset: int, size: int, r: nat, v: int, width: nat,
    loaded: nat)
    requires forall i :: 0 <= i < |log| ==> !log[i].IsStart()
    ensures !WrittenBeforeEveryCall(log, helper, wanted, offset, size) && !EveryCallUses(log, helper, r, v)
    ensures forall i :: !MapValueLoad(log, i, loaded) && !PacketStore(log, i, helper, width, offset, wanted)
    ensures forall ref :: !PassedTo(log, helper, size, ref) && !WrittenWith(log, v, offset, size, ref)
  {
  }

  /** One call that is not justified is enough for the two scans over all calls to reject. */
  lemma EveryCallCounts(log: seq<Line>, i: int, helper: string, wanted: Option<set<int>>, offset: int, size: int)
    requires HelperLine(log, i, helper)
    requires forall ref :: RefAt(log, i, 1, size, ref) ==> !WrittenBefore(log, i, wanted, offset, size, ref)
    ensures !WrittenBeforeEveryCall(log, helper, wanted, offset, size)
  {
  }

  lemma EveryUseCounts(log: seq<Line>, i: int, helper: string, r: nat, v: int)
    requires HelperLine(log, i, helper) && !ValueAt(log, i, r, v)
    ensures !EveryCallUses(log, helper, r, v)
  {
  }

  // ----- register scanners --------------------------------------------------------------

  /** A value on the trace start is accepted by both scans iff it is the one asked for. */
  lemma StartValue(m: seq<Mention>, helper: string, r: nat, v: int)
    ensures var log := [Start(m), Call(helper)];
      && (EveryCallUses(log, helper, r, v) <==> Mention(r, Scalar(v)) in m)
      && ((exists i :: LooseCall(log, i, helper, r, v)) <==> Mention(r, Scalar(v)) in m)
  {
    var log := [Start(m), Call(helper)];
    TracedFromFirst(log, 1);
    ValueAtStep(log, 1, r, v);
    ValueAtStep(log, 0, r, v);
    LooseValueAtStep(log, 1, r, v);
    LooseValueAtStep(log, 0, r, v);
    ScalarsIff(log[0], r, v);
    ScalarsIff(log[1], r, v);
    assert HelperLine(log, 1, helper);
    OpenedStep(log, 0);
    assert LooseCall(log, 1, helper, r, v) <==> LooseValueAt(log, 1, r, v);
  }

  /** A value on a branch header counts for the loose scan only. */
  lemma HeaderValue(m: seq<Mention>, helper: string, r: nat, v: int)
    ensures var log := [Start([]), Header(m), Call(helper)];
      && !EveryCallUses(log, helper, r, v)
      && ((exists i :: LooseCall(log, i, helper, r, v)) <==> Mention(r, Scalar(v)) in m)
  {
    var log := [Start([]), Header(m), Call(helper)];
    TracedFromFirst(log, 2);
    ValueAtStep(log, 2, r, v);
    ValueAtStep(log, 1, r, v);
    LooseValueAtStep(log, 2, r, v);
    LooseValueAtStep(log, 1, r, v);
    ScalarsIff(log[1], r, v);
    ScalarsIff(log[2], r, v);
    assert HelperLine(log, 2, helper);
    OpenedStep(log, 0);
    OpenedStep(log, 1);
    assert LooseCall(log, 2, helper, r, v) <==> LooseValueAt(log, 2, r, v);
  }

  /** A later state that is no number takes the value away for the strict scan only. */
  lemma LaterState(m: seq<Mention>, helper: string, r: nat, v: int)
    ensures var log := [Start(m), StateLine([Mention(r, OtherValue)]), Call(helper)];
      && !EveryCallUses(log, helper, r, v)
      && ((exists i :: LooseCall(log, i, helper, r, v)) <==> Mention(r, Scalar(v)) in m)
  {
    var log := [Start(m), StateLine([Mention(r, OtherValue)]), Call(helper)];
    TracedFromFirst(log, 2);
    assert log[1].mentions[0] in log[1].mentions;
    ValueAtStep(log, 2, r, v);
    ValueAtStep(log, 1, r, v);
    LooseValueAtStep(log, 2, r, v);
    LooseValueAtStep(log, 1, r, v);
    LooseValueAtStep(log, 0, r, v);
    ScalarsIff(log[0], r, v);
    ScalarsIff(log[1], r, v);
    ScalarsIff(log[2], r, v);
    assert log[1].Scalars(r) == {};
    assert HelperLine(log, 2, helper);
    OpenedStep(log, 0);
    OpenedStep(log, 1);
    assert LooseCall(log, 2, helper, r, v) <==> LooseValueAt(log, 2, r, v);
  }

  /** A load is found iff it is at the offset and the last state of its base register before the line
      is a map value; what the line itself says does not count. */
  lemma LoadIff(m: seq<Mention>, own: seq<Mention>, load: Load, offset: nat)
    ensures (exists i :: MapValueLoad([Start(m), LoadLine(own, load)], i, offset)) <==>
      load.offset == offset && exists k :: LastAt(m, load.base, k, MapValue)
  {
    var log := [Start(m), LoadLine(own, load)];
    TracedFromFirst(log, 1);
    StateBeforeStep(log, 0, load.base, MapValue);
    LastValueIff(m, load.base, MapValue);
    assert MapValueLoad(log, 1, offset) <==> load.offset == offset && StateBefore(log, 1, load.base, MapValue);
  }

  /** A blank line makes the scan forget the map value; a branch header does not. */
  lemma LoadAfterBreak(m: seq<Mention>, load: Load)
    ensures forall i :: !MapValueLoad([Start(m), Blank, LoadLine([], load)], i, load.offset)
    ensures (exists i :: MapValueLoad([Start(m), Header([]), LoadLine([], load)], i, load.offset)) <==>
      exists k :: LastAt(m, load.base, k, MapValue)
  {
    var blank, header := [Start(m), Blank, LoadLine([], load)], [Start(m), Header([]), LoadLine([], load)];
    StateBeforeStep(blank, 1, load.base, MapValue);
    TracedFromFirst(header, 2);
    StateBeforeStep(header, 1, load.base, MapValue);
    StateBeforeStep(header, 0, load.base, MapValue);
    LastValueIff(m, load.base, MapValue);
    assert MapValueLoad(header, 2, load.offset) <==> StateBefore(header, 2, load.base, MapValue);
  }

  // ----- packet stores ------------------------------------------------------------------

  lemma CalledByFirst(log: seq<Line>, helper: string, i: nat)
    requires 2 <= i <= |log| && log[0].IsStart() && log[1] == Call(helper)
    ensures Called(log, i, helper)
  {
    TracedFromFirst(log, 1);
    assert InTrace(log, 1) && helper in log[1].calls;
  }

  /** A store after the call is found iff its width fits, its base register was last said, on its own
      line, to be a packet pointer that makes up the offset, and its source holds a wanted number. */
  lemma PacketStoreIff(
    m: seq<Mention>, s: Store, helper: string, width: nat, expected: int, known: int, wanted: Option<set<int>>)
    requires known + s.offset == expected
    ensures var log := [Start([]), Call(helper), StoreLine(m, s)];
      (exists i :: PacketStore(log, i, helper, width, expected, wanted)) <==>
        && s.width == width && HoldsWanted(m, s.source, wanted)
        && exists k :: LastAt(m, s.base, k, Packet(known))
  {
    var log := [Start([]), Call(helper), StoreLine(m, s)];
    TracedFromFirst(log, 1);
    TracedFromFirst(log, 2);
    CalledByFirst(log, helper, 2);
    if wanted.Some? { WantedIff(log[2], s.source, wanted.value); }
    OffsetAtStep(log, 2, helper, s.base, known);
    OffsetAtStep(log, 1, helper, s.base, known);
    LastValueIff(m, s.base, Packet(known));
    LastValueIffMentioned(m, s.base);
    assert PacketStore(log, 2, helper, width, expected, wanted) <==>
      && s.width == width && HoldsWanted(m, s.source, wanted)
      && OffsetAt(log, 2, helper, s.base, known);
  }

  /** The call invalidates what was known before it. */
  lemma CallInvalidates(
    m: seq<Mention>, s: Store, helper: string, width: nat, expected: int, wanted: Option<set<int>>)
    ensures var log := [Start(m), Call(helper), StoreLine([], s)];
      forall i :: !PacketStore(log, i, helper, width, expected, wanted)
  {
    var log := [Start(m), Call(helper), StoreLine([], s)];
    TracedFromFirst(log, 1);
    OffsetAtStep(log, 2, helper, s.base, expected - s.offset);
    OffsetAtStep(log, 1, helper, s.base, expected - s.offset);
  }

  /** A trace start after the call establishes its packet pointers, whatever else it says of the
      registers. */
  lemma StartEstablishes(m: seq<Mention>, s: Store, helper: string, expected: int, known: int)
    requires known + s.offset == expected
    ensures var log := [Start([]), Call(helper), Start(m), StoreLine([], s)];
      (exists i :: PacketStore(log, i, helper, s.width, expected, None)) <==>
        exists k :: LastPacketAt(m, s.base, k, known)
  {
    var log := [Start([]), Call(helper), Start(m), StoreLine([], s)];
    TracedFromFirst(log, 3);
    CalledByFirst(log, helper, 3);
    OffsetAtStep(log, 3, helper, s.base, known);
    OffsetAtStep(log, 2, helper, s.base, known);
    LastPacketIff(m, s.base, known);
    assert PacketStore(log, 3, helper, s.width, expected, None) <==>
      OffsetAt(log, 3, helper, s.base, known);
  }
}
