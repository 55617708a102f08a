/**
 The scanner for stores to packet memory after a helper call has invalidated all packet
 pointers: a store counts only through a pointer that was established anew since then.
 */
module PacketScan {
  import opened Wrappers
  import opened LogLines
  import opened RegisterScan

  /** Lines at which every packet pointer is forgotten. */
  ghost predicate Forgets(log: seq<Line>, i: int, helper: string)
    requires 0 <= i < |log|
  {
    Restarts(log[i]) || (InTrace(log, i) && helper in log[i].calls)
  }

  /** The offset a line establishes for a register: a trace start takes its packet pointers,
      another line the last state it mentions; a call line establishes nothing. */
  ghost predicate Establishes(log: seq<Line>, j: int, helper: string, register: nat, offset: int)
    requires 0 <= j < |log|
  {
    && log[j].Text?
    && (if log[j].IsStart() then LastPacket(log[j].mentions, register) == Some(offset)
        else helper !in log[j].calls && LastValue(log[j].mentions, register) == Some(Packet(offset)))
  }

  /** The offset at line `i`, its own mentions included: established at or before `i`, and since
      then neither forgotten nor overwritten. */
  ghost predicate OffsetAt(log: seq<Line>, i: int, helper: string, register: nat, offset: int) {
    exists j :: 0 <= j <= i < |log| && Establishes(log, j, helper, register, offset) &&
      forall k :: j < k <= i ==> !Forgets(log, k, helper) && !log[k].Mentions(register)
  }

  lemma OffsetAtStep(log: seq<Line>, i: nat, helper: string, register: nat, offset: int)
    requires i < |log|
    ensures OffsetAt(log, i, helper, register, offset) <==>
      if Forgets(log, i, helper) || log[i].Mentions(register) then Establishes(log, i, helper, register, offset)
      else OffsetAt(log, i - 1, helper, register, offset)
  {
    if log[i].Text? {
      LastValueIffMentioned(log[i].mentions, register);
    }
    if OffsetAt(log, i, helper, register, offset) {
      var j :| 0 <= j <= i && Establishes(log, j, helper, register, offset) &&
        forall k :: j < k <= i ==> !Forgets(log, k, helper) && !log[k].Mentions(register);
      if j < i { assert OffsetAt(log, i - 1, helper, register, offset); }
    }
    if !Forgets(log, i, helper) && !log[i].Mentions(register) && OffsetAt(log, i - 1, helper, register, offset) {
      var j :| 0 <= j <= i - 1 && Establishes(log, j, helper, register, offset) &&
        forall k :: j < k <= i - 1 ==> !Forgets(log, k, helper) && !log[k].Mentions(register);
      assert forall k :: j < k <= i ==> !Forgets(log, k, helper) && !log[k].Mentions(register);
    }
  }

  /** A call of the helper precedes line `i` in the trace. */
  ghost predicate Called(log: seq<Line>, i: int, helper: string) {
    exists h :: 0 <= h < i && InTrace(log, h) && helper in log[h].calls
  }

  lemma CalledStep(log: seq<Line>, i: nat, helper: string)
    requires i < |log|
    ensures Called(log, i + 1, helper) <==> Called(log, i, helper) || (InTrace(log, i) && helper in log[i].calls)
  {
    if Called(log, i, helper) {
      var h :| 0 <= h < i && InTrace(log, h) && helper in log[h].calls;
      assert h < i + 1;
    }
  }

  /** A wanted store on line `i`, through a packet pointer whose offset makes up the expected one. */
  ghost predicate PacketStore(
    log: seq<Line>, i: int, helper: string, width: nat, expected: int, wanted: Option<set<int>>)
  {
    && InTrace(log, i) && helper !in log[i].calls && Called(log, i, helper)
    && log[i].store.Some? && log[i].store.value.width == width
    && (wanted.Some? ==> wanted.value * log[i].Scalars(log[i].store.value.source) != {})
    && OffsetAt(log, i, helper, log[i].store.value.base, expected - log[i].store.value.offset)
  }

  function Known(offsets: map<nat, int>, register: nat): Option<int> {
    if register in offsets then Some(offsets[register]) else None
  }

  method PacketOffsets(mentions: seq<Mention>) returns (offsets: map<nat, int>)
    ensures forall r :: Known(offsets, r) == LastPacket(mentions, r)
  {
    offsets := map[];
    for i := 0 to |mentions|
      invariant forall r :: Known(offsets, r) == LastPacket(mentions[..i], r)
    {
      assert mentions[..i + 1][..i] == mentions[..i];
      if mentions[i].value.Packet? { offsets := offsets[mentions[i].register := mentions[i].value.offset]; }
    }
    assert mentions[..|mentions|] == mentions;
  }

  function Offset(value: Value): Option<int> {
    if value.Packet? then Some(value.offset) else None
  }

  function Updated(mentions: seq<Mention>, before: map<nat, int>, register: nat): Option<int> {
    var v := LastValue(mentions, register);
    if v.Some? then Offset(v.value) else Known(before, register)
  }

  /** The effect of a line's mentions on the known packet offsets. */
  method UpdatePacketOffsets(mentions: seq<Mention>, before: map<nat, int>) returns (offsets: map<nat, int>)
    ensures forall r :: Known(offsets, r) == Updated(mentions, before, r)
  {
    offsets := before;
    for i := 0 to |mentions|
      invariant forall r :: Known(offsets, r) == Updated(mentions[..i], before, r)
    {
      assert mentions[..i + 1][..i] == mentions[..i];
      var m := mentions[i];
      ghost var known := offsets;
      offsets := if m.value.Packet? then offsets[m.register := m.value.offset] else offsets - {m.register};
      forall r ensures Known(offsets, r) == Updated(mentions[..i + 1], before, r) {
        assert Known(known, r) == Updated(mentions[..i], before, r);
        assert Known(offsets, r) == if m.register == r then Offset(m.value) else Known(known, r);
        assert mentions[..i + 1][i] == m;
      }
    }
    assert mentions[..|mentions|] == mentions;
  }

  /** What the scan knows after the first `n` lines. */
  ghost predicate Knows(
    log: seq<Line>, n: nat, helper: string, inTrace: bool, sawHelper: bool, offsets: map<nat, int>)
  {
    && inTrace == Traced(log, n)
    && sawHelper == Called(log, n, helper)
    && (sawHelper ==> inTrace)
    && (sawHelper ==> forall r, o :: Known(offsets, r) == Some(o) <==> OffsetAt(log, n - 1, helper, r, o))
  }

  method PacketStoreAfterHelperCall(
    log: seq<Line>, helper: string, width: nat, expected: int, wanted: Option<set<int>>) returns (found: bool)
    ensures found <==> exists i :: PacketStore(log, i, helper, width, expected, wanted)
  {
    var inTrace, sawHelper := false, false;
    var offsets: map<nat, int> := map[];
    for n := 0 to |log|
      invariant Knows(log, n, helper, inTrace, sawHelper, offsets)
      invariant forall i :: i < n ==> !PacketStore(log, i, helper, width, expected, wanted)
    {
      var line := log[n];
      TracedStep(log, n);
      CalledStep(log, n, helper);
      forall r, o
        ensures OffsetAt(log, n, helper, r, o) <==>
          if Forgets(log, n, helper) || line.Mentions(r) then Establishes(log, n, helper, r, o)
          else OffsetAt(log, n - 1, helper, r, o)
      {
        OffsetAtStep(log, n, helper, r, o);
      }
      if line.Blank? {
        offsets := map[];
        continue;
      }
      if line.IsStart() {
        inTrace := true;
        offsets := PacketOffsets(line.mentions);
        continue;
      }
      if !inTrace { continue; }
      if helper in line.calls {
        sawHelper := true;
        offsets := map[];
        continue;
      }
      if !sawHelper { continue; }
      forall r ensures LastValue(line.mentions, r).Some? <==> line.Mentions(r) {
        LastValueIffMentioned(line.mentions, r);
      }
      offsets := UpdatePacketOffsets(line.mentions, offsets);
      assert Knows(log, n + 1, helper, inTrace, sawHelper, offsets);
      if line.store.None? || line.store.value.width != width { continue; }
      var store := line.store.value;
      assert OffsetAt(log, n, helper, store.base, expected - store.offset) <==>
             Known(offsets, store.base) == Some(expected - store.offset);
      if store.base !in offsets || offsets[store.base] + store.offset != expected { continue; }
      if wanted.None? || wanted.value * line.Scalars(store.source) != {} {
        assert PacketStore(log, n, helper, width, expected, wanted);
        return true;
      }
    }
    return false;
  }
}
