/**
 Lines of a verifier log as the shared oracle helpers see them, after parsing: the register
 states a line mentions, the helper calls it contains, and the store or load it performs.
 */
module LogLines {
  import opened Wrappers

  datatype Value = RingbufMem(ref: nat, size: int) | Scalar(number: int) | MapValue | Packet(offset: int) | OtherValue

  datatype Mention = Mention(register: nat, value: Value)

  /** *(u<width> *)(r<base> + offset) = r<source> */
  datatype Store = Store(width: nat, base: nat, offset: int, source: nat)

  /** ... = *(u32 *)(r<base> + offset) */
  datatype Load = Load(base: nat, offset: nat)

  datatype Kind = TraceStart | From | Plain

  datatype Line =
    | Blank
    | Text(kind: Kind, mentions: seq<Mention>, calls: set<string>, store: Option<Store>, load: Option<Load>)
  {
    predicate IsStart() { Text? && kind.TraceStart? }

    predicate IsFrom() { Text? && kind.From? }

    /** Lines at which the path-sensitive scanners forget what was written. */
    predicate Resets() { Blank? || IsStart() || IsFrom() }

    predicate Mentions(register: nat) {
      Text? && exists m :: m in mentions && m.register == register
    }

    /** The ring buffer records of the expected size that the line says the register points to. */
    function Refs(register: nat, size: int): set<nat> {
      if Blank? then {}
      else set m | m in mentions && m.register == register && m.value.RingbufMem? && m.value.size == size :: m.value.ref
    }

    function Scalars(register: nat): set<int> {
      if Blank? then {} else set m | m in mentions && m.register == register && m.value.Scalar? :: m.value.number
    }

    /** The refs a store line writes a wanted value to: the values are tested only when given. */
    function StoredRefs(wanted: Option<set<int>>, offset: int, size: int): set<nat> {
      if Blank? || store.None? || store.value.width != 32 || store.value.offset != offset then {}
      else if wanted.Some? && wanted.value * Scalars(store.value.source) == {} then {}
      else Refs(store.value.base, size)
    }
  }

  /** The last mention of a register on a line wins. */
  function LastValue(mentions: seq<Mention>, register: nat): Option<Value> {
    if mentions == [] then None
    else if mentions[|mentions| - 1].register == register then Some(mentions[|mentions| - 1].value)
    else LastValue(mentions[..|mentions| - 1], register)
  }

  function LastPacket(mentions: seq<Mention>, register: nat): Option<int> {
    if mentions == [] then None
    else
      var m := mentions[|mentions| - 1];
      if m.register == register && m.value.Packet? then Some(m.value.offset)
      else LastPacket(mentions[..|mentions| - 1], register)
  }

  lemma {:induction false} LastValueIffMentioned(mentions: seq<Mention>, register: nat)
    ensures LastValue(mentions, register).Some? <==> exists m :: m in mentions && m.register == register
  {
    if mentions != [] {
      var last := mentions[|mentions| - 1];
      LastValueIffMentioned(mentions[..|mentions| - 1], register);
      assert forall m :: m in mentions <==> m == last || m in mentions[..|mentions| - 1];
    }
  }

  /** A trace has begun before line `i`. */
  ghost predicate Traced(log: seq<Line>, i: int) {
    exists s :: 0 <= s < i && s < |log| && log[s].IsStart()
  }

  lemma TracedStep(log: seq<Line>, i: nat)
    requires i < |log|
    ensures Traced(log, i + 1) <==> Traced(log, i) || log[i].IsStart()
  {
    if Traced(log, i) {
      var s :| 0 <= s < i && s < |log| && log[s].IsStart();
      assert log[s].IsStart() && s < i + 1;
    }
  }

  /** A line inside the trace that is neither blank nor a start. */
  ghost predicate InTrace(log: seq<Line>, i: int) {
    0 <= i < |log| && log[i].Text? && !log[i].IsStart() && Traced(log, i)
  }

  /** An instruction line inside the trace. */
  ghost predicate Active(log: seq<Line>, i: int) {
    InTrace(log, i) && log[i].kind.Plain?
  }

  ghost predicate HelperLine(log: seq<Line>, i: int, helper: string) {
    Active(log, i) && helper in log[i].calls
  }
}
