/**
 The walk over IPv4 options that looks for a trace id.  Every byte it reads lies inside the
 packet (each index below is checked against the packet's length); its outcome is
 characterized without the loop, by the positions of at most three options; and on the packets
 the oracle builds it recovers exactly the encoded value.
 */
module IpOptions {
  import opened BpfMap
  import opened Bytes

  const TRACE_OPT: Byte := 0x9e
  const OPT_END: Byte := 0
  const OPT_NOOP: Byte := 1
  const MAX_OPTIONS: nat := 3
  const FIRST_OPTION: nat := 34
  const DROP_ID: nat := 0x1234

  /** A value is found, none is there, or the packet is cut off or the length unsupported. */
  datatype Outcome = Found(id: nat) | Absent | Malformed

  // ----- the reference: a recursive walk (section 3.1 of RFC 791) -----------------------

  /** The identifier of a trace option at `opt`, in network order. */
  function IdAt(packet: seq<Byte>, opt: nat): Outcome
    requires opt + 2 <= |packet|
  {
    var size := packet[opt + 1] as int - 2;
    if size !in {2, 4, 8} then Malformed
    else if opt + 2 + size > |packet| then Malformed
    else Found(BigEndian(packet[opt + 2..opt + 2 + size]))
  }

  /** The walk from `opt` to the end of the header, over at most `left` options. */
  function Walk(packet: seq<Byte>, opt: nat, end: nat, left: nat): Outcome
    decreases left
  {
    if left == 0 || opt >= end then Absent
    else if opt >= |packet| then Malformed
    else if packet[opt] == OPT_END then Absent
    else if packet[opt] == OPT_NOOP then Walk(packet, opt + 1, end, left - 1)
    else if opt + 2 > |packet| then Malformed
    else if packet[opt] == TRACE_OPT then IdAt(packet, opt)
    else Walk(packet, opt + packet[opt + 1] as int, end, left - 1)
  }

  function HeaderEnd(packet: seq<Byte>): nat
    requires |packet| >= FIRST_OPTION
  {
    14 + packet[14] % 16 * 4
  }

  function TraceId(packet: seq<Byte>): Outcome
    requires |packet| >= FIRST_OPTION
  {
    if packet[14] % 16 <= 5 then Absent else Walk(packet, FIRST_OPTION, HeaderEnd(packet), MAX_OPTIONS)
  }

  predicate UdpOverIpv4(packet: seq<Byte>) {
    |packet| >= FIRST_OPTION && BigEndian(packet[12..14]) == 0x0800 && packet[23] == 17
  }

  predicate Drops(packet: seq<Byte>) {
    UdpOverIpv4(packet) && TraceId(packet) == Found(DROP_ID)
  }

  // ----- the program --------------------------------------------------------------------

  /** A load of `size` bytes and the swap to host order. */
  method LoadTraceId(packet: seq<Byte>, opt: nat, optlen: Byte) returns (r: Outcome)
    requires opt + 2 <= |packet| && optlen == packet[opt + 1]
    ensures r == IdAt(packet, opt)
  {
    if optlen == 4 {
      if opt + 2 + 2 > |packet| { return Malformed; }
      var raw := packet[opt + 2..opt + 4];
      NetworkLoad(raw);
      return Found(ByteSwap(LittleEndian(raw), 2, 0));
    }
    if optlen == 6 {
      if opt + 2 + 4 > |packet| { return Malformed; }
      var raw := packet[opt + 2..opt + 6];
      NetworkLoad(raw);
      return Found(ByteSwap(LittleEndian(raw), 4, 0));
    }
    if optlen == 10 {
      if opt + 2 + 8 > |packet| { return Malformed; }
      var raw := packet[opt + 2..opt + 10];
      NetworkLoad(raw);
      return Found(ByteSwap(LittleEndian(raw), 8, 0));
    }
    return Malformed;
  }

  method TraceIdFromIp4(packet: seq<Byte>) returns (r: Outcome)
    requires |packet| >= FIRST_OPTION
    ensures r == TraceId(packet)
  {
    var opt: nat := FIRST_OPTION;
    var end := 14 + packet[14] % 16 * 4;
    if packet[14] % 16 <= 5 { return Absent; }
    var i := 0;
    while i < MAX_OPTIONS && opt < end
      invariant 0 <= i <= MAX_OPTIONS
      invariant Walk(packet, opt, end, MAX_OPTIONS - i) == TraceId(packet)
      decreases MAX_OPTIONS - i
    {
      if opt + 1 > |packet| { return Malformed; }
      var optType := packet[opt];
      if optType == OPT_END { return Absent; }
      if optType == OPT_NOOP {
        opt, i := opt + 1, i + 1;
        continue;
      }
      if opt + 2 > |packet| { return Malformed; }
      var optlen := packet[opt + 1];
      if optType != TRACE_OPT {
        opt, i := opt + optlen as int, i + 1;
        continue;
      }
      r := LoadTraceId(packet, opt, optlen);
      return r;
    }
    return Absent;
  }

  /** A malformed option passes; without an option the id stays zero. */
  method Xdp(packet: seq<Byte>) returns (verdict: Verdict)
    ensures verdict == if Drops(packet) then Drop else Pass
  {
    if |packet| < 14 { return Pass; }
    NetworkLoad(packet[12..14]);
    if ByteSwap(LittleEndian(packet[12..14]), 2, 0) != 0x0800 { return Pass; }
    if |packet| < FIRST_OPTION { return Pass; }
    if packet[23] != 17 { return Pass; }
    var traced := TraceIdFromIp4(packet);
    if traced.Malformed? { return Pass; }
    var id := if traced.Found? then traced.id else 0;
    return if id == DROP_ID then Drop else Pass;
  }

  // ----- what a drop means, without the walk --------------------------------------------

  /** An option the walk steps over, inside the header and the packet. */
  predicate Skippable(packet: seq<Byte>, opt: nat, end: nat) {
    && opt < end && opt < |packet| && packet[opt] != OPT_END
    && (packet[opt] == OPT_NOOP || (opt + 2 <= |packet| && packet[opt] != TRACE_OPT))
  }

  function Next(packet: seq<Byte>, opt: nat): nat
    requires opt < |packet| && (packet[opt] == OPT_NOOP || opt + 2 <= |packet|)
  {
    if packet[opt] == OPT_NOOP then opt + 1 else opt + packet[opt + 1] as int
  }

  /** A complete trace option with the wanted id, itself starting inside the header. */
  predicate CarriesId(packet: seq<Byte>, opt: nat, end: nat, id: nat) {
    && opt < end && opt + 2 <= |packet| && packet[opt] == TRACE_OPT
    && packet[opt + 1] in {4, 6, 10} && opt + packet[opt + 1] as int <= |packet|
    && BigEndian(packet[opt + 2..opt + packet[opt + 1] as int]) == id
  }

  /** The positions `at` lead over skippable options to a trace option with the id. */
  ghost predicate LeadsTo(packet: seq<Byte>, at: seq<nat>, end: nat, id: nat) {
    && at != []
    && (forall i :: 0 <= i < |at| - 1 ==> Skippable(packet, at[i], end) && at[i + 1] == Next(packet, at[i]))
    && CarriesId(packet, at[|at| - 1], end, id)
  }

  lemma LeadsFurther(packet: seq<Byte>, opt: nat, at: seq<nat>, end: nat, id: nat)
    requires LeadsTo(packet, at, end, id) && Skippable(packet, opt, end) && at[0] == Next(packet, opt)
    ensures LeadsTo(packet, [opt] + at, end, id)
  {
    var b := [opt] + at;
    forall i | 0 <= i < |b| - 1 ensures Skippable(packet, b[i], end) && b[i + 1] == Next(packet, b[i]) {
      if i > 0 { assert b[i] == at[i - 1] && b[i + 1] == at[i - 1 + 1]; }
    }
  }

  lemma LeadsOn(packet: seq<Byte>, at: seq<nat>, end: nat, id: nat)
    requires LeadsTo(packet, at, end, id) && |at| > 1
    ensures LeadsTo(packet, at[1..], end, id)
  {
    var b := at[1..];
    forall i | 0 <= i < |b| - 1 ensures Skippable(packet, b[i], end) && b[i + 1] == Next(packet, b[i]) {
      assert b[i] == at[i + 1] && b[i + 1] == at[i + 1 + 1];
    }
  }

  lemma {:induction false} WalkLeads(packet: seq<Byte>, opt: nat, end: nat, left: nat, id: nat) returns (at: seq<nat>)
    requires Walk(packet, opt, end, left) == Found(id)
    ensures LeadsTo(packet, at, end, id) && at[0] == opt && |at| <= left
    decreases left
  {
    if packet[opt] == TRACE_OPT {
      at := [opt];
    } else {
      var rest := WalkLeads(packet, Next(packet, opt), end, left - 1, id);
      LeadsFurther(packet, opt, rest, end, id);
      at := [opt] + rest;
    }
  }

  lemma CarriesFound(packet: seq<Byte>, opt: nat, end: nat, left: nat, id: nat)
    requires CarriesId(packet, opt, end, id) && left > 0
    ensures Walk(packet, opt, end, left) == Found(id)
  {
  }

  lemma {:induction false} LeadsFound(packet: seq<Byte>, at: seq<nat>, end: nat, left: nat, id: nat)
    requires LeadsTo(packet, at, end, id) && |at| <= left
    ensures Walk(packet, at[0], end, left) == Found(id)
    decreases left
  {
    if |at| == 1 {
      CarriesFound(packet, at[0], end, left, id);
    } else {
      LeadsOn(packet, at, end, id);
      LeadsFound(packet, at[1..], end, left - 1, id);
      assert Skippable(packet, at[0], end) && at[0 + 1] == Next(packet, at[0]);
    }
  }

  lemma WalkFindsIff(packet: seq<Byte>, opt: nat, end: nat, left: nat, id: nat)
    ensures Walk(packet, opt, end, left) == Found(id) <==>
      exists at :: LeadsTo(packet, at, end, id) && at[0] == opt && |at| <= left
  {
    if Walk(packet, opt, end, left) == Found(id) { var at := WalkLeads(packet, opt, end, left, id); }
    if at :| LeadsTo(packet, at, end, id) && at[0] == opt && |at| <= left { LeadsFound(packet, at, end, left, id); }
  }

  /** A packet is dropped iff it is UDP over IPv4, has options, and one of the first three is a
      complete trace option with the id, with every option before it one that can be stepped over. */
  lemma DropsIff(packet: seq<Byte>)
    ensures Drops(packet) <==>
      && |packet| >= 34 && packet[12] == 8 && packet[13] == 0 && packet[23] == 17 && packet[14] % 16 > 5
      && exists at ::
           LeadsTo(packet, at, 14 + 4 * (packet[14] % 16), 0x1234) && at[0] == 34 && |at| <= 3
  {
    if |packet| >= FIRST_OPTION {
      TwoBytes(packet[12..14]);
      WalkFindsIff(packet, FIRST_OPTION, HeaderEnd(packet), MAX_OPTIONS, DROP_ID);
    }
  }

  /** What the walk steps over, by the bytes: a no-operation option or one with a length byte, but no
      end of options and no trace option. */
  lemma SkippableIff(packet: seq<Byte>, opt: nat, end: nat)
    ensures Skippable(packet, opt, end) <==>
      && opt < end && opt < |packet| && packet[opt] != 0
      && (packet[opt] == 1 || (opt + 1 < |packet| && packet[opt] != 0x9e))
    ensures Skippable(packet, opt, end) ==>
      Next(packet, opt) == if packet[opt] == 1 then opt + 1 else opt + packet[opt + 1] as int
  {
  }

  // ----- the oracle's packets -----------------------------------------------------------

  function Ipv4Packet(ihlWords: nat, protocol: Byte, payload: seq<Byte>): seq<Byte>
    requires ihlWords < 16
  {
    var total := ihlWords * 4 + |payload|;
    ETHERNET_IPV4
      + [64 + ihlWords, 0, total / 256 % 256, total % 256, 0, 0, 0, 0, 64, protocol, 0, 0, 10, 0, 0, 1, 10, 0, 0, 2]
      + payload
  }

  /** An option of 16, 32 or 64 bits. */
  function TraceOption(value: nat, size: nat): seq<Byte>
    requires size in {2, 4, 8} && value < Pow256(size)
  {
    [TRACE_OPT, 2 + size] + ToBytes(value, size)
  }

  function NoopThenTrace(value: nat): seq<Byte>
    requires value < Pow256(2)
  {
    [OPT_NOOP] + TraceOption(value, 2) + [0, 0, 0]
  }

  lemma PacketLayout(ihlWords: nat, protocol: Byte, payload: seq<Byte>)
    requires ihlWords < 16
    ensures var p := Ipv4Packet(ihlWords, protocol, payload);
      && |p| == FIRST_OPTION + |payload| && p[FIRST_OPTION..] == payload
      && p[14] == 64 + ihlWords && p[23] == protocol && BigEndian(p[12..14]) == 0x0800
  {
    var p := Ipv4Packet(ihlWords, protocol, payload);
    assert p[12..14] == [8, 0];
    TwoBytes([8, 0]);
  }

  lemma IdOfTraceOption(packet: seq<Byte>, opt: nat, value: nat, size: nat)
    requires size in {2, 4, 8} && value < Pow256(size)
    requires opt + 2 + size <= |packet| && packet[opt..opt + 2 + size] == TraceOption(value, size)
    ensures packet[opt] == TRACE_OPT && IdAt(packet, opt) == Found(value)
  {
    var option := packet[opt..opt + 2 + size];
    assert packet[opt] == option[0] && packet[opt + 1] == option[1];
    assert packet[opt + 2..opt + 2 + size] == option[2..] == ToBytes(value, size);
  }

  lemma ShortOptionBytes(value: nat)
    requires value < 0x1_0000
    ensures Pow256(2) == 0x1_0000 && TraceOption(value, 2) == [0x9e, 4, value / 256, value % 256]
    ensures NoopThenTrace(value) == [1, 0x9e, 4, value / 256, value % 256, 0, 0, 0]
  {
    assert Pow256(2) == 256 * Pow256(1) == 256 * (256 * Pow256(0));
    var b := ToBytes(value, 2);
    TwoBytes(b);
  }

  /** Whatever follows it, a trace option that comes first is read back as the value it encodes:
      a UDP packet is dropped iff that value is the wanted one, any other packet passes. */
  lemma BuiltOptionRoundTrip(ihlWords: nat, protocol: Byte, value: nat, size: nat, rest: seq<Byte>)
    requires 5 < ihlWords < 16 && size in {2, 4, 8} && value < Pow256(size)
    ensures var p := Ipv4Packet(ihlWords, protocol, TraceOption(value, size) + rest);
      TraceId(p) == Found(value) && (Drops(p) <==> protocol == 17 && value == DROP_ID)
  {
    var payload := TraceOption(value, size) + rest;
    var p := Ipv4Packet(ihlWords, protocol, payload);
    PacketLayout(ihlWords, protocol, payload);
    assert p[FIRST_OPTION..FIRST_OPTION + 2 + size] == payload[..2 + size] == TraceOption(value, size);
    IdOfTraceOption(p, FIRST_OPTION, value, size);
  }

  /** The same after a no-operation option. */
  lemma BuiltNoopRoundTrip(ihlWords: nat, protocol: Byte, value: nat, rest: seq<Byte>)
    requires 5 < ihlWords < 16 && value < Pow256(2)
    ensures var p := Ipv4Packet(ihlWords, protocol, NoopThenTrace(value) + rest);
      TraceId(p) == Found(value) && (Drops(p) <==> protocol == 17 && value == DROP_ID)
  {
    var payload := NoopThenTrace(value) + rest;
    var p := Ipv4Packet(ihlWords, protocol, payload);
    PacketLayout(ihlWords, protocol, payload);
    assert p[FIRST_OPTION] == payload[0] == OPT_NOOP;
    var opt := FIRST_OPTION + 1;
    assert p[opt..opt + 4] == payload[1..5] == TraceOption(value, 2);
    IdOfTraceOption(p, opt, value, 2);
    assert Walk(p, opt, HeaderEnd(p), 2) == Found(value);
  }

  /** Without options a packet passes. */
  lemma BuiltWithoutOptionsPasses(protocol: Byte, payload: seq<Byte>)
    ensures !Drops(Ipv4Packet(5, protocol, payload))
  {
    PacketLayout(5, protocol, payload);
  }
}
