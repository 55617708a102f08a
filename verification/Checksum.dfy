/**
 The UDP pseudo-header sum.  The program hands the pseudo-header, as laid out in memory, to a
 helper that adds its words in machine order; the oracle adds the header fields in network
 order, folds after every word and swaps the result.  Both agree for every header, because the
 one's-complement sum does not depend on the byte order (section 2 of RFC 1071).
 */
module Checksum {
  import opened BpfMap
  import opened Bytes

  const IPPROTO_UDP: nat := 17
  const ETH_P_IP: nat := 0x0800

  // ----- one's-complement arithmetic ----------------------------------------------------

  function Swap16(w: U16): U16 { w % 256 * 256 + w / 256 }

  function FoldOnce(t: nat): nat { t % 0x1_0000 + t / 0x1_0000 }

  /** Carries are added back until none is left. */
  function Fold(t: nat): (r: U16) {
    if t < 0x1_0000 then t else Fold(FoldOnce(t))
  }

  function Total(words: seq<U16>): nat {
    if words == [] then 0 else Total(words[..|words| - 1]) + words[|words| - 1]
  }

  /** Addition with end-around carry. */
  function AddCarry(a: U16, b: U16): U16 {
    FoldedIsShort(a as int + b as int);
    FoldOnce(a as int + b as int)
  }

  /** The sum folded after every word. */
  function FoldEach(words: seq<U16>): (r: U16)
  {
    if words == [] then 0 else AddCarry(FoldEach(words[..|words| - 1]), words[|words| - 1])
  }

  lemma FoldedIsShort(sum: nat)
    requires sum <= 0xFFFF + 0xFFFF
    ensures FoldOnce(sum) < 0x1_0000
  {
  }

  /** The representative of a residue modulo 0xFFFF in which only zero itself is zero. */
  function Residue(t: nat): U16 {
    if t == 0 then 0 else 1 + (t - 1) % 0xFFFF
  }

  lemma FoldOnceKeepsResidue(t: nat)
    ensures Residue(FoldOnce(t)) == Residue(t)
  {
    var q := t / 0x1_0000;
    assert FoldOnce(t) == t - 0xFFFF * q;
    if t > 0 { ResidueShift(FoldOnce(t), q); }
  }

  lemma {:induction false} ResidueShift(t: nat, q: nat)
    requires t > 0
    ensures Residue(t + 0xFFFF * q) == Residue(t)
  {
    if q > 0 { ResidueShift(t, q - 1); }
  }

  lemma {:induction false} FoldIsResidue(t: nat)
    ensures Fold(t) == Residue(t)
  {
    if t >= 0x1_0000 {
      FoldOnceKeepsResidue(t);
      FoldIsResidue(FoldOnce(t));
    }
  }

  lemma ResidueSum(t: nat, w: nat)
    ensures Residue(Residue(t) + w) == Residue(t + w)
  {
    if t > 0 {
      var q := (t - 1) / 0xFFFF;
      assert t == Residue(t) + 0xFFFF * q;
      ResidueShift(Residue(t) + w, q);
    }
  }

  lemma ShortResidue(t: nat)
    requires t <= 0xFFFF
    ensures Residue(t) == t
  {
  }

  /** A swap is a multiplication by 256. */
  lemma SwapIsResidue(x: U16)
    ensures Swap16(x) == Residue(256 * x as int)
  {
    var h, l := x / 256, x % 256;
    ShortResidue(256 * l + h);
    assert 256 * x as int == (256 * l + h) + 0xFFFF * h;
    if 256 * l + h > 0 { ResidueShift(256 * l + h, h); }
  }

  lemma ResidueScale(t: nat)
    ensures Residue(256 * Residue(t) as int) == Residue(256 * t)
  {
    if t > 0 {
      var q, r := (t - 1) / 0xFFFF, Residue(t) as int;
      assert 256 * t == 256 * r + 0xFFFF * (256 * q);
      ResidueShift(256 * r, 256 * q);
    }
  }

  lemma FoldOnceOfShort(t: nat)
    requires t <= 0xFFFF + 0xFFFF
    ensures FoldOnce(t) == Residue(t)
  {
    FoldOnceKeepsResidue(t);
    ShortResidue(FoldOnce(t));
  }

  lemma CarryOfResidue(t: nat, w: U16)
    ensures AddCarry(Residue(t), w) == Residue(t + w as int)
  {
    FoldOnceOfShort(Residue(t) as int + w as int);
    ResidueSum(t, w);
  }

  /** Folding after every word gives what folding the whole sum gives. */
  lemma {:induction false} FoldEachIsFold(words: seq<U16>)
    ensures FoldEach(words) == Fold(Total(words)) == Residue(Total(words))
  {
    FoldIsResidue(Total(words));
    if words != [] {
      var init, w := words[..|words| - 1], words[|words| - 1];
      FoldEachIsFold(init);
      CarryOfResidue(Total(init), w);
    }
  }

  /** Swapping commutes with end-around-carry addition. */
  lemma SwapOfSum(a: U16, b: U16)
    ensures FoldOnce(a as int + b as int) < 0x1_0000
    ensures Swap16(FoldOnce(a as int + b as int)) == FoldOnce(Swap16(a) as int + Swap16(b) as int)
  {
    var x, y := 256 * a as int, 256 * b as int;
    FoldOnceOfShort(a as int + b as int);
    SwapIsResidue(FoldOnce(a as int + b as int));
    ResidueScale(a as int + b as int);
    SwapIsResidue(a);
    SwapIsResidue(b);
    FoldOnceOfShort(Residue(x) as int + Residue(y) as int);
    ResidueSum(y, Residue(x));
    ResidueSum(x, y);
  }

  function Swapped(words: seq<U16>): seq<U16> {
    seq(|words|, i requires 0 <= i < |words| => Swap16(words[i]))
  }

  ghost function FoldWith(words: seq<U16>, add: (U16, U16) -> U16): U16 {
    if words == [] then 0 else add(FoldWith(words[..|words| - 1], add), words[|words| - 1])
  }

  ghost function Mapped(words: seq<U16>, f: U16 -> U16): seq<U16> {
    if words == [] then [] else Mapped(words[..|words| - 1], f) + [f(words[|words| - 1])]
  }

  /** A function that commutes with an addition commutes with sums. */
  lemma {:induction false} FoldMaps(words: seq<U16>, add: (U16, U16) -> U16, f: U16 -> U16)
    requires f(0) == 0 && forall a, b :: f(add(a, b)) == add(f(a), f(b))
    ensures FoldWith(Mapped(words, f), add) == f(FoldWith(words, add))
  {
    if words != [] {
      var n := |words| - 1;
      FoldMaps(words[..n], add, f);
      var m := Mapped(words, f);
      assert m[..|m| - 1] == Mapped(words[..n], f);
    }
  }

  lemma {:induction false} FoldEachIsFoldWith(words: seq<U16>)
    ensures FoldEach(words) == FoldWith(words, AddCarry)
  {
    if words != [] { FoldEachIsFoldWith(words[..|words| - 1]); }
  }

  lemma {:induction false} SwappedIsMapped(words: seq<U16>)
    ensures Swapped(words) == Mapped(words, Swap16)
  {
    if words != [] {
      SwappedIsMapped(words[..|words| - 1]);
      assert Swapped(words) == Swapped(words[..|words| - 1]) + [Swap16(words[|words| - 1])];
    }
  }

  /** Byte order independence: the sum of the swapped words is the swapped sum. */
  lemma SumOfSwapped(words: seq<U16>)
    ensures FoldEach(Swapped(words)) == Swap16(FoldEach(words))
  {
    forall a: U16, b: U16 ensures Swap16(AddCarry(a, b)) == AddCarry(Swap16(a), Swap16(b)) { SwapOfSum(a, b); }
    FoldMaps(words, AddCarry, Swap16);
    SwappedIsMapped(words);
    FoldEachIsFoldWith(words);
    FoldEachIsFoldWith(Swapped(words));
  }

  lemma {:induction false} TotalAtLeast(words: seq<U16>, i: nat)
    requires i < |words|
    ensures words[i] <= Total(words)
  {
    if i < |words| - 1 { TotalAtLeast(words[..|words| - 1], i); }
  }

  // ----- the pseudo-header --------------------------------------------------------------

  /** The header fields as 16-bit words in network order. */
  function PseudoWords(src: U32, dst: U32, payloadLen: U16): seq<U16> {
    [src / 0x1_0000, src % 0x1_0000, dst / 0x1_0000, dst % 0x1_0000, IPPROTO_UDP, payloadLen]
  }

  lemma FoldEachStep(words: seq<U16>, i: nat)
    requires i < |words|
    ensures FoldEach(words[..i + 1]) as int == FoldOnce(FoldEach(words[..i]) as int + words[i] as int)
  {
    assert words[..i + 1][..i] == words[..i];
  }

  lemma ShortTotal(t: nat)
    requires t < 0x1_0000
    ensures t % 0x1_0000 == t && t % 256 * 256 + t / 256 == Swap16(t)
  {
  }

  /** The oracle's sum. */
  method PseudoSum(src: U32, dst: U32, payloadLen: U16) returns (sum: nat)
    ensures sum == Swap16(FoldEach(PseudoWords(src, dst, payloadLen)))
  {
    var words := PseudoWords(src, dst, payloadLen);
    var total: nat := 0;
    for i := 0 to |words|
      invariant total == FoldEach(words[..i])
    {
      FoldEachStep(words, i);
      total := total + words[i];
      total := total % 0x1_0000 + total / 0x1_0000;
    }
    assert words[..|words|] == words;
    ShortTotal(total);
    total := total % 0x1_0000;
    sum := total % 256 * 256 + total / 256;
  }

  function LeWords(b: seq<Byte>): seq<U16> {
    seq(|b| / 2, i requires 0 <= i < |b| / 2 => b[2 * i] as int + 256 * b[2 * i + 1] as int)
  }

  function BeWords(b: seq<Byte>): seq<U16> {
    seq(|b| / 2, i requires 0 <= i < |b| / 2 => 256 * b[2 * i] as int + b[2 * i + 1] as int)
  }

  /** The kernel's checksum helper, of which only this is used: the folded sum of the words. */
  function CsumDiff(buffer: seq<Byte>): U16 {
    Fold(Total(LeWords(buffer)))
  }

  lemma SwapOfWord(h: Byte, l: Byte)
    ensures Swap16(256 * h as int + l as int) == h as int + 256 * l as int
  {
  }

  lemma WordsSwapped(b: seq<Byte>)
    ensures LeWords(b) == Swapped(BeWords(b))
  {
    forall i | 0 <= i < |b| / 2 ensures LeWords(b)[i] == Swap16(BeWords(b)[i]) {
      SwapOfWord(b[2 * i], b[2 * i + 1]);
    }
  }

  /** For any buffer: summing in machine order is swapping the sum in network order. */
  lemma ByteOrderIndependence(buffer: seq<Byte>)
    ensures CsumDiff(buffer) == Swap16(FoldEach(BeWords(buffer)))
  {
    WordsSwapped(buffer);
    SumOfSwapped(BeWords(buffer));
    FoldEachIsFold(LeWords(buffer));
  }

  /** Bitwise or. */
  function Or(a: nat, b: nat): nat
    decreases a + b
  {
    if a == 0 && b == 0 then 0
    else 2 * Or(a / 2, b / 2) + if a % 2 == 1 || b % 2 == 1 then 1 else 0
  }

  function Pow2(n: nat): nat { if n == 0 then 1 else 2 * Pow2(n - 1) }

  lemma {:induction false} OrZero(a: nat)
    ensures Or(a, 0) == a
  {
    if a > 0 { OrZero(a / 2); }
  }

  lemma Halves(h: nat, n: nat)
    requires n > 0
    ensures h * Pow2(n) == 2 * (h * Pow2(n - 1))
  {
  }

  /** A value shifted left by `n` bits has none in common with one of `n` bits. */
  lemma {:induction false} OrOfDisjoint(h: nat, low: nat, n: nat)
    requires low < Pow2(n)
    ensures Or(h * Pow2(n), low) == h * Pow2(n) + low
  {
    if n == 0 {
      OrZero(h);
    } else {
      Halves(h, n);
      OrOfDisjoint(h, low / 2, n - 1);
    }
  }

  lemma WordSizes()
    ensures Pow2(16) == 0x1_0000 && Pow256(4) == 0x1_0000_0000
  {
    assert Pow2(4) == 2 * Pow2(3) == 4 * Pow2(2) == 16;
    assert Pow2(8) == 2 * Pow2(7) == 4 * Pow2(6) == 8 * Pow2(5) == 16 * Pow2(4) == 256;
    assert Pow2(12) == 2 * Pow2(11) == 4 * Pow2(10) == 8 * Pow2(9) == 16 * Pow2(8) == 4096;
    assert Pow2(16) == 2 * Pow2(15) == 4 * Pow2(14) == 8 * Pow2(13) == 16 * Pow2(12);
    assert Pow256(2) == 256 * Pow256(1) == 0x1_0000 * Pow256(0);
    assert Pow256(4) == 256 * Pow256(3) == 0x1_0000 * Pow256(2);
  }

  /** The protocol number, shifted, and a length do not overlap: the word holds both unchanged. */
  lemma ProtocolAndLengthDisjoint(payloadLen: U16)
    ensures Or(IPPROTO_UDP * 0x1_0000, payloadLen) == IPPROTO_UDP * 0x1_0000 + payloadLen < Pow256(4)
  {
    WordSizes();
    OrOfDisjoint(IPPROTO_UDP, payloadLen, 16);
  }

  function LastWord(payloadLen: U16): seq<Byte> {
    ProtocolAndLengthDisjoint(payloadLen);
    ToBytes(Or(IPPROTO_UDP * 0x1_0000, payloadLen), 4)
  }

  /** The pseudo-header in memory: both addresses as in the packet, then protocol and length as
      one network-order word. */
  function PseudoHeader(src: seq<Byte>, dst: seq<Byte>, payloadLen: U16): seq<Byte> {
    src + dst + LastWord(payloadLen)
  }

  lemma WordsOfFour(b: seq<Byte>)
    requires |b| == 4
    ensures BigEndian(b) < TWO_TO_32
    ensures BeWords(b) == [BigEndian(b) / 0x1_0000, BigEndian(b) % 0x1_0000]
  {
    FourBytes(b);
  }

  lemma WordsAppend(a: seq<Byte>, b: seq<Byte>)
    requires |a| % 2 == 0
    ensures BeWords(a + b) == BeWords(a) + BeWords(b)
  {
  }

  lemma WordsOfLast(payloadLen: U16)
    ensures BeWords(LastWord(payloadLen)) == [IPPROTO_UDP, payloadLen]
  {
    var both := IPPROTO_UDP * 0x1_0000 + payloadLen as int;
    ProtocolAndLengthDisjoint(payloadLen);
    WordsOfFour(LastWord(payloadLen));
    assert both / 0x1_0000 == IPPROTO_UDP && both % 0x1_0000 == payloadLen;
  }

  lemma WordsOfPseudoHeader(src: seq<Byte>, dst: seq<Byte>, payloadLen: U16)
    requires |src| == 4 && |dst| == 4
    ensures BigEndian(src) < TWO_TO_32 && BigEndian(dst) < TWO_TO_32
    ensures BeWords(PseudoHeader(src, dst, payloadLen)) == PseudoWords(BigEndian(src), BigEndian(dst), payloadLen)
  {
    WordsOfFour(src);
    WordsOfFour(dst);
    WordsOfLast(payloadLen);
    WordsAppend(src, dst);
    WordsAppend(src + dst, LastWord(payloadLen));
  }

  // ----- the program --------------------------------------------------------------------

  function HeaderLength(packet: seq<Byte>): nat
    requires |packet| >= 34
  {
    packet[14] % 16 * 4
  }

  /** A complete IPv4 header of a UDP packet whose total length covers the header. */
  predicate Accepted(packet: seq<Byte>) {
    && |packet| >= 34
    && BigEndian(packet[12..14]) == ETH_P_IP
    && 20 <= HeaderLength(packet) && 14 + HeaderLength(packet) <= |packet|
    && packet[23] == IPPROTO_UDP
    && HeaderLength(packet) <= BigEndian(packet[16..18])
  }

  /** The length does not underflow and fits into the low half of its word. */
  function PayloadLength(packet: seq<Byte>): (len: U16)
    requires Accepted(packet)
  {
    TwoBytes(packet[16..18]);
    BigEndian(packet[16..18]) - HeaderLength(packet)
  }

  /** The guards and the payload length, byte by byte. */
  lemma AcceptedIff(packet: seq<Byte>)
    ensures Accepted(packet) <==>
      && |packet| >= 34 && packet[12] == 8 && packet[13] == 0 && packet[23] == 17
      && packet[14] % 16 >= 5 && 14 + 4 * (packet[14] % 16) <= |packet|
      && 256 * packet[16] as int + packet[17] as int >= 4 * (packet[14] % 16)
    ensures Accepted(packet) ==>
      PayloadLength(packet) == 256 * packet[16] as int + packet[17] as int - 4 * (packet[14] % 16)
  {
    if |packet| >= 34 {
      TwoBytes(packet[12..14]);
      TwoBytes(packet[16..18]);
    }
  }

  /** A 16-bit load, swapped to host order. */
  method LoadShort(packet: seq<Byte>, i: nat) returns (v: U16)
    requires i + 2 <= |packet|
    ensures v == BigEndian(packet[i..i + 2])
  {
    NetworkLoad(packet[i..i + 2]);
    TwoBytes(packet[i..i + 2]);
    v := ByteSwap(LittleEndian(packet[i..i + 2]), 2, 0);
  }

  class ChecksumProgram {
    var sum: U32

    method Xdp(packet: seq<Byte>) returns (verdict: Verdict)
      modifies this
      ensures sum == if Accepted(packet)
                     then CsumDiff(PseudoHeader(packet[26..30], packet[30..34], PayloadLength(packet)))
                     else old(sum)
      ensures verdict == if Accepted(packet) then Drop else Pass
    {
      if |packet| < 14 { return Pass; }
      var ethType := LoadShort(packet, 12);
      if ethType != ETH_P_IP { return Pass; }
      if |packet| < 34 { return Pass; }
      var ihl := packet[14] % 16 * 4;
      if ihl < 20 { return Pass; }
      if 14 + ihl > |packet| { return Pass; }
      if packet[23] != IPPROTO_UDP { return Pass; }
      var totalLen := LoadShort(packet, 16);
      if totalLen < ihl { return Pass; }
      var payloadLen: U16 := totalLen - ihl;
      var pseudo := PseudoHeader(packet[26..30], packet[30..34], payloadLen);
      var sum32 := CsumDiff(pseudo);
      sum := sum32;
      PseudoSumNonzero(packet[26..30], packet[30..34], payloadLen);
      return if sum32 % 0x1_0000 != 0 then Drop else Pass;
    }
  }

  lemma PseudoSumNonzero(src: seq<Byte>, dst: seq<Byte>, payloadLen: U16)
    requires |src| == 4 && |dst| == 4
    ensures CsumDiff(PseudoHeader(src, dst, payloadLen)) != 0
  {
    var words := PseudoWords(BigEndian(src), BigEndian(dst), payloadLen);
    ByteOrderIndependence(PseudoHeader(src, dst, payloadLen));
    WordsOfPseudoHeader(src, dst, payloadLen);
    FoldEachIsFold(words);
    TotalAtLeast(words, 4);
  }

  /** For every accepted packet the stored sum is the oracle's sum of its header fields. */
  lemma StoredSumIsPseudoSum(packet: seq<Byte>)
    requires Accepted(packet)
    ensures BigEndian(packet[26..30]) < TWO_TO_32 && BigEndian(packet[30..34]) < TWO_TO_32
    ensures CsumDiff(PseudoHeader(packet[26..30], packet[30..34], PayloadLength(packet))) ==
      Swap16(FoldEach(PseudoWords(BigEndian(packet[26..30]), BigEndian(packet[30..34]), PayloadLength(packet))))
  {
    WordsOfPseudoHeader(packet[26..30], packet[30..34], PayloadLength(packet));
    ByteOrderIndependence(PseudoHeader(packet[26..30], packet[30..34], PayloadLength(packet)));
  }

  // ----- the oracle's packets -----------------------------------------------------------

  function Ipv4Header(src: U32, dst: U32, payloadLen: nat): (h: seq<Byte>)
    requires payloadLen <= 65515
  {
    [0x45, 0] + ToBytes(20 + payloadLen, 2) + [0, 0, 0, 0, 64, 17, 0, 0] + ToBytes(src, 4) + ToBytes(dst, 4)
  }

  function Ipv4UdpPacket(src: U32, dst: U32, payloadLen: nat): seq<Byte>
    requires payloadLen <= 65515
  {
    var udp := [0x30, 0x39, 0, 53] + ToBytes(payloadLen, 2) + [0, 0];
    ETHERNET_IPV4 + Ipv4Header(src, dst, payloadLen) + udp
      + seq(if payloadLen > 8 then payloadLen - 8 else 0, _ => 0x42)
  }

  /** A frame of some type with a zero payload, and a packet cut off in its Ethernet header. */
  function Frame(ethType: U16): seq<Byte> {
    ETHERNET_IPV4[..12] + [ethType / 256, ethType % 256] + seq(64, _ => 0)
  }

  /** Neither is accepted, whatever the type. */
  lemma FramesPass(ethType: U16)
    ensures !Accepted(Frame(ethType)) && !Accepted(ETHERNET_IPV4[..12])
  {
    AcceptedIff(Frame(ethType));
  }

  lemma SliceOfSlice(p: seq<Byte>, lo: nat, hi: nat, i: nat, j: nat)
    requires i <= j <= hi - lo && lo <= hi <= |p|
    ensures p[lo..hi][i..j] == p[lo + i..lo + j]
  {
    var a, b := p[lo..hi][i..j], p[lo + i..lo + j];
    assert |a| == |b|;
    forall k | 0 <= k < |a| ensures a[k] == b[k] {
      assert a[k] == p[lo..hi][i + k] && b[k] == p[lo + i + k];
    }
  }

  lemma HeaderFields(p: seq<Byte>, src: U32, dst: U32, payloadLen: nat)
    requires payloadLen <= 65515 && |p| >= 34 && p[14..34] == Ipv4Header(src, dst, payloadLen)
    ensures p[14] == 0x45 && p[23] == 17 && BigEndian(p[16..18]) == 20 + payloadLen
    ensures p[26..30] == ToBytes(src, 4) && p[30..34] == ToBytes(dst, 4)
  {
    var h := p[14..34];
    assert p[14] == h[0] && p[23] == h[9];
    SliceOfSlice(p, 14, 34, 2, 4);
    SliceOfSlice(p, 14, 34, 12, 16);
    SliceOfSlice(p, 14, 34, 16, 20);
    var len := ToBytes(20 + payloadLen, 2);
    assert h[2..4] == len;
  }

  lemma OraclePacketFields(src: U32, dst: U32, payloadLen: nat)
    requires payloadLen <= 65515
    ensures var p := Ipv4UdpPacket(src, dst, payloadLen);
      && Accepted(p) && PayloadLength(p) == payloadLen
      && p[26..30] == ToBytes(src, 4) && p[30..34] == ToBytes(dst, 4)
  {
    var p := Ipv4UdpPacket(src, dst, payloadLen);
    assert p[14..34] == Ipv4Header(src, dst, payloadLen);
    HeaderFields(p, src, dst, payloadLen);
    assert p[12..14] == [8, 0];
    TwoBytes(p[12..14]);
  }

  /** The round trip: the program accepts every packet the oracle builds and stores the sum the
      oracle expects for the fields it was built from. */
  lemma OraclePacketSum(src: U32, dst: U32, payloadLen: nat)
    requires payloadLen <= 65515
    ensures var p := Ipv4UdpPacket(src, dst, payloadLen);
      && Accepted(p)
      && CsumDiff(PseudoHeader(p[26..30], p[30..34], PayloadLength(p)))
         == Swap16(FoldEach(PseudoWords(src, dst, payloadLen)))
  {
    OraclePacketFields(src, dst, payloadLen);
    StoredSumIsPseudoSum(Ipv4UdpPacket(src, dst, payloadLen));
  }
}
