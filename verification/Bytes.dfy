/** Bytes in memory and the integers that little- and big-endian loads make of them. */
module Bytes {
  import opened BpfMap

  function Pow256(n: nat): (p: nat)
    ensures p > 0
  {
    if n == 0 then 1 else 256 * Pow256(n - 1)
  }

  /** Network order: the first byte is the most significant. */
  function BigEndian(b: seq<Byte>): (v: nat)
    ensures v < Pow256(|b|)
  {
    if b == [] then 0 else BigEndian(b[..|b| - 1]) * 256 + b[|b| - 1]
  }

  /** What a load on a little-endian machine yields: the first byte is the least significant. */
  function LittleEndian(b: seq<Byte>): (v: nat)
    ensures v < Pow256(|b|)
  {
    if b == [] then 0 else b[0] + 256 * LittleEndian(b[1..])
  }

  /** The bytes of a value in reverse order, `n` of them, in front of those of `high`. */
  function ByteSwap(v: nat, n: nat, high: nat): nat {
    if n == 0 then high else ByteSwap(v / 256, n - 1, high * 256 + v % 256)
  }

  lemma {:induction false} SwapOfLoad(b: seq<Byte>, front: seq<Byte>)
    ensures ByteSwap(LittleEndian(b), |b|, BigEndian(front)) == BigEndian(front + b)
  {
    if b == [] {
      assert front + b == front;
    } else {
      var next := front + [b[0]];
      assert next[..|next| - 1] == front;
      SwapOfLoad(b[1..], next);
      assert next + b[1..] == front + b;
      assert LittleEndian(b) / 256 == LittleEndian(b[1..]) && LittleEndian(b) % 256 == b[0];
    }
  }

  /** Swapping what a little-endian load yields gives the value in network order. */
  lemma NetworkLoad(b: seq<Byte>)
    ensures ByteSwap(LittleEndian(b), |b|, 0) == BigEndian(b)
  {
    SwapOfLoad(b, []);
    assert [] + b == b;
  }

  /** Python's value.to_bytes(n, "big"). */
  function ToBytes(v: nat, n: nat): (b: seq<Byte>)
    requires v < Pow256(n)
    ensures |b| == n
    ensures BigEndian(b) == v
  {
    if n == 0 then []
    else
      var b := ToBytes(v / 256, n - 1) + [v % 256];
      assert b[..n - 1] == ToBytes(v / 256, n - 1);
      b
  }

  lemma TwoBytes(b: seq<Byte>)
    requires |b| == 2
    ensures BigEndian(b) == b[0] as int * 256 + b[1] as int
  {
    assert b[..1][..0] == [];
    assert BigEndian(b[..1]) == b[0];
  }

  lemma FourBytes(b: seq<Byte>)
    requires |b| == 4
    ensures BigEndian(b) == (b[0] as int * 256 + b[1] as int) * 0x1_0000 + (b[2] as int * 256 + b[3] as int)
  {
    assert b[..3][..2] == b[..2];
    TwoBytes(b[..2]);
    assert BigEndian(b[..3]) == BigEndian(b[..2]) * 256 + b[2];
  }

  /** The Ethernet header of the oracles' IPv4 packets. */
  const ETHERNET_IPV4: seq<Byte> := [0, 17, 34, 51, 68, 85, 102, 119, 136, 153, 170, 187, 8, 0]
}
