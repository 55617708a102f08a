/** BPF hash maps as finite maps with a capacity, and the machine integers stored in them. */
module BpfMap {

  const TWO_TO_32: nat := 0x1_0000_0000
  const TWO_TO_64: nat := 0x1_0000_0000_0000_0000

  type Byte = x: nat | x < 256
  type U16 = x: nat | x < 0x1_0000
  type U32 = x: nat | x < TWO_TO_32
  type U64 = x: nat | x < TWO_TO_64

  datatype Verdict = Drop | Pass

  /** An update is refused only for an absent key in a full map. */
  predicate HasRoom<K, V>(m: map<K, V>, key: K, capacity: nat) {
    key in m || |m| < capacity
  }

  /** bpf_map_update_elem with BPF_ANY: a refused update leaves the map as it is. */
  function Put<K, V>(m: map<K, V>, key: K, value: V, capacity: nat): map<K, V> {
    if HasRoom(m, key, capacity) then m[key := value] else m
  }

  function Wrap64(x: int): U64 {
    x % TWO_TO_64
  }

  lemma WrapShort(x: int)
    requires 0 <= x < TWO_TO_64
    ensures Wrap64(x) == x
  {
  }

  function Wrap32(x: int): U32 {
    x % TWO_TO_32
  }
}
