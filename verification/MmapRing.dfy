/**
 The mmap table of the pending-mmap case: a hash map of live mappings beside a hash map that
 remembers, for every pid, the starts of its latest mappings in a ring of four slots.  The
 ring evicts what falls out of it from the table.  The results are about whole runs: as long
 as no map update is refused the ring of each pid holds exactly the starts of its last four
 stores and the table holds exactly the refs of those stores; and no update is refused iff at
 no time more than sixteen such mappings are live.
 */
module MmapRing {
  import opened BpfMap

  const SLOTS: nat := 4
  const CAPACITY: nat := 16
  const MMAP_BASE: nat := 0x100000

  datatype FileId = FileId(ino: U64, dev: U64)
  datatype FdRef = FdRef(path: seq<Byte>, fid: FileId)
  datatype FdKey = FdKey(pid: int, fd: int)
  datatype Pending = Pending(fd: int, len: U64, prot: U64, flags: U64)
  datatype Key = Key(pid: int, start: U64)
  datatype Ref = Ref(path: seq<Byte>, start: U64, end: U64, prot: U64, flags: U64, fid: FileId)

  /** A request to record a mapping. */
  datatype Store = Store(pid: int, start: U64, pending: Pending, file: FdRef) {
    /** The requests that are carried out. */
    predicate Effective() { start != 0 && pending.len != 0 }

    function TableKey(): Key { Key(pid, start) }

    function TableRef(): Ref {
      Ref(file.path, start, RangeEnd(start, pending.len), pending.prot, pending.flags, file.fid)
    }
  }

  /** The end of a mapping: the sum in 64 bits, or all ones when it wraps. */
  function RangeEnd(start: U64, len: U64): (end: U64)
    ensures end == if start + len < TWO_TO_64 then start + len else TWO_TO_64 - 1
  {
    var sum := Wrap64(start + len);
    if sum < start then TWO_TO_64 - 1 else sum
  }

  // ----- the ring -----------------------------------------------------------------------

  datatype Ring = Ring(starts: seq<U64>, next: nat)

  function Slot(r: Ring): nat {
    if r.next >= SLOTS then 0 else r.next
  }

  function Cleared(starts: seq<U64>, start: U64): (r: seq<U64>)
    ensures |r| == |starts|
    ensures forall i :: 0 <= i < |r| ==> r[i] == if starts[i] == start then 0 else starts[i]
  {
    seq(|starts|, i requires 0 <= i < |starts| => if starts[i] == start then 0 else starts[i])
  }

  function Remembered(r: Ring, start: U64): Ring
    requires |r.starts| == SLOTS
  {
    Ring(Cleared(r.starts, start)[Slot(r) := start], if Slot(r) + 1 >= SLOTS then 0 else Slot(r) + 1)
  }

  /** What the store of `start` pushes out of the ring, 0 for nothing. */
  function Evicted(r: Ring, start: U64): U64
    requires |r.starts| == SLOTS
  {
    Cleared(r.starts, start)[Slot(r)]
  }

  class RingIndex {
    const starts: array<U64>
    var next: nat

    ghost predicate Valid() { starts.Length == SLOTS }

    ghost function View(): (r: Ring)
      requires Valid()
      reads this, starts
      ensures |r.starts| == SLOTS
    {
      Ring(starts[..], next)
    }

    constructor (r: Ring)
      requires |r.starts| == SLOTS
      ensures Valid() && fresh(starts)
      ensures View() == r
    {
      starts := new U64[SLOTS](i requires 0 <= i < SLOTS => r.starts[i]);
      next := r.next;
      new;
      assert starts[..] == r.starts;
    }

    method Remember(start: U64) returns (overwritten: int)
      requires Valid() && start != 0
      modifies this, starts
      ensures View() == Remembered(old(View()), start)
      ensures overwritten == Evicted(old(View()), start) != start
    {
      for i := 0 to SLOTS
        invariant forall j :: 0 <= j < i ==> starts[j] == Cleared(old(starts[..]), start)[j]
        invariant forall j :: i <= j < SLOTS ==> starts[j] == old(starts[j])
        invariant next == old(next)
      {
        if starts[i] == start { starts[i] := 0; }
      }
      assert starts[..] == Cleared(old(starts[..]), start);
      var slot := next;
      if slot >= SLOTS { slot := 0; }
      overwritten := starts[slot];
      starts[slot] := start;
      var nextSlot := slot + 1;
      if nextSlot >= SLOTS { nextSlot := 0; }
      next := nextSlot;
      if overwritten == start { return 0; }
    }
  }

  // ----- the tables ---------------------------------------------------------------------

  /** The value of the two maps this program owns. */
  datatype Core = Core(index: map<int, Ring>, mmaps: map<Key, Ref>) {
    predicate Valid() { forall pid :: pid in index ==> |index[pid].starts| == SLOTS }

    /** What the store evicts from the table, 0 for nothing. */
    function Evicts(e: Store): U64
      requires Valid()
    {
      if e.pid in index then Evicted(index[e.pid], e.start) else 0
    }

    function AfterEviction(e: Store): map<Key, Ref>
      requires Valid()
    {
      if Evicts(e) != 0 then mmaps - {Key(e.pid, Evicts(e))} else mmaps
    }

    function Stored(e: Store): (t: Core)
      requires Valid()
      ensures t.Valid()
    {
      if !e.Effective() then this
      else
        Core(
          if e.pid in index then index[e.pid := Remembered(index[e.pid], e.start)]
          else Put(index, e.pid, Ring([e.start, 0, 0, 0], 1), CAPACITY),
          Put(AfterEviction(e), e.TableKey(), e.TableRef(), CAPACITY))
    }

    /** No map update made for the request is refused. */
    predicate Admits(e: Store)
      requires Valid()
    {
      e.Effective() ==>
        HasRoom(index, e.pid, CAPACITY) && HasRoom(AfterEviction(e), e.TableKey(), CAPACITY)
    }
  }

  /** All maps; `pending` and `fds` are filled by other programs. */
  datatype Tables = Tables(core: Core, pending: map<U64, Pending>, fds: map<FdKey, FdRef>) {
    /** The request a packet makes: none for a short packet, an unknown thread or an unknown file. */
    function Request(packet: seq<Byte>): (r: seq<Store>)
      ensures |r| <= 1
      ensures forall e :: e in r ==> e.start != 0
    {
      if |packet| < 5 || packet[1] !in pending then []
      else
        var p := pending[packet[1]];
        var key := FdKey(packet[0], p.fd);
        if key in fds then [Store(packet[0], MMAP_BASE + packet[4] as int * 4096, p, fds[key])] else []
    }

    function Handled(packet: seq<Byte>): (t: Tables)
      requires core.Valid()
      ensures t.core.Valid()
    {
      if |packet| < 5 || packet[1] !in pending then this
      else
        var r := Request(packet);
        Tables(if r == [] then core else core.Stored(r[0]), pending - {packet[1]}, fds)
    }
  }

  /** The maps of the program.  A pointer into the index map is a ring that is read out,
      changed in place and stored back. */
  class MmapTables {
    var index: map<int, Ring>
    var mmaps: map<Key, Ref>
    var pending: map<U64, Pending>
    var fds: map<FdKey, FdRef>

    ghost predicate Valid()
      reads this
    {
      View().core.Valid()
    }

    ghost function View(): Tables
      reads this
    {
      Tables(Core(index, mmaps), pending, fds)
    }

    constructor ()
      ensures Valid() && View() == Tables(Core(map[], map[]), map[], map[])
    {
      index, mmaps, pending, fds := map[], map[], map[], map[];
    }

    method IndexRemember(pid: int, start: U64) returns (overwritten: int)
      requires Valid()
      modifies this`index
      ensures index == if start == 0 then old(index)
                       else if pid in old(index) then old(index)[pid := Remembered(old(index)[pid], start)]
                       else Put(old(index), pid, Ring([start, 0, 0, 0], 1), CAPACITY)
      ensures overwritten == if start != 0 && pid in old(index) then Evicted(old(index)[pid], start) else 0
    {
      if start == 0 { return 0; }
      if pid !in index {
        index := Put(index, pid, Ring([start, 0, 0, 0], 1), CAPACITY);
        return 0;
      }
      var idx := new RingIndex(index[pid]);
      overwritten := idx.Remember(start);
      index := index[pid := Ring(idx.starts[..], idx.next)];
    }

    method StoreMmapRef(e: Store)
      requires Valid()
      modifies this`index, this`mmaps
      ensures Valid()
      ensures View().core == old(View()).core.Stored(e)
    {
      if e.pending.len == 0 || e.start == 0 { return; }
      var overwritten := IndexRemember(e.pid, e.start);
      if overwritten != 0 { mmaps := mmaps - {Key(e.pid, overwritten)}; }
      var end := RangeEnd(e.start, e.pending.len);
      var ref := Ref(e.file.path, e.start, end, e.pending.prot, e.pending.flags, e.file.fid);
      mmaps := Put(mmaps, Key(e.pid, e.start), ref, CAPACITY);
    }

    method Xdp(packet: seq<Byte>) returns (verdict: Verdict)
      requires Valid()
      modifies this
      ensures Valid()
      ensures View() == old(View()).Handled(packet)
      ensures verdict == if old(View()).Request(packet) == [] then Pass else Drop
    {
      if |packet| < 5 { return Pass; }
      var pid, tid := packet[0], packet[1];
      var start: U64 := MMAP_BASE + packet[4] as int * 4096;
      if tid !in pending { return Pass; }
      var p := pending[tid];
      var key := FdKey(pid, p.fd);
      verdict := Pass;
      if key in fds {
        StoreMmapRef(Store(pid, start, p, fds[key]));
        verdict := Drop;
      }
      pending := pending - {tid};
    }
  }
}
