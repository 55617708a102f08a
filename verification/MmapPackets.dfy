/**
 What a packet does to all the maps of the mmap program: the thread's pending request is used up in
 any case, and what is recorded is read off the packet, the request and the file.  A request that
 nothing refills therefore causes at most one store.
 */
module MmapPackets {
  import opened BpfMap
  import opened MmapRing
  import opened MmapHistory

  /** After a complete packet its thread has no pending request, whether or not its file is known; the
      other requests and the files stay. */
  lemma PendingIsConsumed(t: Tables, packet: seq<Byte>)
    requires t.core.Valid() && |packet| >= 5
    ensures packet[1] !in t.Handled(packet).pending
    ensures forall tid :: tid != packet[1] ==>
      (tid in t.Handled(packet).pending <==> tid in t.pending)
      && (tid in t.pending ==> t.Handled(packet).pending[tid] == t.pending[tid])
    ensures t.Handled(packet).fds == t.fds
  {
  }

  /** A short packet, or one of a thread without a request, passes and changes nothing. */
  lemma NothingPending(t: Tables, packet: seq<Byte>)
    requires t.core.Valid() && (|packet| < 5 || packet[1] !in t.pending)
    ensures t.Handled(packet) == t && t.Request(packet) == []
  {
  }

  /** A packet asks for a store, and is dropped, iff its thread has a request for a known file. */
  lemma AsksIff(t: Tables, packet: seq<Byte>)
    ensures t.Request(packet) != [] <==>
      |packet| >= 5 && packet[1] in t.pending && FdKey(packet[0], t.pending[packet[1]].fd) in t.fds
  {
  }

  /** A request whose file is unknown, or that maps nothing, leaves ring and table as they are. */
  lemma NothingStored(t: Tables, packet: seq<Byte>)
    requires t.core.Valid() && |packet| >= 5 && packet[1] in t.pending
    requires FdKey(packet[0], t.pending[packet[1]].fd) !in t.fds || t.pending[packet[1]].len == 0
    ensures t.Handled(packet).core == t.core
  {
  }

  /** Otherwise the table holds, under the pid and the page of the packet, what the request and the
      file say, and the ring has the page in the slot whose turn it is. */
  lemma RecordedFromPacket(t: Tables, packet: seq<Byte>)
    requires t.core.Valid() && |packet| >= 5 && packet[1] in t.pending
    requires FdKey(packet[0], t.pending[packet[1]].fd) in t.fds && t.pending[packet[1]].len != 0
    ensures var pid, start, p := packet[0] as int, 0x10_0000 + 0x1000 * packet[4] as int, t.pending[packet[1]];
      var file, after := t.fds[FdKey(pid, p.fd)], t.Handled(packet).core;
      && (|t.core.index| < 16 || pid in t.core.index ==>
           pid in after.index && after.index[pid].starts[
             if pid in t.core.index && t.core.index[pid].next < 4 then t.core.index[pid].next else 0] == start)
      && (|t.core.mmaps| < 16 ==>
           Key(pid, start) in after.mmaps &&
           after.mmaps[Key(pid, start)] == Ref(
             file.path, start,
             if start + p.len < 0x1_0000_0000_0000_0000 then start + p.len else 0xFFFF_FFFF_FFFF_FFFF,
             p.prot, p.flags, file.fid))
  {
    var pid, start, p := packet[0] as int, 0x10_0000 + 0x1000 * packet[4] as int, t.pending[packet[1]];
    var e := Store(pid, start, p, t.fds[FdKey(pid, p.fd)]);
    assert t.Request(packet) == [e];
    AfterEvictionFits(t.core, e);
  }

  lemma AfterEvictionFits(t: Core, e: Store)
    requires t.Valid()
    ensures |t.AfterEviction(e)| <= |t.mmaps|
  {
    var key := Key(e.pid, t.Evicts(e));
    if key in t.mmaps {
      var rest := t.mmaps - {key};
      assert rest.Keys == t.mmaps.Keys - {key};
      assert |rest| == |rest.Keys| && |t.mmaps| == |t.mmaps.Keys|;
    } else {
      assert t.mmaps - {key} == t.mmaps;
    }
  }

  // ----- runs without refills -----------------------------------------------------------

  ghost function PacketsOn(t: Tables, packets: seq<seq<Byte>>): (u: Tables)
    requires t.core.Valid()
    ensures u.core.Valid()
  {
    if packets == [] then t else PacketsOn(t, packets[..|packets| - 1]).Handled(packets[|packets| - 1])
  }

  /** The packet is one of the thread's. */
  predicate IsOf(packet: seq<Byte>, tid: U64) { |packet| >= 5 && packet[1] == tid }

  /** How many packets of the thread stored a mapping. */
  ghost function StoresOf(t: Tables, packets: seq<seq<Byte>>, tid: U64): nat
    requires t.core.Valid()
  {
    if packets == [] then 0
    else
      var init, last := packets[..|packets| - 1], packets[|packets| - 1];
      StoresOf(t, init, tid) + if IsOf(last, tid) && PacketsOn(t, init).Request(last) != [] then 1 else 0
  }

  /** The thread has its request until its first packet comes. */
  lemma {:induction false} PendingUntilFirst(t: Tables, packets: seq<seq<Byte>>, tid: U64)
    requires t.core.Valid()
    ensures tid in PacketsOn(t, packets).pending <==>
      tid in t.pending && forall i :: 0 <= i < |packets| ==> !IsOf(packets[i], tid)
    ensures tid in PacketsOn(t, packets).pending ==> PacketsOn(t, packets).pending[tid] == t.pending[tid]
    ensures PacketsOn(t, packets).fds == t.fds
  {
    if packets != [] {
      var n := |packets| - 1;
      PendingUntilFirst(t, packets[..n], tid);
      if |packets[n]| >= 5 {
        PendingIsConsumed(PacketsOn(t, packets[..n]), packets[n]);
      } else {
        NothingPending(PacketsOn(t, packets[..n]), packets[n]);
      }
      assert forall i :: 0 <= i < n ==> packets[..n][i] == packets[i];
    }
  }

  /** A second packet of a thread passes and leaves all maps as they are. */
  lemma SecondPacketPasses(t: Tables, packets: seq<seq<Byte>>, i: nat, second: seq<Byte>, tid: U64)
    requires t.core.Valid() && i < |packets| && IsOf(packets[i], tid) && IsOf(second, tid)
    ensures PacketsOn(t, packets).Request(second) == []
    ensures PacketsOn(t, packets + [second]) == PacketsOn(t, packets)
  {
    assert (packets + [second])[..|packets|] == packets;
    PendingUntilFirst(t, packets, tid);
    NothingPending(PacketsOn(t, packets), second);
  }

  lemma {:induction false} NoPacketNoStore(t: Tables, packets: seq<seq<Byte>>, tid: U64)
    requires t.core.Valid() && forall i :: 0 <= i < |packets| ==> !IsOf(packets[i], tid)
    ensures StoresOf(t, packets, tid) == 0
  {
    if packets != [] {
      assert forall i :: 0 <= i < |packets| - 1 ==> packets[..|packets| - 1][i] == packets[i];
      NoPacketNoStore(t, packets[..|packets| - 1], tid);
    }
  }

  /** Each request causes at most one store: over any run of packets a thread stores once, if it has a
      request and its first packet names a known file, and otherwise never. */
  lemma {:induction false} OneStoreForEachRequest(t: Tables, packets: seq<seq<Byte>>, tid: U64)
    requires t.core.Valid()
    ensures StoresOf(t, packets, tid) <= 1
    ensures StoresOf(t, packets, tid) == 1 <==>
      tid in t.pending && exists i :: FirstOf(packets, tid, i) && FdKey(packets[i][0], t.pending[tid].fd) in t.fds
  {
    if packets != [] {
      var n := |packets| - 1;
      var init := packets[..n];
      OneStoreForEachRequest(t, init, tid);
      PendingUntilFirst(t, init, tid);
      forall i | 0 <= i < n ensures FirstOf(init, tid, i) <==> FirstOf(packets, tid, i) {
        assert forall j :: 0 <= j <= i ==> init[j] == packets[j];
      }
      if j :| 0 <= j < n && IsOf(init[j], tid) {
        var first := EarliestOf(init, tid, j);
        assert !FirstOf(packets, tid, n) by { assert packets[j] == init[j]; }
      } else {
        NoPacketNoStore(t, init, tid);
        assert forall j :: 0 <= j < n ==> packets[j] == init[j];
        assert FirstOf(packets, tid, n) <==> IsOf(packets[n], tid);
      }
    }
  }

  /** The thread's first packet is number `i`. */
  ghost predicate FirstOf(packets: seq<seq<Byte>>, tid: U64, i: int) {
    0 <= i < |packets| && IsOf(packets[i], tid) && forall j :: 0 <= j < i ==> !IsOf(packets[j], tid)
  }

  lemma EarliestOf(packets: seq<seq<Byte>>, tid: U64, j: nat) returns (first: nat)
    requires j < |packets| && IsOf(packets[j], tid)
    ensures first <= j && FirstOf(packets, tid, first)
  {
    first := 0;
    while !IsOf(packets[first], tid)
      invariant first <= j && forall k :: 0 <= k < first ==> !IsOf(packets[k], tid)
      decreases j - first
    {
      first := first + 1;
    }
  }
}
