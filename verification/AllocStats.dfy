/**
 Allocation statistics of the leak tracer: a free removes the allocation and subtracts it from
 the totals of its stack.  Whatever the maps hold at the start, no run of frees changes the
 discrepancy between a stack's totals and the allocations that are live; totals that start
 exact therefore stay exact, never underflow, and end at zero.
 */
module AllocStats {
  import opened BpfMap
  import opened MapSum

  datatype AllocInfo = AllocInfo(size: U64, timestamp: U64, stackId: U64)
  datatype Combined = Combined(totalSize: U64, numberOfAllocs: U64)

  datatype Tracer = Tracer(allocs: map<U64, AllocInfo>, combined: map<U64, Combined>)

  function Deducted(combined: map<U64, Combined>, stackId: U64, size: U64): map<U64, Combined> {
    if stackId !in combined then combined
    else
      var c := combined[stackId];
      combined[stackId := Combined(Wrap64(c.totalSize - size), Wrap64(c.numberOfAllocs - 1))]
  }

  function Freed(t: Tracer, address: U64): Tracer {
    if address !in t.allocs then t
    else Tracer(t.allocs - {address}, Deducted(t.combined, t.allocs[address].stackId, t.allocs[address].size))
  }

  function Handled(t: Tracer, packet: seq<Byte>): Tracer {
    if |packet| < 2 then t else Freed(t, packet[0])
  }

  class LeakTracer {
    var allocs: map<U64, AllocInfo>
    var combined: map<U64, Combined>

    ghost function View(): Tracer
      reads this
    {
      Tracer(allocs, combined)
    }

    method UpdateStatisticsDel(stackId: U64, size: U64)
      modifies this`combined
      ensures combined == Deducted(old(combined), stackId, size)
    {
      if stackId !in combined { return; }
      var existing := combined[stackId];
      existing := existing.(totalSize := Wrap64(existing.totalSize - size));
      existing := existing.(numberOfAllocs := Wrap64(existing.numberOfAllocs - 1));
      combined := combined[stackId := existing];
    }

    /** An unknown address passes and leaves everything as it is. */
    method Xdp(packet: seq<Byte>) returns (verdict: Verdict)
      modifies this
      ensures View() == Handled(old(View()), packet)
      ensures verdict == if |packet| >= 2 && packet[0] in old(allocs) then Drop else Pass
    {
      if |packet| < 2 { return Pass; }
      var address := packet[0];
      if address !in allocs { return Pass; }
      var info := allocs[address];
      allocs := allocs - {address};
      UpdateStatisticsDel(info.stackId, info.size);
      return Drop;
    }
  }

  // ----- totals against live allocations ------------------------------------------------

  ghost function SizesOf(allocs: map<U64, AllocInfo>, stackId: U64): map<U64, int> {
    map a | a in allocs :: if allocs[a].stackId == stackId then allocs[a].size else 0
  }

  ghost function OnesOf(allocs: map<U64, AllocInfo>, stackId: U64): map<U64, int> {
    map a | a in allocs :: if allocs[a].stackId == stackId then 1 else 0
  }

  /** The bytes and the number of live allocations made from a stack. */
  ghost function LiveSize(t: Tracer, stackId: U64): int { Sum(SizesOf(t.allocs, stackId)) }

  ghost function LiveCount(t: Tracer, stackId: U64): int { Sum(OnesOf(t.allocs, stackId)) }

  lemma FreeOneAlloc(t: Tracer, address: U64, stackId: U64)
    requires address in t.allocs
    ensures var info, u := t.allocs[address], Freed(t, address);
      && LiveSize(t, stackId) == LiveSize(u, stackId) + (if info.stackId == stackId then info.size else 0)
      && LiveCount(t, stackId) == LiveCount(u, stackId) + (if info.stackId == stackId then 1 else 0)
  {
    SumRemove(SizesOf(t.allocs, stackId), address);
    SumRemove(OnesOf(t.allocs, stackId), address);
    assert SizesOf(t.allocs, stackId) - {address} == SizesOf(t.allocs - {address}, stackId);
    assert OnesOf(t.allocs, stackId) - {address} == OnesOf(t.allocs - {address}, stackId);
  }

  ghost function SizeDrift(t: Tracer, stackId: U64): int
    requires stackId in t.combined
  {
    Wrap64(t.combined[stackId].totalSize - LiveSize(t, stackId))
  }

  ghost function CountDrift(t: Tracer, stackId: U64): int
    requires stackId in t.combined
  {
    Wrap64(t.combined[stackId].numberOfAllocs - LiveCount(t, stackId))
  }

  lemma WrapShift(x: int, y: int, d: int)
    ensures Wrap64(Wrap64(x - d) - (y - d)) == Wrap64(x - y)
  {
    var q := (x - d) / TWO_TO_64;
    assert Wrap64(x - d) == x - d - q * TWO_TO_64;
    WrapMultiple(x - y, q);
  }

  lemma {:induction false} WrapMultiple(x: int, q: int)
    ensures Wrap64(x - q * TWO_TO_64) == Wrap64(x)
    decreases if q < 0 then -q else q
  {
    if q > 0 {
      WrapMultiple(x, q - 1);
    } else if q < 0 {
      WrapMultiple(x, q + 1);
    }
  }

  lemma FreeKeepsDrift(t: Tracer, address: U64, stackId: U64)
    requires stackId in t.combined
    ensures stackId in Freed(t, address).combined
    ensures SizeDrift(Freed(t, address), stackId) == SizeDrift(t, stackId)
    ensures CountDrift(Freed(t, address), stackId) == CountDrift(t, stackId)
  {
    if address in t.allocs {
      FreeOneAlloc(t, address, stackId);
      if t.allocs[address].stackId == stackId {
        WrapShift(t.combined[stackId].totalSize, LiveSize(t, stackId), t.allocs[address].size);
        WrapShift(t.combined[stackId].numberOfAllocs, LiveCount(t, stackId), 1);
      }
    }
  }

  ghost function Run(t: Tracer, packets: seq<seq<Byte>>): Tracer {
    if packets == [] then t else Handled(Run(t, packets[..|packets| - 1]), packets[|packets| - 1])
  }

  /** The discrepancy of every stack survives every run, whatever the maps held at the start. */
  lemma {:induction false} RunKeepsDrift(t: Tracer, packets: seq<seq<Byte>>, stackId: U64)
    requires stackId in t.combined
    ensures stackId in Run(t, packets).combined
    ensures SizeDrift(Run(t, packets), stackId) == SizeDrift(t, stackId)
    ensures CountDrift(Run(t, packets), stackId) == CountDrift(t, stackId)
  {
    if packets != [] {
      var n := |packets| - 1;
      RunKeepsDrift(t, packets[..n], stackId);
      if |packets[n]| >= 2 { FreeKeepsDrift(Run(t, packets[..n]), packets[n][0], stackId); }
    }
  }

  /** What is live after a run: what no complete packet has named; its records are as before. */
  lemma {:induction false} LiveAfterRun(t: Tracer, packets: seq<seq<Byte>>, address: U64)
    ensures address in Run(t, packets).allocs <==>
      address in t.allocs && forall i :: 0 <= i < |packets| && |packets[i]| >= 2 ==> packets[i][0] != address
    ensures address in Run(t, packets).allocs ==> Run(t, packets).allocs[address] == t.allocs[address]
  {
    if packets != [] {
      var n := |packets| - 1;
      LiveAfterRun(t, packets[..n], address);
      assert forall i :: 0 <= i < n ==> packets[..n][i] == packets[i];
    }
  }

  ghost predicate ExactAt(t: Tracer, s: U64)
    requires s in t.combined
  {
    t.combined[s].totalSize == LiveSize(t, s) && t.combined[s].numberOfAllocs == LiveCount(t, s)
  }

  ghost predicate Exact(t: Tracer) {
    forall s :: s in t.combined ==> ExactAt(t, s)
  }

  /** Freeing a live allocation subtracts no more than its stack's totals hold. */
  lemma NoUnderflow(t: Tracer, address: U64)
    requires address in t.allocs && t.allocs[address].stackId in t.combined
    requires ExactAt(t, t.allocs[address].stackId)
    ensures t.allocs[address].size <= t.combined[t.allocs[address].stackId].totalSize
    ensures 1 <= t.combined[t.allocs[address].stackId].numberOfAllocs
  {
    var s := t.allocs[address].stackId;
    FreeOneAlloc(t, address, s);
    SumNonNegative(SizesOf(t.allocs - {address}, s));
    SumNonNegative(OnesOf(t.allocs - {address}, s));
  }

  lemma FreeKeepsExactAt(t: Tracer, address: U64, s: U64)
    requires s in t.combined && ExactAt(t, s)
    ensures s in Freed(t, address).combined && ExactAt(Freed(t, address), s)
  {
    if address in t.allocs {
      FreeOneAlloc(t, address, s);
      if t.allocs[address].stackId == s { NoUnderflow(t, address); }
    }
  }

  lemma FreeKeepsExact(t: Tracer, address: U64)
    requires Exact(t)
    ensures Exact(Freed(t, address)) && Freed(t, address).combined.Keys == t.combined.Keys
  {
    forall s | s in t.combined ensures ExactAt(Freed(t, address), s) { FreeKeepsExactAt(t, address, s); }
  }

  /** Exact totals stay exact over every run, and are all zero once nothing is live. */
  lemma {:induction false} RunKeepsExact(t: Tracer, packets: seq<seq<Byte>>)
    requires Exact(t)
    ensures Exact(Run(t, packets)) && Run(t, packets).combined.Keys == t.combined.Keys
    ensures Run(t, packets).allocs == map[] ==>
      forall s :: s in t.combined ==> Run(t, packets).combined[s] == Combined(0, 0)
  {
    var u := Run(t, packets);
    if packets != [] {
      var n := |packets| - 1;
      RunKeepsExact(t, packets[..n]);
      if |packets[n]| >= 2 { FreeKeepsExact(Run(t, packets[..n]), packets[n][0]); }
    }
    if u.allocs == map[] {
      forall s | s in u.combined ensures u.combined[s] == Combined(0, 0) {
        assert ExactAt(u, s);
        assert SizesOf(u.allocs, s) == map[] && OnesOf(u.allocs, s) == map[];
      }
    }
  }
}
