/**
 Running time per process from scheduler switches: `time_lookup` holds when a pid was last
 switched in, `runtime_lookup` how long it has run.  Stamps are never removed, so the accounts
 are right only for runs in which every switch starts from the pid the previous one switched to.
 */
module SchedRuntime {
  import opened Wrappers
  import opened BpfMap
  import opened FiniteSets
  import opened MapSum

  const CAPACITY: nat := 16

  datatype Event = Event(prev: U32, next: U32, now: U64)

  datatype Stats = Stats(
    processed: U64, passed: U64, lastPrevPid: U64, lastNextPid: U64,
    lastDelta: U64, lastRuntime: U64, lastEventPid: U64, lastNextTs: U64)

  datatype Accounts = Accounts(times: map<U32, U64>, runtimes: map<U32, U64>, stats: Stats) {
    /** The switch has no usable stamp to measure from. */
    predicate Skips(e: Event) { e.prev !in times || e.now < times[e.prev] }

    function Delta(e: Event): U64
      requires !Skips(e)
    {
      e.now - times[e.prev]
    }

    function NewTotal(e: Event): U64
      requires !Skips(e)
    {
      Wrap64(Delta(e) + if e.prev in runtimes then runtimes[e.prev] else 0)
    }

    function Charge(e: Event): map<U32, U64> {
      if Skips(e) then runtimes else Put(runtimes, e.prev, NewTotal(e), CAPACITY)
    }

    function Count(e: Event): Stats {
      if Skips(e) then Stats(stats.processed, Wrap64(stats.passed + 1), e.prev, e.next, 0, 0, 0, e.now)
      else Stats(Wrap64(stats.processed + 1), stats.passed, e.prev, e.next, Delta(e), NewTotal(e), e.prev, e.now)
    }

    function Switched(e: Event): Accounts {
      Accounts(Put(times, e.next, e.now, CAPACITY), Charge(e), Count(e))
    }
  }

  class Scheduler {
    var timeLookup: map<U32, U64>
    var runtimeLookup: map<U32, U64>
    var processed: U64
    var passed: U64
    var lastPrevPid: U64
    var lastNextPid: U64
    var lastDelta: U64
    var lastRuntime: U64
    var lastEventPid: U64
    var lastNextTs: U64

    ghost function View(): Accounts
      reads this
    {
      Accounts(timeLookup, runtimeLookup,
               Stats(processed, passed, lastPrevPid, lastNextPid, lastDelta, lastRuntime, lastEventPid, lastNextTs))
    }

    constructor ()
      ensures View() == EMPTY
    {
      timeLookup, runtimeLookup := map[], map[];
      processed, passed, lastPrevPid, lastNextPid := 0, 0, 0, 0;
      lastDelta, lastRuntime, lastEventPid, lastNextTs := 0, 0, 0, 0;
    }

    method RememberPass(prev: U32, next: U32, now: U64)
      modifies this
      ensures View() == Accounts(Put(old(timeLookup), next, now, CAPACITY), old(runtimeLookup),
                                 Stats(old(processed), Wrap64(old(passed) + 1), prev, next, 0, 0, 0, now))
    {
      passed := Wrap64(passed + 1);
      lastPrevPid, lastNextPid, lastDelta, lastRuntime, lastEventPid, lastNextTs := prev, next, 0, 0, 0, now;
      timeLookup := Put(timeLookup, next, now, CAPACITY);
    }

    method RememberRuntime(prev: U32, next: U32, now: U64, delta: U64, total: U64)
      modifies this
      ensures View() == Accounts(old(timeLookup), old(runtimeLookup),
                                 Stats(Wrap64(old(processed) + 1), old(passed), prev, next, delta, total, prev, now))
    {
      processed := Wrap64(processed + 1);
      lastPrevPid, lastNextPid, lastDelta, lastRuntime, lastEventPid, lastNextTs := prev, next, delta, total, prev, now;
    }

    /** `packet` is absent when the packet is too short to hold a switch event. */
    method Xdp(packet: Option<Event>) returns (verdict: Verdict)
      modifies this
      ensures View() == if packet.Some? then old(View()).Switched(packet.value) else old(View())
      ensures verdict == if packet.Some? && !old(View()).Skips(packet.value) then Drop else Pass
    {
      if packet.None? { return Pass; }
      var Event(prev, next, now) := packet.value;
      if prev !in timeLookup {
        RememberPass(prev, next, now);
        return Pass;
      }
      var oldNs := timeLookup[prev];
      if now < oldNs {
        RememberPass(prev, next, now);
        return Pass;
      }
      var delta: U64 := now - oldNs;
      var total := delta;
      if prev in runtimeLookup { total := Wrap64(total as int + runtimeLookup[prev]); }
      runtimeLookup := Put(runtimeLookup, prev, total, CAPACITY);
      timeLookup := Put(timeLookup, next, now, CAPACITY);
      RememberRuntime(prev, next, now, delta, total);
      return Drop;
    }
  }

  // ----- whole runs ---------------------------------------------------------------------

  const EMPTY: Accounts := Accounts(map[], map[], Stats(0, 0, 0, 0, 0, 0, 0, 0))

  ghost function Run(run: seq<Event>): Accounts {
    if run == [] then EMPTY else Run(run[..|run| - 1]).Switched(run[|run| - 1])
  }

  /** Every switch starts from the pid the previous one switched to, and time does not run back. */
  ghost predicate Chained(run: seq<Event>) {
    forall i :: 0 < i < |run| ==> run[i].prev == run[i - 1].next && run[i - 1].now <= run[i].now
  }

  ghost function NextPids(run: seq<Event>): set<U32> {
    if run == [] then {} else NextPids(run[..|run| - 1]) + {run[|run| - 1].next}
  }

  /** The total length of the intervals in which the pid was the running one. */
  ghost function OwnTime(run: seq<Event>, pid: U32): int {
    if |run| <= 1 then 0
    else
      var n := |run| - 1;
      OwnTime(run[..n], pid) + if run[n].prev == pid then run[n].now - run[n - 1].now else 0
  }

  ghost predicate Stamped(run: seq<Event>, a: Accounts)
    requires run != []
  {
    var last := run[|run| - 1];
    a.times.Keys == NextPids(run) && last.next in a.times && a.times[last.next] == last.now
  }

  /** Each pid holds its own running time, and the accounts add up to the whole span. */
  ghost predicate Charged(run: seq<Event>, runtimes: map<U32, U64>)
    requires run != []
  {
    && runtimes.Keys <= NextPids(run)
    && (forall pid {:trigger OwnTime(run, pid)} :: OwnTime(run, pid) == if pid in runtimes then runtimes[pid] else 0)
    && Sum(runtimes) == run[|run| - 1].now - run[0].now
  }

  ghost predicate Counted(run: seq<Event>, stats: Stats) {
    stats.passed == 1 && stats.processed == Wrap64(|run| - 1)
  }

  /** Only the first switch had nothing to measure from. */
  ghost predicate Exact(run: seq<Event>, a: Accounts)
    requires run != []
  {
    Stamped(run, a) && Charged(run, a.runtimes) && Counted(run, a.stats)
  }

  lemma NextPidsStep(run: seq<Event>, e: Event)
    ensures NextPids(run + [e]) == NextPids(run) + {e.next}
  {
    assert (run + [e])[..|run|] == run;
  }

  lemma RoomForPid(keys: map<U32, U64>, pids: set<U32>, pid: U32)
    requires keys.Keys <= pids && |pids + {pid}| <= CAPACITY
    ensures HasRoom(keys, pid, CAPACITY)
  {
    SmallerSet(keys.Keys, pids);
    SmallerSet(pids, pids + {pid});
    assert |keys| == |keys.Keys|;
    if pid !in keys { SmallerSet(keys.Keys, pids + {pid}); }
  }

  lemma OwnTimeStep(run: seq<Event>, e: Event, pid: U32)
    requires run != []
    ensures OwnTime(run + [e], pid) == OwnTime(run, pid) + if e.prev == pid then e.now - run[|run| - 1].now else 0
  {
    assert (run + [e])[..|run|] == run;
  }

  lemma RunStep(run: seq<Event>, e: Event)
    ensures Run(run + [e]) == Run(run).Switched(e)
  {
    assert (run + [e])[..|run|] == run;
  }

  lemma StampedStep(run: seq<Event>, a: Accounts, e: Event)
    requires run != [] && Stamped(run, a) && |NextPids(run + [e])| <= CAPACITY
    ensures Stamped(run + [e], a.Switched(e))
  {
    NextPidsStep(run, e);
    RoomForPid(a.times, NextPids(run), e.next);
  }

  lemma MeasuresGap(run: seq<Event>, a: Accounts, e: Event)
    requires run != [] && Stamped(run, a)
    requires e.prev == run[|run| - 1].next && run[|run| - 1].now <= e.now
    ensures !a.Skips(e) && a.Delta(e) == e.now - run[|run| - 1].now
  {
  }

  /** The running pid has room in the accounts. */
  lemma RoomForRunning(run: seq<Event>, runtimes: map<U32, U64>, e: Event)
    requires run != [] && runtimes.Keys <= NextPids(run) && |NextPids(run + [e])| <= CAPACITY
    requires e.prev in NextPids(run)
    ensures HasRoom(runtimes, e.prev, CAPACITY) && NextPids(run) <= NextPids(run + [e])
  {
    NextPidsStep(run, e);
    assert NextPids(run) + {e.prev} == NextPids(run);
    SmallerSet(NextPids(run), NextPids(run + [e]));
    RoomForPid(runtimes, NextPids(run), e.prev);
  }

  /** Charging the interval to its pid keeps the accounts exact; no sum wraps. */
  lemma ChargedStep(run: seq<Event>, runtimes: map<U32, U64>, e: Event, total: int)
    requires run != [] && Charged(run, runtimes)
    requires e.prev in NextPids(run) && run[0].now <= run[|run| - 1].now <= e.now
    requires total == e.now - run[|run| - 1].now + if e.prev in runtimes then runtimes[e.prev] else 0
    ensures 0 <= total < TWO_TO_64
    ensures Charged(run + [e], runtimes[e.prev := total])
  {
    NextPidsStep(run, e);
    if e.prev in runtimes { MemberAtMostSum(runtimes, e.prev); } else { SumNonNegative(runtimes); }
    SumUpdate(runtimes, e.prev, total);
    var after: map<U32, U64> := runtimes[e.prev := total];
    assert Sum(after) == Sum(runtimes) + e.now - run[|run| - 1].now;
    forall pid ensures OwnTime(run + [e], pid) == if pid in after then after[pid] else 0 {
      OwnTimeStep(run, e, pid);
    }
  }

  /** Charging the time since the previous switch keeps the accounts exact. */
  lemma RightCharge(run: seq<Event>, a: Accounts, e: Event)
    requires run != [] && Charged(run, a.runtimes) && !a.Skips(e) && e.prev in NextPids(run)
    requires a.Delta(e) == e.now - run[|run| - 1].now
    ensures Charged(run + [e], a.runtimes[e.prev := a.NewTotal(e)])
  {
    var total := a.Delta(e) + if e.prev in a.runtimes then a.runtimes[e.prev] else 0;
    assert run[0].now <= run[|run| - 1].now by { SumNonNegative(a.runtimes); }
    ChargedStep(run, a.runtimes, e, total);
    assert a.NewTotal(e) == total by { WrapShort(total); }
  }

  lemma ChargedSwitch(run: seq<Event>, a: Accounts, e: Event)
    requires run != [] && Charged(run, a.runtimes) && |NextPids(run + [e])| <= CAPACITY
    requires e.prev == run[|run| - 1].next && !a.Skips(e) && a.Delta(e) == e.now - run[|run| - 1].now
    ensures Charged(run + [e], a.Switched(e).runtimes)
  {
    assert e.prev in NextPids(run);
    RoomForRunning(run, a.runtimes, e);
    RightCharge(run, a, e);
  }

  lemma CountedStep(run: seq<Event>, a: Accounts, e: Event)
    requires run != [] && Counted(run, a.stats) && !a.Skips(e)
    ensures Counted(run + [e], a.Switched(e).stats)
  {
    var n := |run| - 1;
    assert Wrap64(Wrap64(n) + 1) == Wrap64(n + 1);
  }

  lemma ExactStep(run: seq<Event>, a: Accounts, e: Event)
    requires run != [] && Exact(run, a) && |NextPids(run + [e])| <= CAPACITY
    requires e.prev == run[|run| - 1].next && run[0].now <= run[|run| - 1].now <= e.now
    ensures Exact(run + [e], a.Switched(e))
  {
    StampedStep(run, a, e);
    MeasuresGap(run, a, e);
    ChargedSwitch(run, a, e);
    CountedStep(run, a, e);
  }

  lemma FirstSwitch(e: Event)
    ensures Exact([e], EMPTY.Switched(e))
  {
    assert [e][0].next in NextPids([e]);
    assert NextPids([e]) == {e.next};
  }

  lemma FirstRun(e: Event)
    ensures Exact([e], Run([e]))
  {
    assert [e][..0] == [];
    FirstSwitch(e);
  }

  lemma ExtendedRun(run: seq<Event>, e: Event)
    requires run != [] && Exact(run, Run(run)) && |NextPids(run + [e])| <= CAPACITY
    requires e.prev == run[|run| - 1].next && run[0].now <= run[|run| - 1].now <= e.now
    ensures Exact(run + [e], Run(run + [e]))
  {
    RunStep(run, e);
    ExactStep(run, Run(run), e);
  }

  lemma {:induction false} ChainedTimes(run: seq<Event>, i: nat)
    requires Chained(run) && i < |run|
    ensures run[0].now <= run[i].now
  {
    if i > 0 { ChainedTimes(run, i - 1); }
  }

  lemma ChainedInit(g: seq<Event>, e: Event)
    requires g != [] && Chained(g + [e]) && |NextPids(g + [e])| <= CAPACITY
    ensures Chained(g) && |NextPids(g)| <= CAPACITY
    ensures e.prev == g[|g| - 1].next && g[0].now <= g[|g| - 1].now <= e.now
  {
    var run := g + [e];
    forall i | 0 < i < |g| ensures g[i].prev == g[i - 1].next && g[i - 1].now <= g[i].now {
      assert run[i].prev == run[i - 1].next && run[i - 1].now <= run[i].now;
    }
    assert run[|g|].prev == run[|g| - 1].next && run[|g| - 1].now <= run[|g|].now;
    ChainedTimes(g, |g| - 1);
    NextPidsStep(g, e);
    SmallerSet(NextPids(g), NextPids(run));
  }

  /** The main result: over any chained run with at most sixteen pids, from empty maps, the
      recorded times add up to the whole span and each pid holds exactly its own intervals. */
  lemma {:induction false} ChainedRunIsExact(run: seq<Event>)
    requires run != [] && Chained(run) && |NextPids(run)| <= CAPACITY
    ensures Exact(run, Run(run))
  {
    var n := |run| - 1;
    var g, e := run[..n], run[n];
    assert run == g + [e];
    if n == 0 {
      assert run == [e];
      FirstRun(e);
    } else {
      ChainedInit(g, e);
      ChainedRunIsExact(g);
      ExtendedRun(g, e);
    }
  }

  // ----- what the conditions exclude ----------------------------------------------------

  lemma {:induction false} StampsAreNextPids(run: seq<Event>)
    ensures Run(run).times.Keys <= NextPids(run) && |Run(run).times| <= CAPACITY
    ensures |NextPids(run)| <= CAPACITY ==> Run(run).times.Keys == NextPids(run)
  {
    if run != [] {
      var n := |run| - 1;
      var g := run[..n];
      assert run == g + [run[n]];
      StampsAreNextPids(g);
      NextPidsStep(g, run[n]);
      SmallerSet(NextPids(g), NextPids(run));
      var a := Run(g);
      if |NextPids(run)| <= CAPACITY { RoomForPid(a.times, NextPids(g), run[n].next); }
      assert |a.times| == |a.times.Keys|;
      assert |Run(run).times| == |Run(run).times.Keys|;
    }
  }

  /** For any run whatever: every pid that was switched in has a stamp iff there are at most
      sixteen of them. */
  lemma AllStampedIff(run: seq<Event>)
    ensures Run(run).times.Keys == NextPids(run) <==> |NextPids(run)| <= 16
  {
    StampsAreNextPids(run);
    assert |Run(run).times| == |Run(run).times.Keys|;
  }

  /** Pid 1 is switched in once and out twice. */
  function Unchained(): seq<Event> { [Event(9, 1, 0), Event(1, 2, 10), Event(1, 3, 20)] }

  lemma UnchainedRun()
    ensures Run(Unchained()).runtimes == map[1 := 30]
  {
    var run := Unchained();
    var a := EMPTY.Switched(run[0]);
    RunStep([], run[0]);
    assert [] + [run[0]] == [run[0]];
    assert a.times == map[1 := 0] && a.runtimes == map[];
    var b := a.Switched(run[1]);
    RunStep([run[0]], run[1]);
    assert [run[0]] + [run[1]] == [run[0], run[1]];
    assert b.times == map[1 := 0, 2 := 10] && b.runtimes == map[1 := 10];
    RunStep([run[0], run[1]], run[2]);
    assert [run[0], run[1]] + [run[2]] == run;
    assert b.NewTotal(run[2]) == 30;
  }

  lemma UnchainedPids()
    ensures NextPids(Unchained()) == {1, 2, 3}
  {
    var run := Unchained();
    assert run[..2] == [run[0], run[1]] && run[..2][..1] == [run[0]] && run[..2][..1][..0] == [];
    assert NextPids(run[..2][..1]) == {1};
  }

  /** Without the chain the accounts exceed the time that has passed. */
  lemma UnchainedOvercounts()
    ensures !Chained(Unchained()) && |NextPids(Unchained())| <= CAPACITY
    ensures Sum(Run(Unchained()).runtimes) == 30 > Unchained()[2].now - Unchained()[0].now
  {
    var run := Unchained();
    assert !Chained(run) by { assert run[2].prev != run[1].next; }
    UnchainedRun();
    SumRemove(map[1 := 30], 1);
    assert map[1 := 30] - {1} == map[];
    assert |NextPids(run)| <= CAPACITY by { UnchainedPids(); }
  }
}
