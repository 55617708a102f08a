/**
 Exactly when the scheduler's accounts are right, for every run there is.  A switch is charged the
 time since its pid was last stamped; the accounts are exact after every switch iff that is always
 the time since the previous switch.  A chained run is one case of this.
 */
module SchedExact {
  import opened Wrappers
  import opened BpfMap
  import opened FiniteSets
  import opened MapSum
  import opened SchedRuntime

  /** The switch leaves a pid that was stamped when the previous switch happened; one that is passed
      over leaves no time uncharged. */
  predicate OnTime(a: Accounts, previous: U64, e: Event) {
    previous == if a.Skips(e) then e.now else a.times[e.prev]
  }

  ghost predicate AlwaysOnTime(run: seq<Event>) {
    var n := |run| - 1;
    n <= 0 || (AlwaysOnTime(run[..n]) && OnTime(Run(run[..n]), run[n - 1].now, run[n]))
  }

  /** After every switch each pid holds its own running time and the accounts add up to the span. */
  ghost predicate AlwaysCharged(run: seq<Event>) {
    run == [] || (AlwaysCharged(run[..|run| - 1]) && Charged(run, Run(run).runtimes))
  }

  // ----- a charge is never refused ------------------------------------------------------

  lemma {:induction false} ChargedAreStamped(run: seq<Event>)
    ensures Run(run).runtimes.Keys <= Run(run).times.Keys
  {
    if run != [] { ChargedAreStamped(run[..|run| - 1]); }
  }

  /** Only stamped pids are charged, so the accounts never run out of room before the stamps do. */
  lemma ChargeNeverRefused(run: seq<Event>, e: Event)
    requires !Run(run).Skips(e)
    ensures HasRoom(Run(run).runtimes, e.prev, CAPACITY) && e.prev in NextPids(run)
  {
    var a := Run(run);
    ChargedAreStamped(run);
    StampsAreNextPids(run);
    assert |a.times| == |a.times.Keys|;
    assert a.times.Keys + {e.prev} == a.times.Keys;
    RoomForPid(a.runtimes, a.times.Keys, e.prev);
  }

  lemma OneMoreCounted(a: Accounts, e: Event)
    requires a.stats.processed + a.stats.passed + 1 < TWO_TO_64
    ensures a.Switched(e).stats.processed + a.Switched(e).stats.passed == a.stats.processed + a.stats.passed + 1
  {
    WrapShort(a.stats.processed + 1);
    WrapShort(a.stats.passed + 1);
  }

  /** The statistics after a switch, by the maps: its two pids and its time; and, if its pid was stamped
      by then, how long that was ago and what the accounts now hold for the pid. */
  ghost predicate Describes(a: Accounts, b: Accounts, e: Event) {
    && b.stats.lastPrevPid == e.prev && b.stats.lastNextPid == e.next && b.stats.lastNextTs == e.now
    && (if e.prev in a.times && a.times[e.prev] <= e.now then
          && b.stats.lastEventPid == e.prev && b.stats.lastDelta == e.now - a.times[e.prev]
          && e.prev in b.runtimes && b.stats.lastRuntime == b.runtimes[e.prev]
          && b.stats.processed == Wrap64(a.stats.processed + 1) && b.stats.passed == a.stats.passed
        else
          && b.stats.lastEventPid == b.stats.lastDelta == b.stats.lastRuntime == 0
          && b.stats.processed == a.stats.processed && b.stats.passed == Wrap64(a.stats.passed + 1))
  }

  lemma StatsOfSwitch(a: Accounts, e: Event)
    requires !a.Skips(e) ==> HasRoom(a.runtimes, e.prev, CAPACITY)
    ensures Describes(a, a.Switched(e), e)
  {
  }

  lemma StatsAfterSwitch(run: seq<Event>, e: Event)
    ensures Describes(Run(run), Run(run + [e]), e)
  {
    RunStep(run, e);
    if !Run(run).Skips(e) { ChargeNeverRefused(run, e); }
    StatsOfSwitch(Run(run), e);
  }

  /** Every switch is counted once. */
  lemma {:induction false} EverySwitchCounted(run: seq<Event>)
    requires |run| < TWO_TO_64
    ensures Run(run).stats.processed + Run(run).stats.passed == |run|
  {
    if run != [] {
      var n := |run| - 1;
      EverySwitchCounted(run[..n]);
      OneMoreCounted(Run(run[..n]), run[n]);
    }
  }

  // ----- one switch ---------------------------------------------------------------------

  /** An uncharged switch keeps the accounts exact iff no time has passed. */
  lemma UnchargedSwitch(run: seq<Event>, runtimes: map<U32, U64>, e: Event)
    requires run != [] && Charged(run, runtimes)
    ensures Charged(run + [e], runtimes) <==> e.now == run[|run| - 1].now
  {
    NextPidsStep(run, e);
    if e.now == run[|run| - 1].now {
      forall pid ensures OwnTime(run + [e], pid) == OwnTime(run, pid) { OwnTimeStep(run, e, pid); }
    }
  }

  lemma WrongSum(runtimes: map<U32, U64>, pid: U32, delta: U64, total: U64, gap: int)
    requires total == Wrap64(delta + if pid in runtimes then runtimes[pid] else 0)
    requires delta != gap && delta - TWO_TO_64 < gap
    ensures Sum(runtimes[pid := total]) != Sum(runtimes) + gap
  {
    SumUpdate(runtimes, pid, total);
  }

  /** A charge other than the time since the previous switch breaks the sum, even if it wraps. */
  lemma WrongCharge(run: seq<Event>, a: Accounts, e: Event)
    requires run != [] && Charged(run, a.runtimes) && !a.Skips(e)
    requires a.Delta(e) != e.now - run[|run| - 1].now
    ensures !Charged(run + [e], a.runtimes[e.prev := a.NewTotal(e)])
  {
    WrongSum(a.runtimes, e.prev, a.Delta(e), a.NewTotal(e), e.now - run[|run| - 1].now);
  }

  lemma MeasuredSwitch(run: seq<Event>, a: Accounts, e: Event)
    requires run != [] && Charged(run, a.runtimes) && !a.Skips(e) && e.prev in NextPids(run)
    ensures Charged(run + [e], a.runtimes[e.prev := a.NewTotal(e)]) <==> a.Delta(e) == e.now - run[|run| - 1].now
  {
    if a.Delta(e) == e.now - run[|run| - 1].now {
      RightCharge(run, a, e);
    } else {
      WrongCharge(run, a, e);
    }
  }

  /** One switch keeps the accounts exact iff it is on time. */
  lemma ExactIffOnTime(run: seq<Event>, e: Event)
    requires run != [] && Charged(run, Run(run).runtimes)
    ensures Charged(run + [e], Run(run).Switched(e).runtimes) <==> OnTime(Run(run), run[|run| - 1].now, e)
  {
    if Run(run).Skips(e) {
      UnchargedSwitch(run, Run(run).runtimes, e);
    } else {
      ChargeNeverRefused(run, e);
      MeasuredSwitch(run, Run(run), e);
    }
  }

  // ----- whole runs ---------------------------------------------------------------------

  lemma SplitRun(g: seq<Event>, e: Event)
    requires g != []
    ensures AlwaysCharged(g + [e]) <==> AlwaysCharged(g) && Charged(g + [e], Run(g).Switched(e).runtimes)
    ensures AlwaysOnTime(g + [e]) <==> AlwaysOnTime(g) && OnTime(Run(g), g[|g| - 1].now, e)
  {
    assert (g + [e])[..|g|] == g;
  }

  lemma OneSwitch(e: Event)
    ensures AlwaysCharged([e]) && AlwaysOnTime([e])
  {
    FirstRun(e);
    assert [e][..0] == [];
  }

  /** The exact condition, over every run whatever its clock, its pids and their number: the accounts
      are exact after every switch iff every switch is on time. */
  lemma {:induction false} AlwaysExactIff(run: seq<Event>)
    ensures AlwaysCharged(run) <==> AlwaysOnTime(run)
  {
    if |run| == 1 {
      assert run == [run[0]];
      OneSwitch(run[0]);
    } else if |run| > 1 {
      var n := |run| - 1;
      var g, e := run[..n], run[n];
      assert run == g + [e];
      AlwaysExactIff(g);
      SplitRun(g, e);
      if AlwaysCharged(g) { ExactIffOnTime(g, e); }
    }
  }

  // ----- what the stamps say ------------------------------------------------------------

  /** When the pid was last switched in. */
  ghost function LastIn(run: seq<Event>, pid: U32): Option<U64> {
    if run == [] then None
    else
      var last := run[|run| - 1];
      if last.next == pid then Some(last.now) else LastIn(run[..|run| - 1], pid)
  }

  lemma FitsInit(g: seq<Event>, e: Event)
    requires |NextPids(g + [e])| <= CAPACITY
    ensures |NextPids(g)| <= CAPACITY
  {
    NextPidsStep(g, e);
    SmallerSet(NextPids(g), NextPids(g + [e]));
  }

  /** With at most sixteen pids the stamps are the times of the last switches in. */
  lemma {:induction false} StampsAreLastIn(run: seq<Event>, pid: U32)
    requires |NextPids(run)| <= CAPACITY
    ensures LastIn(run, pid) == if pid in Run(run).times then Some(Run(run).times[pid]) else None
    ensures LastIn(run, pid).Some? <==> pid in NextPids(run)
  {
    if run != [] {
      var n := |run| - 1;
      var g, e := run[..n], run[n];
      assert run == g + [e];
      FitsInit(g, e);
      StampsAreLastIn(g, pid);
      NextPidsStep(g, e);
      StampsAreNextPids(g);
      RoomForPid(Run(g).times, NextPids(g), e.next);
      RunStep(g, e);
    }
  }

  lemma LeavesLastNext(g: seq<Event>, e: Event)
    requires g != [] && |NextPids(g)| <= CAPACITY
    requires e.prev == g[|g| - 1].next && g[|g| - 1].now <= e.now
    ensures OnTime(Run(g), g[|g| - 1].now, e)
  {
    StampsAreLastIn(g, e.prev);
  }

  /** A chained run of at most sixteen pids is always on time. */
  lemma {:induction false} ChainedIsOnTime(run: seq<Event>)
    requires Chained(run) && |NextPids(run)| <= CAPACITY
    ensures AlwaysOnTime(run)
  {
    if |run| > 1 {
      var n := |run| - 1;
      var g, e := run[..n], run[n];
      assert run == g + [e];
      FitsInit(g, e);
      ChainedIsOnTime(g);
      assert e.prev == run[n - 1].next && run[n - 1].now <= e.now;
      LeavesLastNext(g, e);
      SplitRun(g, e);
    }
  }
}
