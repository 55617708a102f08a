/**
 The observer over all CPUs.  Its map of slots is per CPU: an event reaches only the copy of the CPU
 it happens on.  A copy is exact for the events of its own CPU, and so it never sees a second one:
 whatever the configuration, every report says that the process is limited to few CPUs.
 */
module CpuWatch {
  import opened FiniteSets
  import opened BpfMap
  import opened CpuObserver

  datatype Cpu = Cpu(number: bv32)

  /** The copies a per-CPU map keeps of one slot; those that are not listed are zeroed. */
  type Copies = map<Cpu, Slot>

  function CopyOf(copies: Copies, cpu: bv32): Slot {
    if Cpu(cpu) in copies then copies[Cpu(cpu)] else ZEROED
  }

  datatype Watch = Watch(slots: map<U32, Copies>, published: Published) {
    /** An event reaches only the copy of its own CPU, and only if the target has a slot. */
    ghost function Handled(c: Config, e: Event): Watch {
      if !Relevant(c, e) || c.targetPid !in slots then this
      else
        var copies := slots[c.targetPid];
        var s := CopyOf(copies, e.cpu);
        Watch(slots[c.targetPid := copies[Cpu(e.cpu) := Advanced(s, e)]],
              if Rolls(s, e) then Report(c, s, e) else published)
    }
  }

  class Observer {
    const config: Config
    var slots: map<U32, Copies>
    var published: Published

    ghost function View(): Watch
      reads this
    {
      Watch(slots, published)
    }

    constructor (config: Config, slots: map<U32, Copies>)
      ensures this.config == config && View() == Watch(slots, NOTHING)
    {
      this.config, this.slots, published := config, slots, NOTHING;
    }

    /** The judgement of a rate and a number of CPUs. */
    method Judge(rate: U32, allowed: nat) returns (contention: Contention)
      ensures contention == Judged(config, rate, allowed)
    {
      var saturation := if config.saturationHz != 0 then config.saturationHz else SATURATION_HZ;
      var limited := if config.limitedCpus != 0 then config.limitedCpus else LIMITED_CPUS;
      contention := NoContention;
      if allowed <= limited {
        contention := CpusetLimited;
      } else if rate >= saturation {
        contention := Saturation;
      }
    }

    /** The report of an event that finds the window of the slot a second old. */
    method Close(s: Slot, e: Event, mask: bv32, elapsed: U64) returns (report: Published)
      requires Rolls(s, e) && mask == EarlyMask(s, e) && elapsed == Elapsed(s, e)
      ensures report == Report(config, s, e)
    {
      var rate64 := Quotient(Wrap64(s.switches * WINDOW_NS), elapsed);
      var rate: U32 := if rate64 > TWO_TO_32 - 1 then TWO_TO_32 - 1 else rate64;
      var allowed := Popcount32(mask);
      var contention := Judge(rate, allowed);
      report := Published(e.now, rate, allowed, contention);
    }

    /** The slot after the event, and what is then published. */
    method Advance(s: Slot, e: Event) returns (next: Slot, report: Published)
      ensures next == Advanced(s, e)
      ensures report == if Rolls(s, e) then Report(config, s, e) else published
    {
      var Slot(start, switches, mask) := s;
      if e.prevPid < 0 { mask := Record(mask, e.cpu); }
      var elapsed := Wrap64(e.now - start);
      if elapsed >= WINDOW_NS {
        report := Close(s, e, mask, elapsed);
        next := Slot(e.now, 1, CpuBit(e.cpu));
      } else {
        report := published;
        next := Slot(start, Wrap32(switches + 1), Record(mask, e.cpu));
      }
    }

    method SchedSwitch(e: Event)
      modifies this
      ensures View() == old(View()).Handled(config, e)
    {
      var target := config.targetPid;
      if target == 0 { return; }
      if !(e.tgid == target || Wrap32(e.prevPid) == target || Wrap32(e.nextPid) == target) { return; }
      if target !in slots { return; }
      var copies := slots[target];
      var next, report := Advance(CopyOf(copies, e.cpu), e);
      slots, published := slots[target := copies[Cpu(e.cpu) := next]], report;
    }
  }

  // ----- whole runs over all CPUs -------------------------------------------------------

  ghost function Run(c: Config, w: Watch, h: seq<Event>): Watch {
    if h == [] then w else Run(c, w, h[..|h| - 1]).Handled(c, h[|h| - 1])
  }

  /** The events that reach the copy of the CPU. */
  ghost function Reaching(c: Config, h: seq<Event>, cpu: bv32): seq<Event> {
    if h == [] then []
    else
      var e := h[|h| - 1];
      Reaching(c, h[..|h| - 1], cpu) + if Relevant(c, e) && e.cpu == cpu then [e] else []
  }

  /** The copy of the CPU in the slot of the target. */
  ghost function Own(c: Config, w: Watch, cpu: bv32): Slot
    requires c.targetPid in w.slots
  {
    CopyOf(w.slots[c.targetPid], cpu)
  }

  lemma SlotRunStep(s: Slot, h: seq<Event>, e: Event)
    ensures SlotRun(s, h + [e]) == Advanced(SlotRun(s, h), e)
  {
    assert (h + [e])[..|h|] == h;
  }

  lemma OneCopyChanges(copies: Copies, cpu: bv32, s: Slot, other: bv32)
    ensures CopyOf(copies[Cpu(cpu) := s], other) == if cpu == other then s else CopyOf(copies, other)
  {
  }

  lemma HandledCopy(c: Config, w: Watch, e: Event, cpu: bv32)
    requires c.targetPid in w.slots
    ensures c.targetPid in w.Handled(c, e).slots
    ensures Own(c, w.Handled(c, e), cpu) ==
      if Relevant(c, e) && e.cpu == cpu then Advanced(Own(c, w, cpu), e) else Own(c, w, cpu)
  {
    if Relevant(c, e) { OneCopyChanges(w.slots[c.targetPid], e.cpu, Advanced(Own(c, w, e.cpu), e), cpu); }
  }

  /** What a copy holds is decided by what it held at first and the events of its own CPU alone. */
  lemma {:induction false} CopyRunsAlone(c: Config, w: Watch, h: seq<Event>, cpu: bv32)
    requires c.targetPid in w.slots
    ensures c.targetPid in Run(c, w, h).slots
    ensures Own(c, Run(c, w, h), cpu) == SlotRun(Own(c, w, cpu), Reaching(c, h, cpu))
  {
    if h != [] {
      var n := |h| - 1;
      var own := Reaching(c, h[..n], cpu);
      CopyRunsAlone(c, w, h[..n], cpu);
      HandledCopy(c, Run(c, w, h[..n]), h[n], cpu);
      SlotRunStep(Own(c, w, cpu), own, h[n]);
      assert own + [] == own;
    }
  }

  /** A process id as the tracepoint gives it. */
  type Pid = x: int | -0x8000_0000 <= x < 0x8000_0000

  /** The id, taken as unsigned, is the target. */
  predicate Names(pid: Pid, target: U32) { pid == target || pid + 0x1_0000_0000 == target }

  lemma AdvanceChanges(s: Slot, e: Event)
    ensures Advanced(s, e) != s
  {
  }

  lemma WrapsToTarget(pid: Pid, target: U32)
    ensures Wrap32(pid) == target <==> Names(pid, target)
  {
  }

  lemma CopyChanges(copies: Copies, e: Event)
    ensures copies[Cpu(e.cpu) := Advanced(CopyOf(copies, e.cpu), e)] != copies
  {
    AdvanceChanges(CopyOf(copies, e.cpu), e);
  }

  /** An event changes the slots iff a target with a slot is configured and the current task, the
      process switched out or the one switched in is the target. */
  lemma SlotsChangeIff(c: Config, w: Watch, e: Event, prev: Pid, next: Pid)
    requires e.prevPid == prev && e.nextPid == next
    ensures w.Handled(c, e).slots != w.slots <==>
      && c.targetPid != 0 && c.targetPid in w.slots
      && (e.tgid == c.targetPid || Names(prev, c.targetPid) || Names(next, c.targetPid))
    ensures w.Handled(c, e).slots == w.slots ==> w.Handled(c, e) == w
  {
    WrapsToTarget(prev, c.targetPid);
    WrapsToTarget(next, c.targetPid);
    if Relevant(c, e) && c.targetPid in w.slots {
      CopyChanges(w.slots[c.targetPid], e);
      assert w.Handled(c, e).slots[c.targetPid] != w.slots[c.targetPid];
    }
  }

  /** The judgement under the defaults, which a zero stands for, and under configured limits. */
  lemma JudgementIs(target: U32, hz: U32, cpus: U32, rate: U32, allowed: nat)
    ensures var judged := Judged(Config(target, hz, cpus), rate, allowed);
      var few, often := if cpus == 0 then 4 else cpus, if hz == 0 then 2000 else hz;
      && (judged == CpusetLimited <==> allowed <= few)
      && (judged == Saturation <==> allowed > few && rate >= often)
      && (judged == NoContention <==> allowed > few && rate < often)
  {
  }

  /** The target has a slot that is zero on every CPU. */
  ghost predicate Fresh(c: Config, w: Watch) {
    c.targetPid in w.slots && forall cpu :: Own(c, w, cpu) == ZEROED
  }

  /** Over every run over any number of CPUs, the copy of a CPU stands for the current window of that
      CPU's events. */
  lemma RunReflects(c: Config, w: Watch, h: seq<Event>, cpu: bv32)
    requires Fresh(c, w)
    requires Monotone(Reaching(c, h, cpu)) && WindowsFit(Reaching(c, h, cpu))
    ensures c.targetPid in Run(c, w, h).slots
    ensures Reflects(Own(c, Run(c, w, h), cpu), Reaching(c, h, cpu))
  {
    CopyRunsAlone(c, w, h, cpu);
    SlotReflects(Reaching(c, h, cpu));
  }

  // ----- a copy sees one CPU ------------------------------------------------------------

  ghost predicate AllOn(h: seq<Event>, cpu: bv32) {
    forall i :: 0 <= i < |h| ==> h[i].cpu == cpu
  }

  lemma {:induction false} ReachingIsOn(c: Config, h: seq<Event>, cpu: bv32)
    ensures AllOn(Reaching(c, h, cpu), cpu)
  {
    if h != [] { ReachingIsOn(c, h[..|h| - 1], cpu); }
  }

  /** Some event of the run has closed a window of the slot. */
  ghost predicate HasRolled(s: Slot, h: seq<Event>) {
    h != [] && (HasRolled(s, h[..|h| - 1]) || Rolls(SlotRun(s, h[..|h| - 1]), h[|h| - 1]))
  }

  /** The CPUs the mask held at first, of which none is left once a window has been closed. */
  ghost function Left(s: Slot, h: seq<Event>): set<bv32> {
    if HasRolled(s, h) then {} else Bits(s.mask)
  }

  lemma MaskAfter(s: Slot, e: Event)
    ensures Bits(Advanced(s, e).mask) == (if Rolls(s, e) then {} else Bits(s.mask)) + Cpus(e.cpu)
  {
    BitsOfOne(e.cpu);
    BitsOfUnion(s.mask, e.cpu);
    BitsOfUnion(EarlyMask(s, e), e.cpu);
  }

  lemma UnionTwice(a: set<bv32>, b: set<bv32>)
    ensures a + b + b == a + b && a + {} == a
  {
  }

  /** The mask of a slot that events of one CPU reach holds that CPU and what is left. */
  lemma {:induction false} MaskOfOneCpu(s: Slot, h: seq<Event>, cpu: bv32)
    requires AllOn(h, cpu)
    ensures Bits(SlotRun(s, h).mask) == Left(s, h) + if h == [] then {} else Cpus(cpu)
  {
    if h != [] {
      var g, e := h[..|h| - 1], h[|h| - 1];
      MaskOfOneCpu(s, g, cpu);
      MaskAfter(SlotRun(s, g), e);
      UnionTwice(Left(s, g), Cpus(cpu));
      assert e.cpu == cpu;
    }
  }

  /** The CPUs a report of the event counts: what is left, and its own unless it is the first event of
      its copy and has a previous process. */
  ghost function Seen(c: Config, w: Watch, h: seq<Event>, e: Event): set<bv32>
    requires c.targetPid in w.slots
  {
    Left(Own(c, w, e.cpu), Reaching(c, h, e.cpu)) +
    if Reaching(c, h, e.cpu) == [] && e.prevPid >= 0 then {} else Cpus(e.cpu)
  }

  lemma SeenInMask(s: Slot, h: seq<Event>, e: Event)
    requires AllOn(h, e.cpu)
    ensures Bits(EarlyMask(SlotRun(s, h), e)) == Left(s, h) + if h == [] && e.prevPid >= 0 then {} else Cpus(e.cpu)
  {
    MaskOfOneCpu(s, h, e.cpu);
    EarlyBits(SlotRun(s, h), e);
    UnionTwice(Left(s, h), Cpus(e.cpu));
  }

  /** A relevant event publishes exactly when its own copy's window is a second old, and then the rate
      of that copy, the number of CPUs seen in it, and the judgement of the two. */
  lemma PublishedBy(c: Config, w: Watch, h: seq<Event>, e: Event)
    requires c.targetPid in w.slots && Relevant(c, e)
    ensures var s, allowed := SlotRun(Own(c, w, e.cpu), Reaching(c, h, e.cpu)), |Seen(c, w, h, e)|;
      Run(c, w, h + [e]).published ==
        if Rolls(s, e) then Published(e.now, Rate(s, e), allowed, Judged(c, Rate(s, e), allowed))
        else Run(c, w, h).published
  {
    assert (h + [e])[..|h|] == h;
    CopyRunsAlone(c, w, h, e.cpu);
    ReachingIsOn(c, h, e.cpu);
    SeenInMask(Own(c, w, e.cpu), Reaching(c, h, e.cpu), e);
  }

  // ----- from zeroed slots --------------------------------------------------------------

  lemma OneCpu(cpu: bv32)
    ensures |Cpus(cpu)| == if cpu < 32 then 1 else 0
  {
  }

  /** One, or none for a CPU without a bit and for the first event of its copy unless that has no
      previous process. */
  ghost function SeenBy(c: Config, h: seq<Event>, e: Event): nat {
    if e.cpu < 32 && (e.prevPid < 0 || Reaching(c, h, e.cpu) != []) then 1 else 0
  }

  lemma SeenFromZero(c: Config, w: Watch, h: seq<Event>, e: Event)
    requires Fresh(c, w)
    ensures |Seen(c, w, h, e)| == SeenBy(c, h, e)
  {
    NoBitsBelow(32);
    assert Left(Own(c, w, e.cpu), Reaching(c, h, e.cpu)) == {};
    OneCpu(e.cpu);
  }

  lemma FewCpusAreLimited(c: Config, rate: U32, allowed: nat)
    ensures Judged(c, rate, allowed) == CpusetLimited <==> allowed <= Limit(c)
    ensures 1 <= Limit(c)
  {
  }

  /** The main result: the event that closes a window of its CPU publishes exactly the number of that
      CPU's events since the window opened, per second and rounded down. */
  lemma PublishedReport(c: Config, w: Watch, h: seq<Event>, e: Event)
    requires Fresh(c, w) && Relevant(c, e)
    requires Monotone(Reaching(c, h, e.cpu) + [e]) && WindowsFit(Reaching(c, h, e.cpu))
    ensures var own, report := Reaching(c, h, e.cpu), Run(c, w, h + [e]).published;
      if e.now - StartOf(own) < WINDOW_NS then report == Run(c, w, h).published
      else
        && report.timestamp == e.now
        && report.rate == WindowRate(own, e) <= |Window(own)|
        && report.allowed == SeenBy(c, h, e)
        && report.contention == CpusetLimited
  {
    PublishedBy(c, w, h, e);
    SeenFromZero(c, w, h, e);
    FewCpusAreLimited(c, Run(c, w, h + [e]).published.rate, SeenBy(c, h, e));
    SlotRateIsExact(Reaching(c, h, e.cpu), e);
  }

  /** Whatever the configuration, the clock and the counts: every report ever published says that the
      process is limited to few CPUs, and names at most one. */
  lemma {:induction false} OnlyLimitedIsReported(c: Config, w: Watch, h: seq<Event>)
    requires Fresh(c, w)
    ensures var report := Run(c, w, h).published;
      report == w.published || (report.contention == CpusetLimited && report.allowed <= 1)
  {
    if h != [] {
      var n := |h| - 1;
      OnlyLimitedIsReported(c, w, h[..n]);
      assert h == h[..n] + [h[n]];
      if Relevant(c, h[n]) {
        PublishedBy(c, w, h[..n], h[n]);
        SeenFromZero(c, w, h[..n], h[n]);
        FewCpusAreLimited(c, Run(c, w, h).published.rate, SeenBy(c, h[..n], h[n]));
      }
    }
  }

  // ----- from any slots -----------------------------------------------------------------

  /** After the run the event publishes a report. */
  ghost predicate Reports(c: Config, w: Watch, h: seq<Event>, e: Event)
    requires c.targetPid in w.slots
  {
    Relevant(c, e) && Rolls(SlotRun(Own(c, w, e.cpu), Reaching(c, h, e.cpu)), e)
  }

  /** The mask the copy of the CPU held at first, and the CPU. */
  ghost function Widest(c: Config, w: Watch, cpu: bv32): set<bv32>
    requires c.targetPid in w.slots
  {
    Bits(Own(c, w, cpu).mask) + Cpus(cpu)
  }

  /** Once a copy has closed a window, its reports name at most its own CPU. */
  lemma LaterReportsNameOne(c: Config, w: Watch, h: seq<Event>, e: Event)
    requires c.targetPid in w.slots && HasRolled(Own(c, w, e.cpu), Reaching(c, h, e.cpu))
    ensures |Seen(c, w, h, e)| <= 1
  {
    OneCpu(e.cpu);
    SmallerSet(Seen(c, w, h, e), Cpus(e.cpu));
  }

  /** An event without a previous process that comes when the copy's first window is a second old. */
  function FirstClosing(c: Config, s: Slot, cpu: bv32): Event {
    Event(c.targetPid, -1, 0, Wrap64(s.windowStart + WINDOW_NS), cpu)
  }

  lemma FirstClosingReports(c: Config, w: Watch, cpu: bv32)
    requires c.targetPid in w.slots && c.targetPid != 0
    ensures var e := FirstClosing(c, Own(c, w, cpu), cpu);
      Reports(c, w, [], e) && Seen(c, w, [], e) == Widest(c, w, cpu)
  {
    var start: nat := Own(c, w, cpu).windowStart;
    assert Wrap64(Wrap64(start + WINDOW_NS) - start) == WINDOW_NS;
  }

  lemma ReportAtMostWidest(c: Config, w: Watch, h: seq<Event>, e: Event)
    requires c.targetPid in w.slots && Reports(c, w, h, e)
    ensures Run(c, w, h + [e]).published.allowed <= |Widest(c, w, e.cpu)|
  {
    PublishedBy(c, w, h, e);
    SmallerSet(Seen(c, w, h, e), Widest(c, w, e.cpu));
  }

  lemma WidestReported(c: Config, w: Watch, cpu: bv32) returns (e: Event)
    requires c.targetPid in w.slots && c.targetPid != 0
    ensures Reports(c, w, [], e) && Run(c, w, [] + [e]).published.allowed == |Widest(c, w, cpu)|
  {
    e := FirstClosing(c, Own(c, w, cpu), cpu);
    FirstClosingReports(c, w, cpu);
    PublishedBy(c, w, [], e);
  }

  /** From any slots: a number bounds the CPUs that the reports of every run name iff it bounds those
      of every copy's first mask, with its own CPU. */
  lemma ReportsAtMostIff(c: Config, w: Watch, most: nat)
    requires c.targetPid in w.slots && c.targetPid != 0
    ensures (forall h, e :: Reports(c, w, h, e) ==> Run(c, w, h + [e]).published.allowed <= most) <==>
      (forall cpu :: |Widest(c, w, cpu)| <= most)
  {
    forall h, e | Reports(c, w, h, e)
      ensures Run(c, w, h + [e]).published.allowed <= |Widest(c, w, e.cpu)|
    {
      ReportAtMostWidest(c, w, h, e);
    }
    forall cpu
      ensures exists e :: Reports(c, w, [], e) && Run(c, w, [] + [e]).published.allowed == |Widest(c, w, cpu)|
    {
      var e := WidestReported(c, w, cpu);
    }
  }

  /** Every report of every run says limited iff no copy's first mask, with its own CPU, exceeds the
      configured limit. */
  lemma AlwaysLimitedIff(c: Config, w: Watch)
    requires c.targetPid in w.slots && c.targetPid != 0
    ensures (forall h, e :: Reports(c, w, h, e) ==> Run(c, w, h + [e]).published.contention == CpusetLimited) <==>
      (forall cpu :: |Widest(c, w, cpu)| <= Limit(c))
  {
    forall h, e | Reports(c, w, h, e)
      ensures Run(c, w, h + [e]).published.contention == CpusetLimited <==>
        Run(c, w, h + [e]).published.allowed <= Limit(c)
    {
      PublishedBy(c, w, h, e);
      FewCpusAreLimited(c, Run(c, w, h + [e]).published.rate, |Seen(c, w, h, e)|);
    }
    ReportsAtMostIff(c, w, Limit(c));
  }
}
