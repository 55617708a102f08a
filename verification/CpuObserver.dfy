/**
 One slot of the rolling-window observer of scheduler switches: events are counted in it, and the
 event that finds the window a second old yields the rate and the number of CPUs seen, then opens
 the next window with itself.
 */
module CpuObserver {
  import opened BpfMap

  const WINDOW_NS: nat := 1_000_000_000
  const SATURATION_HZ: U32 := 2000
  const LIMITED_CPUS: U32 := 4

  datatype Contention = NoContention | Saturation | CpusetLimited

  datatype Config = Config(targetPid: U32, saturationHz: U32, limitedCpus: U32)
  datatype Slot = Slot(windowStart: U64, switches: U32, mask: bv32)
  datatype Published = Published(timestamp: U64, rate: U32, allowed: nat, contention: Contention)

  const NOTHING: Published := Published(0, 0, 0, NoContention)

  /** A switch as the tracepoint and the helpers describe it. */
  datatype Event = Event(tgid: U32, prevPid: int, nextPid: int, now: U64, cpu: bv32)

  // ----- CPU masks ----------------------------------------------------------------------

  predicate Bit(mask: bv32, b: bv32)
    requires b < 32
  {
    (mask >> b) & 1 == 1
  }

  function CpuBit(cpu: bv32): bv32 {
    if cpu < 32 then 1 << cpu else 0
  }

  function Record(mask: bv32, cpu: bv32): bv32 { mask | CpuBit(cpu) }

  /** The set bits below `n`. */
  ghost function BitsBelow(mask: bv32, n: bv32): set<bv32>
    requires n <= 32
    decreases n
  {
    if n == 0 then {} else BitsBelow(mask, n - 1) + if Bit(mask, n - 1) then {n - 1} else {}
  }

  ghost function Bits(mask: bv32): set<bv32> { BitsBelow(mask, 32) }

  lemma {:induction false} BitsBelowAre(mask: bv32, n: bv32)
    requires n <= 32
    ensures forall b :: b in BitsBelow(mask, n) <==> b < n && Bit(mask, b)
    decreases n
  {
    if n != 0 { BitsBelowAre(mask, n - 1); }
  }

  lemma BitOfUnion(mask: bv32, cpu: bv32, b: bv32)
    requires b < 32
    ensures Bit(Record(mask, cpu), b) <==> Bit(mask, b) || b == cpu
  {
  }

  lemma BelowStep(b: bv32, n: bv32)
    requires n != 0 && n <= 32
    ensures b < n <==> b < n - 1 || b == n - 1
  {
  }

  lemma {:induction false} BitsBelowUnion(mask: bv32, union: bv32, cpu: bv32, n: bv32)
    requires n <= 32
    requires forall b :: b < 32 ==> (Bit(union, b) <==> Bit(mask, b) || b == cpu)
    ensures BitsBelow(union, n) == BitsBelow(mask, n) + if cpu < n then {cpu} else {}
    decreases n
  {
    if n != 0 {
      var k := n - 1;
      BelowStep(cpu, n);
      BitsBelowUnion(mask, union, cpu, k);
      var extra: set<bv32> := if cpu < k then {cpu} else {};
      var low := BitsBelow(mask, k);
      assert BitsBelow(union, k) == low + extra;
      assert Bit(union, k) <==> Bit(mask, k) || k == cpu;
      if cpu == k {
        assert extra == {} && low + {k} == low + (if Bit(mask, k) then {k} else {}) + {cpu};
      } else {
        var here: set<bv32> := if Bit(mask, k) then {k} else {};
        assert low + extra + here == low + here + extra;
      }
    }
  }

  /** Recording a CPU adds it to the set the mask stands for. */
  lemma BitsOfUnion(mask: bv32, cpu: bv32)
    ensures Bits(Record(mask, cpu)) == Bits(mask) + Cpus(cpu)
  {
    forall b | b < 32 ensures Bit(Record(mask, cpu), b) <==> Bit(mask, b) || b == cpu {
      BitOfUnion(mask, cpu, b);
    }
    BitsBelowUnion(mask, Record(mask, cpu), cpu, 32);
  }

  lemma BitsOfOne(cpu: bv32)
    ensures Bits(CpuBit(cpu)) == Cpus(cpu)
  {
    NoBitsBelow(32);
    BitsOfUnion(0, cpu);
    assert Record(0, cpu) == CpuBit(cpu);
  }

  lemma {:induction false} NoBitsBelow(n: bv32)
    requires n <= 32
    ensures BitsBelow(0, n) == {}
    decreases n
  {
    if n != 0 { NoBitsBelow(n - 1); }
  }

  /** The CPUs an event can record: those a 32-bit mask has a bit for. */
  ghost function Cpus(cpu: bv32): set<bv32> {
    if cpu < 32 then {cpu} else {}
  }

  method Popcount32(value: bv32) returns (count: nat)
    ensures count == |Bits(value)|
  {
    count := 0;
    var bit: bv32 := 0;
    while bit < 32
      invariant bit <= 32 && count == |BitsBelow(value, bit)|
      decreases 32 - bit
    {
      BitsBelowAre(value, bit);
      count := count + if (value >> bit) & 1 == 1 then 1 else 0;
      assert bit + 1 - 1 == bit;
      bit := bit + 1;
    }
  }

  // ----- one event ----------------------------------------------------------------------

  predicate Relevant(c: Config, e: Event) {
    c.targetPid != 0 && (e.tgid == c.targetPid || Wrap32(e.prevPid) == c.targetPid || Wrap32(e.nextPid) == c.targetPid)
  }

  /** The mask when the window is looked at: an event without a previous process records first. */
  function EarlyMask(s: Slot, e: Event): bv32 {
    if e.prevPid < 0 then Record(s.mask, e.cpu) else s.mask
  }

  function Elapsed(s: Slot, e: Event): U64 { Wrap64(e.now - s.windowStart) }

  predicate Rolls(s: Slot, e: Event) { Elapsed(s, e) >= WINDOW_NS }

  function Advanced(s: Slot, e: Event): Slot {
    if Rolls(s, e) then Slot(e.now, 1, CpuBit(e.cpu))
    else Slot(s.windowStart, Wrap32(s.switches + 1), Record(EarlyMask(s, e), e.cpu))
  }

  /** Unsigned division. */
  function Quotient(x: nat, d: nat): (q: nat)
    requires d > 0
    ensures q <= x
  {
    if x < d then 0 else 1 + Quotient(x - d, d)
  }

  lemma {:induction false} QuotientBounds(x: nat, d: nat)
    requires d > 0
    ensures Quotient(x, d) * d <= x < Quotient(x, d) * d + d
  {
    if x >= d {
      QuotientBounds(x - d, d);
      assert Quotient(x, d) * d == Quotient(x - d, d) * d + d;
    }
  }

  lemma MulMonotone(a: nat, b: nat, d: nat)
    requires a <= b
    ensures a * d <= b * d
  {
    assert (b - a) * d >= 0;
  }

  lemma QuotientUnique(p: nat, q: nat, d: nat, r: nat, s: nat)
    requires r < d && s < d && p * d + r == q * d + s
    ensures p == q
  {
    if p < q { MulMonotone(p + 1, q, d); }
    if q < p { MulMonotone(q + 1, p, d); }
  }

  lemma QuotientIsDivision(x: nat, d: nat)
    requires d > 0
    ensures Quotient(x, d) == x / d
  {
    var q := Quotient(x, d);
    QuotientBounds(x, d);
    QuotientUnique(x / d, q, d, x % d, x - q * d);
  }

  /** The rate in 64 bits, and clamped to 32. */
  function Rate64(s: Slot, e: Event): U64
    requires Rolls(s, e)
  {
    Quotient(Wrap64(s.switches * WINDOW_NS), Elapsed(s, e))
  }

  function Rate(s: Slot, e: Event): U32
    requires Rolls(s, e)
  {
    if Rate64(s, e) > TWO_TO_32 - 1 then TWO_TO_32 - 1 else Rate64(s, e)
  }

  function Limit(c: Config): U32 { if c.limitedCpus != 0 then c.limitedCpus else LIMITED_CPUS }

  function Judged(c: Config, rate: U32, allowed: nat): Contention {
    if allowed <= Limit(c) then CpusetLimited
    else if rate >= (if c.saturationHz != 0 then c.saturationHz else SATURATION_HZ) then Saturation
    else NoContention
  }

  /** What a rolling event publishes. */
  ghost function Report(c: Config, s: Slot, e: Event): Published
    requires Rolls(s, e)
  {
    var allowed := |Bits(EarlyMask(s, e))|;
    Published(e.now, Rate(s, e), allowed, Judged(c, Rate(s, e), allowed))
  }

  // ----- one slot over the events that reach it -----------------------------------------

  const ZEROED: Slot := Slot(0, 0, 0)

  ghost function SlotRun(s: Slot, h: seq<Event>): Slot {
    if h == [] then s else Advanced(SlotRun(s, h[..|h| - 1]), h[|h| - 1])
  }

  ghost predicate Monotone(h: seq<Event>) {
    forall i, j :: 0 <= i <= j < |h| ==> h[i].now <= h[j].now
  }

  /** The position of the event that opened the current window, 0 before any did. */
  ghost function Opened(h: seq<Event>): (k: nat)
    ensures k <= |h|
  {
    if h == [] then 0
    else
      var n := |h| - 1;
      if h[n].now - StartOf(h[..n]) >= WINDOW_NS then n else Opened(h[..n])
  }

  /** When the current window began: the time of its opening event, 0 before any. */
  ghost function StartOf(h: seq<Event>): nat {
    if h == [] then 0
    else
      var n := |h| - 1;
      if h[n].now - StartOf(h[..n]) >= WINDOW_NS then h[n].now else StartOf(h[..n])
  }

  /** A window opens with the event at its start, or at time 0 with the run, and all its events
      come less than a second after that. */
  lemma {:induction false} WindowShape(h: seq<Event>)
    requires h != []
    ensures (Opened(h) == 0 && StartOf(h) == 0) || (Opened(h) < |h| && StartOf(h) == h[Opened(h)].now)
    ensures forall i :: Opened(h) <= i < |h| ==> h[i].now - StartOf(h) < WINDOW_NS
  {
    var n := |h| - 1;
    if n > 0 {
      WindowShape(h[..n]);
      assert forall i :: 0 <= i < n ==> h[..n][i] == h[i];
    } else {
      assert h[..0] == [];
    }
  }

  /** The events of the current window. */
  ghost function Window(h: seq<Event>): seq<Event> { h[Opened(h)..] }

  ghost function CpusOf(events: seq<Event>): set<bv32> {
    if events == [] then {} else CpusOf(events[..|events| - 1]) + Cpus(events[|events| - 1].cpu)
  }

  lemma {:induction false} StartAtMost(h: seq<Event>, n: nat)
    requires forall i :: 0 <= i < |h| ==> h[i].now <= n
    ensures StartOf(h) <= n
  {
    if h != [] { StartAtMost(h[..|h| - 1], n); }
  }

  lemma MonotoneInit(h: seq<Event>, e: Event)
    requires Monotone(h + [e])
    ensures Monotone(h) && StartOf(h) <= e.now
  {
    var g := h + [e];
    forall i, j | 0 <= i <= j < |h| ensures h[i].now <= h[j].now { assert g[i].now <= g[j].now; }
    forall i | 0 <= i < |h| ensures h[i].now <= e.now { assert g[i].now <= g[|h|].now; }
    StartAtMost(h, e.now);
  }

  lemma WindowStep(h: seq<Event>, e: Event)
    ensures var rolls := e.now - StartOf(h) >= WINDOW_NS;
      && StartOf(h + [e]) == (if rolls then e.now else StartOf(h))
      && Window(h + [e]) == (if rolls then [e] else Window(h) + [e])
  {
    assert (h + [e])[..|h|] == h;
  }

  /** The slot stands for the current window: its start, its number of events, their CPUs. */
  ghost predicate Reflects(s: Slot, h: seq<Event>) {
    && s.windowStart == StartOf(h)
    && s.switches == |Window(h)|
    && Bits(s.mask) == CpusOf(Window(h))
  }

  lemma EarlyBits(s: Slot, e: Event)
    ensures Bits(EarlyMask(s, e)) == Bits(s.mask) + if e.prevPid < 0 then Cpus(e.cpu) else {}
  {
    BitsOfUnion(s.mask, e.cpu);
  }

  /** With a clock that does not run back the window rolls exactly when it is a second old. */
  lemma RollsIff(s: Slot, e: Event, start: nat)
    requires s.windowStart == start <= e.now
    ensures Elapsed(s, e) == e.now - start
    ensures Rolls(s, e) <==> e.now - start >= WINDOW_NS
  {
  }

  lemma MaskStep(s: Slot, window: seq<Event>, e: Event)
    requires Bits(s.mask) == CpusOf(window)
    ensures Bits(Advanced(s, e).mask) == if Rolls(s, e) then CpusOf([e]) else CpusOf(window + [e])
  {
    if Rolls(s, e) {
      BitsOfOne(e.cpu);
      assert [e][..0] == [];
    } else {
      EarlyBits(s, e);
      BitsOfUnion(EarlyMask(s, e), e.cpu);
      assert (window + [e])[..|window|] == window;
    }
  }

  lemma CountStep(s: Slot, e: Event, count: nat)
    requires s.switches == count && count + 1 < TWO_TO_32
    ensures Advanced(s, e).switches == if Rolls(s, e) then 1 else count + 1
    ensures Advanced(s, e).windowStart == if Rolls(s, e) then e.now else s.windowStart
  {
    assert Wrap32(count + 1) == count + 1;
  }

  lemma WindowAfter(s: Slot, h: seq<Event>, e: Event)
    requires s.windowStart == StartOf(h) <= e.now
    ensures StartOf(h + [e]) == if Rolls(s, e) then e.now else s.windowStart
    ensures Window(h + [e]) == if Rolls(s, e) then [e] else Window(h) + [e]
  {
    RollsIff(s, e, StartOf(h));
    WindowStep(h, e);
  }

  lemma ReflectsStep(s: Slot, h: seq<Event>, e: Event)
    requires Reflects(s, h) && StartOf(h) <= e.now && |Window(h)| + 1 < TWO_TO_32
    ensures Reflects(Advanced(s, e), h + [e])
  {
    WindowAfter(s, h, e);
    CountStep(s, e, |Window(h)|);
    MaskStep(s, Window(h), e);
  }

  /** No window of the run counts more events than 32 bits hold. */
  ghost predicate WindowsFit(h: seq<Event>) {
    forall n :: 0 <= n <= |h| ==> |Window(h[..n])| + 1 < TWO_TO_32
  }

  lemma {:induction false} SlotReflects(h: seq<Event>)
    requires Monotone(h) && WindowsFit(h)
    ensures Reflects(SlotRun(ZEROED, h), h)
  {
    if h == [] {
      NoBitsBelow(32);
    } else {
      var g, e := h[..|h| - 1], h[|h| - 1];
      assert h == g + [e];
      MonotoneInit(g, e);
      forall n | 0 <= n <= |g| ensures |Window(g[..n])| + 1 < TWO_TO_32 { assert g[..n] == h[..n]; }
      SlotReflects(g);
      assert g[..|g|] == g;
      ReflectsStep(SlotRun(ZEROED, g), g, e);
    }
  }

  lemma RateIsExact(count: nat, elapsed: nat)
    requires count < TWO_TO_32 && WINDOW_NS <= elapsed
    ensures count * WINDOW_NS < TWO_TO_64
    ensures Quotient(count * WINDOW_NS, elapsed) <= count
  {
    MulMonotone(WINDOW_NS, elapsed, count);
    QuotientAtMost(count * WINDOW_NS, elapsed, count);
  }

  lemma QuotientAtMost(x: nat, d: nat, q: nat)
    requires d > 0 && x <= q * d
    ensures Quotient(x, d) <= q
  {
    var p := Quotient(x, d);
    QuotientBounds(x, d);
    if q + 1 <= p { MulMonotone(q + 1, p, d); }
  }

  lemma UnclampedRate(s: Slot, e: Event, count: nat, elapsed: nat)
    requires Rolls(s, e) && s.switches == count && Elapsed(s, e) == elapsed
    ensures Rate(s, e) == Quotient(count * WINDOW_NS, elapsed) <= count
  {
    RateIsExact(count, elapsed);
    assert Wrap64(count * WINDOW_NS) == count * WINDOW_NS;
  }

  lemma SlotBeforeEvent(h: seq<Event>, e: Event)
    requires Monotone(h + [e]) && WindowsFit(h)
    ensures Reflects(SlotRun(ZEROED, h), h) && |Window(h)| < TWO_TO_32
    ensures Elapsed(SlotRun(ZEROED, h), e) == e.now - StartOf(h)
  {
    MonotoneInit(h, e);
    SlotReflects(h);
    assert h[..|h|] == h;
    RollsIff(SlotRun(ZEROED, h), e, StartOf(h));
  }

  /** The events of the window per second, rounded down, when the next one closes it. */
  ghost function WindowRate(h: seq<Event>, e: Event): nat
    requires e.now - StartOf(h) >= WINDOW_NS
  {
    Quotient(|Window(h)| * WINDOW_NS, e.now - StartOf(h))
  }

  /** The window of the slot rolls exactly when it is a second old, and the rate is then that of its
      events.  It never exceeds their number, so nothing wraps and the clamp is never taken. */
  lemma SlotRateIsExact(h: seq<Event>, e: Event)
    requires Monotone(h + [e]) && WindowsFit(h)
    ensures Rolls(SlotRun(ZEROED, h), e) <==> e.now - StartOf(h) >= 1_000_000_000
    ensures Rolls(SlotRun(ZEROED, h), e) ==>
      Rate(SlotRun(ZEROED, h), e) == WindowRate(h, e) <= |Window(h)|
  {
    var s, count, elapsed := SlotRun(ZEROED, h), |Window(h)|, e.now - StartOf(h);
    assert s.switches == count && Elapsed(s, e) == elapsed by { SlotBeforeEvent(h, e); }
    if Rolls(s, e) { UnclampedRate(s, e, count, elapsed); }
  }

  /** The rate as a division of whole numbers: events times the nanoseconds of a second, over those
      since the window opened. */
  lemma WindowRateIs(h: seq<Event>, e: Event)
    requires e.now - StartOf(h) >= 1_000_000_000
    ensures WindowRate(h, e) == |Window(h)| * 1_000_000_000 / (e.now - StartOf(h))
  {
    QuotientIsDivision(|Window(h)| * WINDOW_NS, e.now - StartOf(h));
  }
}
