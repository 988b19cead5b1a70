/** The interrupt handler, the PC-sampling watchdog and the end-of-interrupt discipline, as a state
    machine over acknowledged interrupts (GICv2 acknowledge and end of interrupt, sections 4.4.4 and
    4.4.5 of ARM IHI 0048B). */
module Irq {
  import opened Words

  const INTID_MASK: bv32 := 0x3ff
  const SPURIOUS_ID: bv32 := 0x3ff
  const SGI0_ID: bv32 := 0
  const TIMER_PPI0_ID: bv32 := 18
  const TIMER_PPI1_ID: bv32 := 19
  const CTL_ENABLE: bv32 := 1
  const CTL_IMASK: bv32 := 2
  const RING_SIZE: int := 16

  datatype Kind = Sgi0 | Timer | Spurious | Other

  function IntId(iar: bv32): bv32 {
    iar & INTID_MASK
  }

  function KindOf(iar: bv32): Kind {
    var intid := IntId(iar);
    if intid == SGI0_ID then Sgi0
    else if intid == TIMER_PPI0_ID || intid == TIMER_PPI1_ID then Timer
    else if intid == SPURIOUS_ID then Spurious
    else Other
  }

  datatype Event = Event(iar: bv32, pc: u32)

  datatype Counts = Counts(irq: u32, sgi0: u32, timer: u32, spurious: u32, other: u32)
  datatype Last = Last(iar: bv32, id: bv32, timerId: bv32, timerCtl: bv32)
  datatype Samples = Samples(count: u32, ring: seq<u32>, lastPc: u32)
  datatype Watch = Watch(mode: u32, used: u32, max: u32, interval: u32, fired: bool)
  datatype Device = Device(ctl: bv32, tval: u32, masked: bool, eois: seq<bv32>, rebooted: bool)
  datatype State = State(counts: Counts, last: Last, samples: Samples, watch: Watch, dev: Device)

  const ZERO_RING: seq<u32> := [0, 0, 0, 0, 0, 0, 0, 0, 0, 0, 0, 0, 0, 0, 0, 0]
  const NO_COUNTS := Counts(0, 0, 0, 0, 0)
  const NO_LAST := Last(0xffff_ffff, 0xffff_ffff, 0xffff_ffff, 0xffff_ffff)
  const NO_SAMPLES := Samples(0, ZERO_RING, 0xffff_ffff)

  predicate Sane(s: State) {
    |s.samples.ring| == RING_SIZE
  }

  function Count(c: Counts, k: Kind): Counts {
    var c1 := c.(irq := Inc32(c.irq));
    match k
    case Sgi0 => c1.(sgi0 := Inc32(c.sgi0))
    case Timer => c1.(timer := Inc32(c.timer))
    case Spurious => c1.(spurious := Inc32(c.spurious))
    case Other => c1.(other := Inc32(c.other))
  }

  function Sample(m: Samples, pc: u32): Samples
    requires |m.ring| == RING_SIZE
  {
    Samples(Inc32(m.count), m.ring[m.count % RING_SIZE := pc], pc)
  }

  function Note(l: Last, iar: bv32, ctl: bv32): Last {
    var id := IntId(iar);
    if KindOf(iar) == Timer then Last(iar, id, id, ctl) else l.(iar := iar, id := id)
  }

  function Shutdown(ctl: bv32): bv32 {
    (ctl | CTL_IMASK) & !CTL_ENABLE
  }

  /** In sampling mode this timer interrupt is the one that exhausts the budget. */
  predicate Exhausts(w: Watch) {
    w.mode == 1 && Inc32(w.used) >= w.max
  }

  function Tick(w: Watch): Watch {
    if w.mode != 1 then w
    else w.(used := Inc32(w.used), fired := w.fired || Exhausts(w))
  }

  function Acknowledge(d: Device, iar: bv32): Device {
    if KindOf(iar) == Spurious then d else d.(eois := d.eois + [iar])
  }

  /** A timer interrupt restarts the sampling window, ends the run, or just stops the timer. */
  function TimerDevice(d: Device, w: Watch): Device {
    if w.mode != 1 then d.(ctl := Shutdown(d.ctl))
    else if Exhausts(w) then d.(ctl := Shutdown(d.ctl), masked := true, rebooted := true)
    else d.(ctl := CTL_ENABLE, tval := w.interval)
  }

  function Handle(s: State, e: Event): (r: State)
    requires Sane(s)
    ensures Sane(r)
  {
    var k := KindOf(e.iar);
    State(Count(s.counts, k), Note(s.last, e.iar, s.dev.ctl), Sample(s.samples, e.pc),
          if k == Timer then Tick(s.watch) else s.watch,
          Acknowledge(if k == Timer then TimerDevice(s.dev, s.watch) else s.dev, e.iar))
  }

  /** A run of interrupts; the reboot ends it. */
  function Run(s: State, es: seq<Event>): (r: State)
    requires Sane(s)
    ensures Sane(r)
    decreases |es|
  {
    if es == [] || s.dev.rebooted then s else Run(Handle(s, es[0]), es[1..])
  }

  /** The interrupts that were handled before the run ended. */
  function Handled(s: State, es: seq<Event>): (h: seq<Event>)
    requires Sane(s)
    ensures h <= es
    decreases |es|
  {
    if es == [] || s.dev.rebooted then [] else [es[0]] + Handled(Handle(s, es[0]), es[1..])
  }

  function Number(es: seq<Event>, k: Kind): (r: nat)
    ensures r <= |es|
  {
    if es == [] then 0 else (if KindOf(es[0].iar) == k then 1 else 0) + Number(es[1..], k)
  }

  lemma {:induction false} KindsPartition(es: seq<Event>)
    ensures |es| == Number(es, Sgi0) + Number(es, Timer) + Number(es, Spurious) + Number(es, Other)
  {
    hide KindOf;
    if es != [] {
      KindsPartition(es[1..]);
    }
  }

  // ----- accounting -----

  function Added(c: Counts, es: seq<Event>): Counts {
    Counts(Wrap(c.irq + |es|), Wrap(c.sgi0 + Number(es, Sgi0)), Wrap(c.timer + Number(es, Timer)),
           Wrap(c.spurious + Number(es, Spurious)), Wrap(c.other + Number(es, Other)))
  }

  lemma WrapInc(x: u32, n: nat)
    ensures Wrap(Inc32(x) + n) == Wrap(x + 1 + n) && Wrap(x) == x
  {
  }

  /** Every counter grows by the number of interrupts of its kind that were handled, and samples are
      counted with interrupts. */
  lemma {:induction false} CountsFollow(s: State, es: seq<Event>)
    requires Sane(s)
    ensures Run(s, es).counts == Added(s.counts, Handled(s, es))
    ensures Run(s, es).samples.count == Wrap(s.samples.count + |Handled(s, es)|)
    decreases |es|
  {
    hide KindOf, Wrap, Inc32, Sample, Note, Tick, TimerDevice, Acknowledge;
    WrapInc(s.counts.irq, |Handled(s, es)|);
    CountsStay(s.counts);
    WrapInc(s.samples.count, 0);
    if es != [] && !s.dev.rebooted {
      CountsStep(s, es[0], Handled(Handle(s, es[0]), es[1..]));
      CountsFollow(Handle(s, es[0]), es[1..]);
    }
  }

  lemma CountsStay(c: Counts)
    ensures Added(c, []) == c
  {
  }

  lemma CountsStep(s: State, e: Event, rest: seq<Event>)
    requires Sane(s)
    ensures Added(Count(s.counts, KindOf(e.iar)), rest) == Added(s.counts, [e] + rest)
    ensures Wrap(Handle(s, e).samples.count + |rest|) == Wrap(s.samples.count + |[e] + rest|)
  {
    hide KindOf, Inc32, Wrap, Note, Tick, TimerDevice, Acknowledge;
    assert ([e] + rest)[1..] == rest;
    var c := s.counts;
    WrapInc(c.irq, |rest|);
    WrapInc(c.sgi0, Number(rest, Sgi0));
    WrapInc(c.timer, Number(rest, Timer));
    WrapInc(c.spurious, Number(rest, Spurious));
    WrapInc(c.other, Number(rest, Other));
    WrapInc(s.samples.count, |rest|);
  }

  predicate Balanced(s: State) {
    s.counts.irq == Wrap(s.counts.sgi0 + s.counts.timer + s.counts.spurious + s.counts.other) == s.samples.count
  }

  /** Since a reset the total equals the sum of the four kinds and the sample count, modulo 2^32,
      whatever arrived and in whatever order, up to and including the interrupt that fires. */
  lemma AccountingBalances(s: State, es: seq<Event>)
    requires Sane(s) && s.counts == NO_COUNTS && s.samples == NO_SAMPLES
    ensures Balanced(Run(s, es))
  {
    hide Wrap, Run, Handled, Number, Handle, KindOf;
    var h := Handled(s, es);
    WrapZero(|h|);
    CountsFollow(s, es);
    KindsPartition(h);
    SumOfWraps(Number(h, Sgi0), Number(h, Timer), Number(h, Spurious), Number(h, Other));
  }

  lemma WrapZero(n: nat)
    ensures Wrap(0 + n) == Wrap(n)
  {
  }

  lemma SumOfWraps(a: nat, b: nat, c: nat, d: nat)
    ensures Wrap(Wrap(a) + Wrap(b) + Wrap(c) + Wrap(d)) == Wrap(a + b + c + d)
  {
    hide Wrap;
    WrapSum(a, Wrap(b) + Wrap(c) + Wrap(d));
    WrapSum(b, a + Wrap(c) + Wrap(d));
    WrapSum(c, a + b + Wrap(d));
    WrapSum(d, a + b + c);
  }

  // ----- end of interrupt -----

  /** The acknowledged values that are owed an end of interrupt, in order. */
  function Owed(es: seq<Event>): seq<bv32> {
    if es == [] then []
    else (if KindOf(es[0].iar) == Spurious then [] else [es[0].iar]) + Owed(es[1..])
  }

  /** Each handled interrupt that is not spurious is ended once, with the value it was acknowledged
      with and in the order of arrival, the firing one included; a spurious one never. */
  lemma {:induction false} EndsEachOnce(s: State, es: seq<Event>)
    requires Sane(s)
    ensures Run(s, es).dev.eois == s.dev.eois + Owed(Handled(s, es))
    decreases |es|
  {
    hide KindOf, Count, Sample, Note, Tick;
    if es != [] && !s.dev.rebooted {
      EndsEachOnce(Handle(s, es[0]), es[1..]);
    }
  }

  // ----- the sample ring -----

  function Pcs(es: seq<Event>): (r: seq<u32>)
    ensures |r| == |es|
  {
    if es == [] then [] else [es[0].pc] + Pcs(es[1..])
  }

  /** The ring holds the latest sixteen of `pcs`, each at its index modulo sixteen, and zeros in slots
      not yet written. */
  predicate RingHolds(m: Samples, pcs: seq<u32>) {
    && |m.ring| == RING_SIZE && m.count == Wrap(|pcs|)
    && (forall k :: 0 <= k < |pcs| && |pcs| - RING_SIZE <= k ==> m.ring[k % RING_SIZE] == pcs[k])
    && (forall j :: |pcs| <= j < RING_SIZE ==> m.ring[j] == 0)
  }

  lemma RingStep(m: Samples, pcs: seq<u32>, pc: u32)
    requires RingHolds(m, pcs)
    ensures RingHolds(Sample(m, pc), pcs + [pc])
  {
    SlotSurvivesWrap(|pcs|);
    WrapInc(Wrap(|pcs|), 0);
    WrapSum(|pcs|, 1);
    var slot := m.count % RING_SIZE;
    forall k | 0 <= k < |pcs| && |pcs| + 1 - RING_SIZE <= k
      ensures k % RING_SIZE != slot
    {
      NearbySlotsDiffer(k, |pcs|);
    }
  }

  /** The counter's wrap does not move the slots, because sixteen divides 2^32. */
  lemma SlotSurvivesWrap(n: nat)
    ensures Wrap(n) % RING_SIZE == n % RING_SIZE
  {
  }

  lemma NearbySlotsDiffer(k: nat, n: nat)
    requires k < n < k + RING_SIZE
    ensures k % RING_SIZE != n % RING_SIZE
  {
  }

  /** At every point of a run the ring is the most recent interrupted addresses since the reset. */
  lemma {:induction false} RingIsRecent(s: State, es: seq<Event>, past: seq<u32>)
    requires Sane(s) && RingHolds(s.samples, past)
    ensures RingHolds(Run(s, es).samples, past + Pcs(Handled(s, es)))
    decreases |es|
  {
    hide KindOf, Count, RingHolds, Sample, Note, Tick, TimerDevice, Acknowledge;
    if es == [] || s.dev.rebooted {
      assert past + [] == past;
    } else {
      RingStep(s.samples, past, es[0].pc);
      RingIsRecent(Handle(s, es[0]), es[1..], past + [es[0].pc]);
      var rest := Handled(Handle(s, es[0]), es[1..]);
      assert ([es[0]] + rest)[1..] == rest;
      assert past + [es[0].pc] + Pcs(rest) == past + Pcs([es[0]] + rest);
    }
  }

  // ----- the watchdog -----

  function Budget(max: u32): nat {
    if max == 0 then 1 else max
  }

  /** Sampling mode, not fired, with budget left. */
  predicate Armed(s: State) {
    s.watch.mode == 1 && !s.watch.fired && !s.dev.rebooted && s.watch.used < Budget(s.watch.max)
  }

  lemma HandleArmed(s: State, e: Event)
    requires Sane(s) && Armed(s)
    ensures var r := Handle(s, e);
            if KindOf(e.iar) != Timer then
              r.watch == s.watch && r.dev.ctl == s.dev.ctl && r.dev.tval == s.dev.tval && r.dev.masked == s.dev.masked
              && Armed(r)
            else if s.watch.used + 1 < Budget(s.watch.max) then
              r.watch == s.watch.(used := s.watch.used + 1) && Armed(r)
              && r.dev.ctl == CTL_ENABLE && r.dev.tval == s.watch.interval
            else
              r.watch == s.watch.(used := s.watch.used + 1, fired := true)
              && r.dev.rebooted && r.dev.masked && r.dev.ctl == Shutdown(s.dev.ctl)
  {
    hide KindOf, Count, Sample, Note, Shutdown;
  }

  /** The watchdog fires exactly when the timer interrupts of the run use up the budget, never earlier:
      until then interrupts of other kinds change neither the budget nor the timer, and every handled
      timer interrupt leaves the timer enabled with the same interval. */
  lemma {:induction false} WatchdogFiresExactly(s: State, es: seq<Event>)
    requires Sane(s) && Armed(s)
    ensures var r, due := Run(s, es), Budget(s.watch.max) - s.watch.used;
            if Number(es, Timer) < due then
              && Armed(r) && r.watch == s.watch.(used := s.watch.used + Number(es, Timer))
              && Handled(s, es) == es
              && (if Number(es, Timer) > 0 then r.dev.ctl == CTL_ENABLE && r.dev.tval == s.watch.interval
                  else r.dev.ctl == s.dev.ctl && r.dev.tval == s.dev.tval)
            else
              && r.dev.rebooted && r.watch.fired && r.dev.masked
              && r.watch.used == Budget(s.watch.max)
              && Number(Handled(s, es), Timer) == due
              && KindOf(Handled(s, es)[|Handled(s, es)| - 1].iar) == Timer
    decreases |es|
  {
    hide KindOf, Handle, Shutdown;
    if es != [] {
      HandleArmed(s, es[0]);
      var s1 := Handle(s, es[0]);
      if !s1.dev.rebooted {
        WatchdogFiresExactly(s1, es[1..]);
      }
      var rest := Handled(s1, es[1..]);
      assert ([es[0]] + rest)[1..] == rest;
    }
  }
}
