/** A step model of the generic timer, the distributor and the CPU's interrupt mask, for what may still
    be delivered after the timer was disarmed. The timer's output is asserted while it is enabled, not
    masked and its condition is met (CNTP_CTL in the generic timer chapter of DDI 0406C); the distributor
    latches an asserted output as pending and forwards a pending interrupt that is enabled. */
module Disarm {
  import opened Masks
  import opened Irq

  const PPI_MASK: bv32 := 0xc_0000

  datatype Ppi = Ppi0 | Ppi1

  function Bit(p: Ppi): bv32 {
    if p == Ppi0 then 0x4_0000 else 0x8_0000
  }

  /** `x` with the bits outside `mine` replaced by those of `y`. */
  function Merge(x: bv32, y: bv32, mine: bv32): bv32 {
    (x & mine) | (y & !mine)
  }

  datatype Machine = Machine(ctl: bv32, istatus: bool, isenabler: bv32, ispendr: bv32, masked: bool)

  /** What can happen, in any order: the comparator's condition changes, the distributor latches the
      timer's output, any other source's pending bits change, the CPU masks or unmasks, somebody writes
      the enable registers or the timer's control, and a timer interrupt is delivered. */
  datatype Step =
    | Compare(met: bool)
    | Latch(p: Ppi)
    | Others(pending: bv32)
    | Mask
    | Unmask
    | SetEnable(bits: bv32)
    | ClearEnable(bits: bv32)
    | WriteTimer(ctl: bv32)
    | Deliver(p: Ppi)

  predicate Enabling(ctl: bv32) {
    Has(ctl, CTL_ENABLE) && !Has(ctl, CTL_IMASK)
  }

  predicate Asserted(m: Machine) {
    Enabling(m.ctl) && m.istatus
  }

  predicate Possible(m: Machine, s: Step) {
    match s
    case Latch(_) => Asserted(m)
    case Deliver(p) => Has(m.ispendr, Bit(p)) && Has(m.isenabler, Bit(p)) && !m.masked
    case _ => true
  }

  function Next(m: Machine, s: Step): Machine {
    match s
    case Compare(met) => m.(istatus := met)
    case Latch(p) => m.(ispendr := Raise(m.ispendr, Bit(p)))
    case Others(pending) => m.(ispendr := Merge(m.ispendr, pending, PPI_MASK))
    case Mask => m.(masked := true)
    case Unmask => m.(masked := false)
    case SetEnable(bits) => m.(isenabler := Raise(m.isenabler, bits))
    case ClearEnable(bits) => m.(isenabler := Without(m.isenabler, bits))
    case WriteTimer(ctl) => m.(ctl := ctl)
    case Deliver(p) => m.(ispendr := Without(m.ispendr, Bit(p)), masked := true)
  }

  predicate Runs(m: Machine, steps: seq<Step>)
    decreases |steps|
  {
    steps == [] || (Possible(m, steps[0]) && Runs(Next(m, steps[0]), steps[1..]))
  }

  predicate Rearms(s: Step) {
    s.WriteTimer? && Enabling(s.ctl)
  }

  predicate Reenables(s: Step) {
    s.SetEnable? && Has(s.bits, PPI_MASK)
  }

  predicate NeverRearms(steps: seq<Step>) {
    forall i :: 0 <= i < |steps| ==> !Rearms(steps[i])
  }

  predicate NeverReenables(steps: seq<Step>) {
    forall i :: 0 <= i < |steps| ==> !Reenables(steps[i])
  }

  predicate NeverDelivers(steps: seq<Step>) {
    forall i :: 0 <= i < |steps| ==> !steps[i].Deliver?
  }

  /** First and third level: the timer cannot assert and nothing of it is latched. */
  predicate SourceQuiet(m: Machine) {
    !Enabling(m.ctl) && !Has(m.ispendr, PPI_MASK)
  }

  /** Second level: the distributor forwards neither timer interrupt. */
  predicate GateShut(m: Machine) {
    !Has(m.isenabler, PPI_MASK)
  }

  predicate Disarmed(m: Machine) {
    SourceQuiet(m) && GateShut(m)
  }

  lemma ShutdownDisarms(ctl: bv32, enabled: bv32, pending: bv32)
    ensures !Enabling(Shutdown(ctl))
    ensures !Has(Without(enabled, PPI_MASK), PPI_MASK) && !Has(Without(pending, PPI_MASK), PPI_MASK)
  {
  }

  lemma QuietStep(m: Machine, s: Step)
    requires SourceQuiet(m) && Possible(m, s) && !Rearms(s)
    ensures SourceQuiet(Next(m, s)) && !s.Deliver?
  {
    hide Has, Raise, Without, Merge, Enabling, Bit;
    QuietBits(m.ispendr, if s.Others? then s.pending else if s.Deliver? then Bit(s.p) else 0,
              if s.Deliver? then s.p else Ppi0);
  }

  lemma QuietBits(x: bv32, y: bv32, p: Ppi)
    requires !Has(x, PPI_MASK)
    ensures !Has(x, Bit(p))
    ensures !Has(Merge(x, y, PPI_MASK), PPI_MASK)
    ensures !Has(y, PPI_MASK) ==> !Has(Raise(x, y), PPI_MASK)
    ensures !Has(Without(x, y), PPI_MASK)
  {
  }

  lemma ShutStep(m: Machine, s: Step)
    requires GateShut(m) && Possible(m, s) && !Reenables(s)
    ensures GateShut(Next(m, s)) && !s.Deliver?
  {
    hide Has, Raise, Without, Merge, Enabling, Bit;
    QuietBits(m.isenabler, if s.SetEnable? || s.ClearEnable? then s.bits else 0, if s.Deliver? then s.p else Ppi0);
  }

  lemma {:induction false} QuietRun(m: Machine, steps: seq<Step>)
    requires SourceQuiet(m) && Runs(m, steps) && NeverRearms(steps)
    ensures NeverDelivers(steps)
    decreases |steps|
  {
    hide SourceQuiet, Possible, Next, Rearms;
    if steps != [] {
      QuietStep(m, steps[0]);
      QuietRun(Next(m, steps[0]), steps[1..]);
      assert forall i :: 0 < i < |steps| ==> steps[i] == steps[1..][i - 1];
    }
  }

  lemma {:induction false} ShutRun(m: Machine, steps: seq<Step>)
    requires GateShut(m) && Runs(m, steps) && NeverReenables(steps)
    ensures NeverDelivers(steps)
    decreases |steps|
  {
    hide GateShut, Possible, Next, Reenables;
    if steps != [] {
      ShutStep(m, steps[0]);
      ShutRun(Next(m, steps[0]), steps[1..]);
      assert forall i :: 0 < i < |steps| ==> steps[i] == steps[1..][i - 1];
    }
  }

  /** Disarming is final: no run delivers a timer interrupt unless it both re-arms the timer and
      re-enables it at the distributor; either alone, with any unmasking and any ticks, is harmless. */
  lemma DisarmIsFinal(m: Machine, steps: seq<Step>)
    requires Disarmed(m) && Runs(m, steps)
    requires NeverRearms(steps) || NeverReenables(steps)
    ensures NeverDelivers(steps)
  {
    hide SourceQuiet, GateShut, Runs, NeverRearms, NeverReenables, NeverDelivers;
    if NeverRearms(steps) {
      QuietRun(m, steps);
    } else {
      ShutRun(m, steps);
    }
  }

  /** The two together do bring the interrupt back, from every disarmed machine. */
  lemma BothWakeIt(m: Machine, p: Ppi)
    requires Disarmed(m)
    ensures Runs(m, [WriteTimer(CTL_ENABLE), SetEnable(Bit(p)), Compare(true), Latch(p), Unmask, Deliver(p)])
  {
    hide Has, Raise, Without, Merge, Bit, Runs, SourceQuiet, GateShut;
    EnableBit();
    var steps := [SetEnable(Bit(p)), Compare(true), Latch(p), Unmask, Deliver(p)];
    RunsOn(m, WriteTimer(CTL_ENABLE), [WriteTimer(CTL_ENABLE)] + steps, steps);
    RunningDelivers(Next(m, WriteTimer(CTL_ENABLE)), p);
    assert [WriteTimer(CTL_ENABLE)] + steps
        == [WriteTimer(CTL_ENABLE), SetEnable(Bit(p)), Compare(true), Latch(p), Unmask, Deliver(p)];
  }

  lemma WakeBits(x: bv32, p: Ppi)
    ensures Has(Raise(x, Bit(p)), Bit(p))
  {
  }

  lemma EnableBit()
    ensures Enabling(CTL_ENABLE)
  {
  }

  lemma RunsOn(m: Machine, s: Step, steps: seq<Step>, rest: seq<Step>)
    requires steps == [s] + rest
    ensures Runs(m, steps) <==> Possible(m, s) && Runs(Next(m, s), rest)
  {
    hide Possible, Next;
    assert steps[1..] == rest;
  }

  lemma PendingDelivers(m: Machine, p: Ppi)
    requires Has(m.ispendr, Bit(p)) && Has(m.isenabler, Bit(p))
    ensures Runs(m, [Unmask, Deliver(p)])
  {
    hide Has, Raise, Without, Merge, Bit;
    var m1 := Next(m, Unmask);
    RunsOn(m, Unmask, [Unmask, Deliver(p)], [Deliver(p)]);
    RunsOn(m1, Deliver(p), [Deliver(p)], []);
  }

  lemma LatchDelivers(m: Machine, p: Ppi)
    requires Asserted(m) && Has(m.isenabler, Bit(p))
    ensures Runs(m, [Latch(p), Unmask, Deliver(p)])
  {
    hide Has, Raise, Without, Merge, Bit, Runs, Asserted;
    WakeBits(m.ispendr, p);
    RunsOn(m, Latch(p), [Latch(p), Unmask, Deliver(p)], [Unmask, Deliver(p)]);
    PendingDelivers(Next(m, Latch(p)), p);
  }

  lemma TickDelivers(m: Machine, p: Ppi)
    requires Enabling(m.ctl) && Has(m.isenabler, Bit(p))
    ensures Runs(m, [Compare(true), Latch(p), Unmask, Deliver(p)])
  {
    hide Has, Raise, Without, Merge, Bit, Runs, Enabling;
    RunsOn(m, Compare(true), [Compare(true), Latch(p), Unmask, Deliver(p)], [Latch(p), Unmask, Deliver(p)]);
    LatchDelivers(Next(m, Compare(true)), p);
  }

  /** Some run delivers a timer interrupt though it lacks the re-arm or lacks the re-enable. */
  ghost predicate Leaks(m: Machine) {
    exists steps :: Runs(m, steps) && (NeverRearms(steps) || NeverReenables(steps)) && !NeverDelivers(steps)
  }

  lemma LeaksBy(m: Machine, steps: seq<Step>)
    requires Runs(m, steps) && (NeverRearms(steps) || NeverReenables(steps))
    requires |steps| > 0 && steps[|steps| - 1].Deliver?
    ensures Leaks(m)
  {
    hide Runs, NeverRearms, NeverReenables;
    assert !NeverDelivers(steps);
  }

  /** A pending bit left behind lets a later re-enable alone deliver. */
  lemma LatchedDelivers(m: Machine, p: Ppi)
    requires Has(m.ispendr, Bit(p))
    ensures Runs(m, [SetEnable(Bit(p)), Unmask, Deliver(p)])
    ensures Leaks(m)
  {
    hide Has, Raise, Without, Merge, Bit, Runs;
    WakeBits(m.isenabler, p);
    RunsOn(m, SetEnable(Bit(p)), [SetEnable(Bit(p)), Unmask, Deliver(p)], [Unmask, Deliver(p)]);
    PendingDelivers(Next(m, SetEnable(Bit(p))), p);
    LeaksBy(m, [SetEnable(Bit(p)), Unmask, Deliver(p)]);
  }

  /** So does a timer left running. */
  lemma RunningDelivers(m: Machine, p: Ppi)
    requires Enabling(m.ctl)
    ensures Runs(m, [SetEnable(Bit(p)), Compare(true), Latch(p), Unmask, Deliver(p)])
    ensures Leaks(m)
  {
    hide Has, Raise, Without, Merge, Bit, Runs, Enabling;
    WakeBits(m.isenabler, p);
    RunsOn(m, SetEnable(Bit(p)), [SetEnable(Bit(p)), Compare(true), Latch(p), Unmask, Deliver(p)],
           [Compare(true), Latch(p), Unmask, Deliver(p)]);
    TickDelivers(Next(m, SetEnable(Bit(p))), p);
    LeaksBy(m, [SetEnable(Bit(p)), Compare(true), Latch(p), Unmask, Deliver(p)]);
  }

  /** And an enable bit left set lets a later re-arm alone deliver. */
  lemma OpenGateDelivers(m: Machine, p: Ppi)
    requires Has(m.isenabler, Bit(p))
    ensures Runs(m, [WriteTimer(CTL_ENABLE), Compare(true), Latch(p), Unmask, Deliver(p)])
    ensures Leaks(m)
  {
    hide Has, Raise, Without, Merge, Bit, Runs, Enabling;
    EnableBit();
    RunsOn(m, WriteTimer(CTL_ENABLE), [WriteTimer(CTL_ENABLE), Compare(true), Latch(p), Unmask, Deliver(p)],
           [Compare(true), Latch(p), Unmask, Deliver(p)]);
    TickDelivers(Next(m, WriteTimer(CTL_ENABLE)), p);
    LeaksBy(m, [WriteTimer(CTL_ENABLE), Compare(true), Latch(p), Unmask, Deliver(p)]);
  }

  /** Disarming is exact: a machine leaks unless the timer is stopped, both pending bits are clear and
      both enable bits are clear, so none of the three levels can be left out. */
  lemma LeaksUnlessDisarmed(m: Machine)
    ensures Leaks(m) <==> !Disarmed(m)
  {
    hide Has, Raise, Without, Merge, Bit, Runs, Enabling, NeverRearms, NeverReenables, NeverDelivers;
    MaskBits(m.ispendr);
    MaskBits(m.isenabler);
    if Disarmed(m) {
      forall steps | Runs(m, steps) && (NeverRearms(steps) || NeverReenables(steps))
        ensures NeverDelivers(steps)
      {
        DisarmIsFinal(m, steps);
      }
    } else if Has(m.ispendr, PPI_MASK) {
      LatchedDelivers(m, if Has(m.ispendr, Bit(Ppi0)) then Ppi0 else Ppi1);
    } else if Enabling(m.ctl) {
      RunningDelivers(m, Ppi0);
    } else {
      OpenGateDelivers(m, if Has(m.isenabler, Bit(Ppi0)) then Ppi0 else Ppi1);
    }
  }

  lemma MaskBits(x: bv32)
    ensures Has(x, PPI_MASK) <==> Has(x, Bit(Ppi0)) || Has(x, Bit(Ppi1))
  {
  }

  /** Setting the timer bits and clearing those that were clear leaves every enable word as it was; when
      both bits were set already there is nothing to clear. */
  lemma EnablesRestored(before: bv32)
    ensures Without(Raise(before, PPI_MASK), Without(PPI_MASK, before)) == before
    ensures Has(before, Bit(Ppi0)) && Has(before, Bit(Ppi1)) ==> Raise(before, PPI_MASK) == before
  {
  }
}
