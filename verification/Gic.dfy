/** The interrupt controller glue: the handler, the sampling watchdog's arm and stop, the disarm before
    the jump, and the enable bits the timer selftest borrows. */
module Gic {
  import opened Words
  import opened Masks
  import opened Irq
  import opened Disarm
  import opened HandlerTheorems
  import Timebase

  class Controller {
    // The globals of the interrupt path.
    var counts: Counts
    var last: Last
    var samples: Samples
    var watch: Watch
    const distBase: bv32
    const cpuBase: bv32
    // The registers behind them: timer, CPU mask and end-of-interrupt writes; then the distributor.
    var dev: Device
    var istatus: bool
    var isenabler: bv32
    var ispendr: bv32

    ghost function View(): State
      reads this
    {
      State(counts, last, samples, watch, dev)
    }

    ghost function Hardware(): Machine
      reads this
    {
      Machine(dev.ctl, istatus, isenabler, ispendr, dev.masked)
    }

    method TimerShutdown()
      modifies this`dev
      ensures dev == old(dev).(ctl := Shutdown(old(dev).ctl))
    {
      var ctl := dev.ctl;
      ctl := ctl | CTL_IMASK;
      ctl := ctl & !CTL_ENABLE;
      dev := dev.(ctl := ctl);
    }

    method RecordSample(pc: u32)
      requires Sane(View())
      modifies this`samples
      ensures samples == Sample(old(samples), pc)
    {
      samples := samples.(lastPc := pc, ring := samples.ring[samples.count % RING_SIZE := pc],
                          count := Inc32(samples.count));
    }

    /** The sampling mode's share of a timer interrupt; the result says that the machine was rebooted. */
    method SampleWindow(iar: bv32) returns (gone: bool)
      requires watch.mode == 1
      modifies this`watch, this`dev
      ensures watch == Tick(old(watch)) && gone == old(Exhausts(watch))
      ensures var d := TimerDevice(old(dev), old(watch)); dev == if gone then d.(eois := d.eois + [iar]) else d
    {
      hide Inc32, Shutdown;
      gone := false;
      watch := watch.(used := Inc32(watch.used));
      if watch.used < watch.max {
        dev := dev.(tval := watch.interval);
        dev := dev.(ctl := CTL_ENABLE);
      } else {
        watch := watch.(fired := true);
        TimerShutdown();
        dev := dev.(masked := true);
        dev := dev.(eois := dev.eois + [iar]);
        dev := dev.(rebooted := true);
        gone := true;
      }
    }

    /** The interrupt handler, given what the acknowledge register returned and the interrupted address. */
    method Handler(iar: bv32, pc: u32)
      requires Sane(View()) && !dev.rebooted
      modifies this`counts, this`last, this`samples, this`watch, this`dev
      ensures View() == Handle(old(View()), Event(iar, pc))
    {
      hide IntId, Inc32, Sample, Exhausts, Shutdown;
      var intid := IntId(iar);
      counts := counts.(irq := Inc32(counts.irq));
      last := last.(iar := iar, id := intid);
      RecordSample(pc);
      if intid == SGI0_ID {
        counts := counts.(sgi0 := Inc32(counts.sgi0));
      } else if intid == TIMER_PPI0_ID || intid == TIMER_PPI1_ID {
        var ctl := dev.ctl;
        counts := counts.(timer := Inc32(counts.timer));
        last := last.(timerId := intid, timerCtl := ctl);
        if watch.mode == 1 {
          var gone := SampleWindow(iar);
          if gone {
            return;
          }
        } else {
          TimerShutdown();
        }
      } else if intid == SPURIOUS_ID {
        counts := counts.(spurious := Inc32(counts.spurious));
      } else {
        counts := counts.(other := Inc32(counts.other));
      }
      if intid != SPURIOUS_ID {
        dev := dev.(eois := dev.eois + [iar]);
      }
    }

    method ResetIrqCounters()
      requires Sane(View())
      modifies this`counts, this`last, this`samples, this`watch
      ensures counts == NO_COUNTS && last == NO_LAST && samples == NO_SAMPLES
      ensures watch == old(watch).(used := 0)
    {
      counts := Counts(0, 0, 0, 0, 0);
      last := Last(0xffff_ffff, 0xffff_ffff, 0xffff_ffff, 0xffff_ffff);
      samples := samples.(count := 0, lastPc := 0xffff_ffff);
      watch := watch.(used := 0);
      for i := 0 to RING_SIZE
        invariant counts == NO_COUNTS && last == NO_LAST && watch == old(watch).(used := 0)
        invariant |samples.ring| == RING_SIZE && samples == Samples(0, samples.ring, 0xffff_ffff)
        invariant forall k :: 0 <= k < i ==> samples.ring[k] == 0
      {
        samples := samples.(ring := samples.ring[i := 0]);
      }
      assert samples.ring == ZERO_RING;
    }

    /** Arming: success leaves a fresh run of `maxSamples` timer interrupts ahead; without a controller
        everything is reset and the timer is left stopped. */
    method Arm(intervalUs: u32, maxSamples: u32) returns (ok: bool)
      requires Sane(View()) && !dev.rebooted
      modifies this`counts, this`last, this`samples, this`watch, this`dev, this`isenabler
      ensures ok == (distBase != 0 && cpuBase != 0)
      ensures counts == NO_COUNTS && last == NO_LAST && samples == NO_SAMPLES
      ensures watch == Watch(if ok then 1 else 0, 0, maxSamples, Timebase.UsecToTicks(intervalUs), false)
      ensures ok ==> Armed(View())
      ensures dev == if ok then old(dev).(ctl := CTL_ENABLE, tval := Timebase.UsecToTicks(intervalUs), masked := false)
                     else old(dev).(ctl := Shutdown(old(dev).ctl), masked := true)
      ensures isenabler == if ok then Raise(old(isenabler), PPI_MASK) else old(isenabler)
    {
      hide Timebase.UsecToTicks, Shutdown, Raise;
      var ticks := Timebase.UsecToTicks(intervalUs);
      dev := dev.(masked := true);
      TimerShutdown();
      ResetIrqCounters();
      watch := watch.(fired := false, interval := ticks, max := maxSamples, mode := 0);
      if distBase == 0 || cpuBase == 0 {
        return false;
      }
      watch := watch.(mode := 1);
      isenabler := Raise(isenabler, PPI_MASK);
      dev := dev.(tval := ticks);
      dev := dev.(ctl := CTL_ENABLE);
      dev := dev.(masked := false);
      return true;
    }

    method Stop()
      modifies this`watch, this`dev
      ensures dev == old(dev).(ctl := Shutdown(old(dev).ctl), masked := true)
      ensures watch == old(watch).(mode := 0)
    {
      dev := dev.(masked := true);
      TimerShutdown();
      watch := watch.(mode := 0);
    }

    /** Success leaves the hardware disarmed at all three levels; failure touches nothing. */
    method DisarmTimer() returns (ok: bool)
      modifies this`watch, this`dev, this`isenabler, this`ispendr
      ensures ok == (distBase != 0)
      ensures !ok ==> View() == old(View()) && Hardware() == old(Hardware())
      ensures ok ==> Disarmed(Hardware())
      ensures ok ==> isenabler == Without(old(isenabler), PPI_MASK) && ispendr == Without(old(ispendr), PPI_MASK)
      ensures ok ==> dev == old(dev).(ctl := Shutdown(old(dev).ctl), masked := true)
      ensures ok ==> watch == old(watch).(mode := 0)
    {
      hide Shutdown, Raise, Without, Has, Enabling;
      if distBase == 0 {
        return false;
      }
      Stop();
      isenabler := Without(isenabler, PPI_MASK);
      ispendr := Without(ispendr, PPI_MASK);
      ShutdownDisarms(old(dev).ctl, old(isenabler), old(ispendr));
      return true;
    }

    /** Both timer interrupts are enabled at the distributor; the result is the word before. */
    method BorrowTimerEnables() returns (before: bv32)
      modifies this`isenabler
      ensures before == old(isenabler) && isenabler == Raise(before, PPI_MASK)
    {
      before := isenabler;
      isenabler := Raise(isenabler, PPI_MASK);
    }

    /** Those that were clear are cleared again. */
    method ReturnTimerEnables(before: bv32)
      requires isenabler == Raise(before, PPI_MASK)
      modifies this`isenabler
      ensures isenabler == before
    {
      hide Has, Raise, Without, Bit;
      if !Has(before, Bit(Ppi0)) || !Has(before, Bit(Ppi1)) {
        isenabler := Without(isenabler, Without(PPI_MASK, before));
      }
      EnablesRestored(before);
    }

    /** The interrupts `es` arrive one after another and are handled. */
    method TakeInterrupts(es: seq<Event>)
      requires Sane(View()) && !dev.rebooted && watch.mode != 1
      modifies this`counts, this`last, this`samples, this`watch, this`dev
      ensures View() == Run(old(View()), es) && Sane(View())
    {
      hide Handle, KindOf, Stopped, Enabling;
      var i := 0;
      NormalRunStops(View(), es);
      assert es[0..] == es;
      while i < |es|
        invariant 0 <= i <= |es| && Sane(View()) && !dev.rebooted && watch.mode != 1
        invariant Run(View(), es[i..]) == Run(old(View()), es)
      {
        NormalRunStops(View(), [es[i]]);
        assert Run(Handle(View(), es[i]), []) == Handle(View(), es[i]);
        assert es[i..][1..] == es[i + 1..];
        Handler(es[i].iar, es[i].pc);
        i := i + 1;
      }
    }

    /** Everything is reset, both timer interrupts are enabled, and a window of five milliseconds opens. */
    method OpenWindow() returns (before: bv32)
      requires Sane(View())
      modifies this`counts, this`last, this`samples, this`watch, this`dev, this`isenabler
      ensures before == old(isenabler) && isenabler == Raise(before, PPI_MASK)
      ensures counts == NO_COUNTS && last == NO_LAST && samples == NO_SAMPLES && watch == old(watch).(used := 0)
      ensures dev == old(dev).(ctl := CTL_ENABLE, tval := Timebase.UsecToTicks(5000), masked := false)
    {
      hide Shutdown, Timebase.UsecToTicks, Raise;
      dev := dev.(masked := true);
      TimerShutdown();
      ResetIrqCounters();
      before := BorrowTimerEnables();
      dev := dev.(tval := Timebase.UsecToTicks(5000));
      dev := dev.(ctl := CTL_ENABLE);
      dev := dev.(masked := false);
    }

    method CloseWindow(before: bv32)
      requires isenabler == Raise(before, PPI_MASK)
      modifies this`dev, this`isenabler
      ensures isenabler == before && !Enabling(dev.ctl) && dev == old(dev).(ctl := dev.ctl, masked := true)
    {
      hide Shutdown, Stopped, Enabling, Raise;
      dev := dev.(masked := true);
      ShutdownStops(dev.ctl);
      StoppedIsOff(Shutdown(dev.ctl), dev.ctl);
      TimerShutdown();
      ReturnTimerEnables(before);
    }

    /** The timer selftest, given the two control registers and the interrupts `es` that arrive while it
        waits: it passes exactly when a controller is there and switched on and a timer interrupt arrives.
        In the window both enable bits are set, the timer runs and interrupts are delivered; afterwards
        the timer is stopped, interrupts are masked and the enable word is as before. */
    method TimerSelftest(distCtlr: bv32, cpuCtlr: bv32, es: seq<Event>) returns (ok: bool, ghost window: Machine)
      requires Sane(View()) && !dev.rebooted && watch.mode != 1 && |es| < TWO32
      modifies this`counts, this`last, this`samples, this`watch, this`dev, this`isenabler
      ensures var ready := distBase != 0 && cpuBase != 0 && Has(distCtlr, 1) && Has(cpuCtlr, 1);
              && (ok <==> ready && Number(es, Timer) > 0)
              && (!ready ==> View() == old(View()) && isenabler == old(isenabler))
              && (ready ==>
                    && window == Machine(CTL_ENABLE, istatus, Raise(old(isenabler), PPI_MASK), ispendr, false)
                    && isenabler == old(isenabler)
                    && !Enabling(dev.ctl) && dev.masked && dev.tval == Timebase.UsecToTicks(5000)
                    && dev.eois == old(dev).eois + Owed(es)
                    && counts == Added(NO_COUNTS, es))
    {
      hide Has, Raise, Stopped, Handle, KindOf, Run, Handled, Number, Enabling, Wrap, Owed, IntId,
           IsLastTimer, Timebase.UsecToTicks;
      window := Hardware();
      if distBase == 0 || cpuBase == 0 || !Has(distCtlr, 1) || !Has(cpuCtlr, 1) {
        return false, window;
      }
      var before := OpenWindow();
      window := Hardware();
      ghost var armed := View();
      NormalRunStops(armed, es);
      TimersAreSeen(armed, es);
      EndsEachOnce(armed, es);
      TakeInterrupts(es);
      CloseWindow(before);
      ok := counts.timer > 0 && (last.timerId == TIMER_PPI0_ID || last.timerId == TIMER_PPI1_ID);
    }
  }

  /** From cleared counters the timer count shows whether a timer interrupt was handled, and then the
      record names one. */
  lemma TimersAreSeen(s: State, es: seq<Event>)
    requires Sane(s) && s.counts == NO_COUNTS && s.watch.mode != 1 && !s.dev.rebooted && |es| < TWO32
    ensures var r := Run(s, es);
            && r.counts == Added(NO_COUNTS, es)
            && (r.counts.timer > 0 <==> Number(es, Timer) > 0)
            && (Number(es, Timer) > 0 ==> r.last.timerId == TIMER_PPI0_ID || r.last.timerId == TIMER_PPI1_ID)
  {
    hide Run, Handled, Number, KindOf, IntId, Stopped, Enabling, Wrap, IsLastTimer;
    NormalRunStops(s, es);
    CountsFollow(s, es);
    LastFollows(s, es);
    WrapKeeps(Number(es, Timer));
    if Number(es, Timer) > 0 {
      var i := LastTimer(es);
      TimerHasItsNumber(es, i);
    }
  }

  lemma WrapKeeps(n: nat)
    requires n < TWO32
    ensures Wrap(0 + n) == n
  {
  }

  lemma {:induction false} LastTimer(es: seq<Event>) returns (i: nat)
    requires Number(es, Timer) > 0
    ensures IsLastTimer(es, i)
    decreases |es|
  {
    hide KindOf;
    if Number(es[1..], Timer) > 0 {
      var k := LastTimer(es[1..]);
      assert forall j :: 0 < j < |es| ==> es[j] == es[1..][j - 1];
      i := k + 1;
    } else {
      i := 0;
      NoneCounted(es[1..]);
      assert forall j :: 0 < j < |es| ==> es[j] == es[1..][j - 1];
    }
  }

  lemma {:induction false} NoneCounted(es: seq<Event>)
    requires Number(es, Timer) == 0
    ensures forall j :: 0 <= j < |es| ==> KindOf(es[j].iar) != Timer
    decreases |es|
  {
    hide KindOf;
    if es != [] {
      NoneCounted(es[1..]);
      assert forall j :: 0 < j < |es| ==> es[j] == es[1..][j - 1];
    }
  }

  lemma TimerHasItsNumber(es: seq<Event>, i: nat)
    requires IsLastTimer(es, i)
    ensures IntId(es[i].iar) == TIMER_PPI0_ID || IntId(es[i].iar) == TIMER_PPI1_ID
  {
  }

  /** After arming, the run of interrupts that follows fires exactly when max(1, N) timer interrupts
      have been handled, with the accounting balanced from the first interrupt on. */
  lemma ArmedRunFires(s: State, es: seq<Event>)
    requires Sane(s) && Armed(s) && s.watch.used == 0 && s.counts == NO_COUNTS && s.samples == NO_SAMPLES
    ensures Run(s, es).dev.rebooted <==> Number(es, Timer) >= Budget(s.watch.max)
    ensures Run(s, es).watch.fired <==> Number(es, Timer) >= Budget(s.watch.max)
    ensures Balanced(Run(s, es)) && RingHolds(Run(s, es).samples, Pcs(Handled(s, es)))
    ensures Number(Handled(s, es), Timer) <= Budget(s.watch.max)
  {
    hide Balanced, RingHolds, Run, Handled, Number, Handle, Pcs;
    WatchdogFiresExactly(s, es);
    AccountingBalances(s, es);
    EmptyRing();
    RingIsRecent(s, es, []);
    assert [] + Pcs(Handled(s, es)) == Pcs(Handled(s, es));
  }

  lemma EmptyRing()
    ensures RingHolds(NO_SAMPLES, [])
  {
  }
}
