/** What one interrupt does to the machine, and what runs outside sampling mode leave behind, said
    without the functions of the handler. */
module HandlerTheorems {
  import opened Words
  import opened Masks
  import opened Irq
  import opened Disarm

  /** The interrupt number is the low ten bits of what was acknowledged. */
  function Number10(iar: bv32): bv10 {
    (iar & 0x3ff) as bv10
  }

  /** The four kinds by interrupt number. */
  lemma KindByNumber(iar: bv32)
    ensures IntId(iar) as bv10 == Number10(iar) && IntId(iar) < 0x400
    ensures KindOf(iar) == Sgi0 <==> Number10(iar) == 0
    ensures KindOf(iar) == Timer <==> Number10(iar) == 18 || Number10(iar) == 19
    ensures KindOf(iar) == Spurious <==> Number10(iar) == 1023
  {
  }

  /** The enable bits of the two timer interrupts stand at their numbers. */
  lemma BitByNumber()
    ensures Bit(Ppi0) == 1 << 18 && Bit(Ppi1) == 1 << 19 && PPI_MASK == (1 << 18) | (1 << 19)
  {
  }

  /** The timer is off and masked at its own control; all other bits of the control are those of `was`. */
  predicate Stopped(ctl: bv32, was: bv32) {
    ctl & 1 == 0 && ctl & 2 == 2 && ctl & !3 == was & !3
  }

  lemma ShutdownStops(ctl: bv32)
    ensures Stopped(Shutdown(ctl), ctl)
  {
  }

  lemma StoppedIsOff(ctl: bv32, was: bv32)
    requires Stopped(ctl, was)
    ensures !Enabling(ctl)
  {
  }

  lemma StoppedAgain(ctl: bv32, mid: bv32, was: bv32)
    requires Stopped(mid, was) && Stopped(ctl, mid)
    ensures Stopped(ctl, was)
  {
  }

  // ----- one interrupt -----

  /** Outside sampling mode a timer interrupt stops the timer and touches nothing else of it. */
  lemma NormalTimerStops(s: State, e: Event)
    requires Sane(s) && KindOf(e.iar) == Timer && s.watch.mode != 1
    ensures var r := Handle(s, e);
            && Stopped(r.dev.ctl, s.dev.ctl) && !Enabling(r.dev.ctl)
            && r.dev.tval == s.dev.tval && r.dev.masked == s.dev.masked && r.dev.rebooted == s.dev.rebooted
            && r.watch == s.watch
  {
    hide KindOf, Count, Sample, Note, Shutdown, Stopped, Enabling;
    ShutdownStops(s.dev.ctl);
    StoppedIsOff(Shutdown(s.dev.ctl), s.dev.ctl);
  }

  /** In sampling mode it uses up one sample and opens the next window; the one that reaches the budget
      stops and masks the timer and reboots instead. */
  lemma SamplingTimerStep(s: State, e: Event)
    requires Sane(s) && KindOf(e.iar) == Timer && s.watch.mode == 1
    ensures var r, used := Handle(s, e), Wrap(s.watch.used + 1);
            && r.watch.used == used && r.watch.mode == 1
            && r.watch.max == s.watch.max && r.watch.interval == s.watch.interval
            && if used < s.watch.max
               then && r.dev.ctl == 1 && r.dev.tval == s.watch.interval && r.dev.masked == s.dev.masked
                    && r.dev.rebooted == s.dev.rebooted && r.watch.fired == s.watch.fired
               else && Stopped(r.dev.ctl, s.dev.ctl) && r.dev.masked && r.dev.rebooted && r.watch.fired
                    && r.dev.tval == s.dev.tval
  {
    hide KindOf, Count, Sample, Note, Shutdown, Stopped;
    ShutdownStops(s.dev.ctl);
  }

  /** An interrupt of any other kind leaves timer, mask and budget alone. */
  lemma OthersLeaveTheTimer(s: State, e: Event)
    requires Sane(s) && KindOf(e.iar) != Timer
    ensures var r := Handle(s, e);
            r.watch == s.watch && r.dev == s.dev.(eois := r.dev.eois)
  {
    hide KindOf, Count, Sample, Note;
  }

  // ----- runs outside sampling mode -----

  /** Such a run handles every interrupt; the first timer interrupt among them leaves the timer stopped,
      and it stays so. */
  lemma {:induction false} NormalRunStops(s: State, es: seq<Event>)
    requires Sane(s) && s.watch.mode != 1 && !s.dev.rebooted
    ensures var r := Run(s, es);
            && Handled(s, es) == es && r.watch == s.watch && !r.dev.rebooted
            && r.dev.tval == s.dev.tval && r.dev.masked == s.dev.masked
            && if Number(es, Timer) > 0 then Stopped(r.dev.ctl, s.dev.ctl) && !Enabling(r.dev.ctl)
               else r.dev.ctl == s.dev.ctl
    decreases |es|
  {
    hide KindOf, Handle, Stopped, Enabling;
    if es != [] {
      var s1 := Handle(s, es[0]);
      if KindOf(es[0].iar) == Timer {
        NormalTimerStops(s, es[0]);
      } else {
        OthersLeaveTheTimer(s, es[0]);
      }
      NormalRunStops(s1, es[1..]);
      var r := Run(s1, es[1..]);
      if KindOf(es[0].iar) == Timer && Number(es[1..], Timer) > 0 {
        StoppedAgain(r.dev.ctl, s1.dev.ctl, s.dev.ctl);
      }
    }
  }

  // ----- the record of the last interrupt -----

  predicate IsLastTimer(es: seq<Event>, i: nat) {
    i < |es| && KindOf(es[i].iar) == Timer && forall j :: i < j < |es| ==> KindOf(es[j].iar) != Timer
  }

  /** What one interrupt leaves in the record; the control is the one read on entry. */
  lemma NoteStep(s: State, e: Event)
    requires Sane(s)
    ensures var l := Handle(s, e).last;
            && l.iar == e.iar && l.id == IntId(e.iar) && Handle(s, e).samples.lastPc == e.pc
            && (if KindOf(e.iar) == Timer then l.timerId == IntId(e.iar) && l.timerCtl == s.dev.ctl
                else l.timerId == s.last.timerId && l.timerCtl == s.last.timerCtl)
  {
    hide KindOf, Count, IntId, Tick, TimerDevice, Acknowledge;
  }

  /** After a run the record names the last interrupt handled, its address, and the last timer interrupt
      among those handled. */
  lemma {:induction false} LastFollows(s: State, es: seq<Event>)
    requires Sane(s)
    ensures var h, r := Handled(s, es), Run(s, es);
            && (h != [] ==> && r.last.iar == h[|h| - 1].iar && r.last.id == IntId(h[|h| - 1].iar)
                            && r.samples.lastPc == h[|h| - 1].pc)
            && (forall i: nat :: IsLastTimer(h, i) ==> r.last.timerId == IntId(h[i].iar))
            && (Number(h, Timer) == 0 ==> r.last.timerId == s.last.timerId && r.last.timerCtl == s.last.timerCtl)
            && (h == [] ==> r.last == s.last && r.samples.lastPc == s.samples.lastPc)
    decreases |es|
  {
    hide KindOf, Handle, IntId;
    if es != [] && !s.dev.rebooted {
      var s1 := Handle(s, es[0]);
      NoteStep(s, es[0]);
      LastFollows(s1, es[1..]);
      var rest := Handled(s1, es[1..]);
      assert ([es[0]] + rest)[1..] == rest;
      if rest != [] {
        assert ([es[0]] + rest)[|rest|] == rest[|rest| - 1];
      }
      forall i: nat | IsLastTimer([es[0]] + rest, i)
        ensures Run(s1, es[1..]).last.timerId == IntId(([es[0]] + rest)[i].iar)
      {
        if i > 0 {
          assert forall j :: 0 < j < |rest| + 1 ==> ([es[0]] + rest)[j] == rest[j - 1];
          assert IsLastTimer(rest, i - 1);
        } else {
          NoTimers([es[0]] + rest);
        }
      }
    }
  }

  lemma {:induction false} NoTimers(es: seq<Event>)
    requires IsLastTimer(es, 0)
    ensures Number(es[1..], Timer) == 0
  {
    hide KindOf;
    NoneOfKind(es[1..]);
  }

  lemma {:induction false} NoneOfKind(es: seq<Event>)
    requires forall j :: 0 <= j < |es| ==> KindOf(es[j].iar) != Timer
    ensures Number(es, Timer) == 0
  {
    hide KindOf;
    if es != [] {
      NoneOfKind(es[1..]);
    }
  }
}
