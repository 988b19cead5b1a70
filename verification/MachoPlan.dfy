/** Placing the load plan: when every entry is accepted, and where the entries end up. */
module MachoPlan {
  import opened Words
  import opened Bits
  import opened Runtime
  import opened Masks
  import opened MachoFormat
  import opened MachoSpec
  import opened MachoLayout

  /** The entry with its place in physical memory filled in. */
  function PlacedEntry(e: PlanEntry, base: u32): PlanEntry
    requires FitsRam(e.vmaddr, e.vmsize, base)
  {
    e.(physaddr := RAM_PHYS_BASE + (e.vmaddr - base), physsize := RoundPage(e.vmsize))
  }

  function PlacedEnd(e: PlanEntry, base: u32): u32
    requires FitsRam(e.vmaddr, e.vmsize, base)
  {
    RAM_PHYS_BASE + (e.vmaddr - base) + RoundPage(e.vmsize)
  }

  predicate AllFit(plan: seq<PlanEntry>, base: u32) {
    forall e :: e in plan ==> FitsRam(e.vmaddr, e.vmsize, base)
  }

  function PlacedEntries(plan: seq<PlanEntry>, base: u32): (r: seq<PlanEntry>)
    requires AllFit(plan, base)
    ensures |r| == |plan|
    ensures forall i :: 0 <= i < |r| ==> r[i] == PlacedEntry(plan[i], base)
  {
    if plan == [] then [] else [PlacedEntry(plan[0], base)] + PlacedEntries(plan[1..], base)
  }

  lemma RoundPageAligns(n: u32)
    ensures AlignUpChecked(n, PAGE_SIZE) ==
            if n + 4095 < TWO32 then Aligned(RoundPage(n)) else Unaligned(0)
    ensures n <= RoundPage(n) && RoundPage(n) % 4096 == 0
  {
    hide AlignUpChecked, Pow2;
    Pow2Values();
    AlignUpMeaning(n, 12);
    if n + 4095 < TWO32 {
      var r := AlignUpChecked(n, PAGE_SIZE).value;
      assert r % 4096 == 0 && n <= r < n + 4096;
    }
  }

  lemma PlaceStep(a: Placing, e: PlanEntry, base: u32)
    ensures var r := PlaceEntry(a, e, base);
            && (r.fail == 0 <==> a.fail == 0 && FitsRam(e.vmaddr, e.vmsize, base))
            && (FitsRam(e.vmaddr, e.vmsize, base) ==>
                  && r.entries == a.entries + [PlacedEntry(e, base)]
                  && r.physEnd == Max32(a.physEnd, PlacedEnd(e, base)))
  {
    hide Raise, AlignUpChecked, RoundPage;
    RoundPageAligns(e.vmsize);
    RaiseNothing(a.fail, FAIL_LOAD_PLAN);
    RaiseNothing(a.fail, FAIL_PHYS_RANGE);
    RaiseNothing(a.fail, 0);
  }

  /** The highest end any placed entry reaches, or the given floor. */
  predicate IsPhysEnd(m: u32, floor: u32, plan: seq<PlanEntry>, base: u32)
    requires AllFit(plan, base)
  {
    && m >= floor
    && (forall e :: e in plan ==> PlacedEnd(e, base) <= m)
    && (m == floor || exists e :: e in plan && PlacedEnd(e, base) == m)
  }

  lemma {:induction false} PlaceAllFail(a: Placing, plan: seq<PlanEntry>, base: u32)
    ensures PlaceAll(a, plan, base).fail == 0 <==> a.fail == 0 && AllFit(plan, base)
    decreases |plan|
  {
    hide PlaceEntry, FitsRam, PlacedEntry;
    if plan != [] {
      assert plan == [plan[0]] + plan[1..];
      PlaceStep(a, plan[0], base);
      PlaceAllFail(PlaceEntry(a, plan[0], base), plan[1..], base);
    }
  }

  lemma {:induction false} PlaceAllEntries(a: Placing, plan: seq<PlanEntry>, base: u32)
    requires AllFit(plan, base)
    ensures PlaceAll(a, plan, base).entries == a.entries + PlacedEntries(plan, base)
    decreases |plan|
  {
    hide PlaceEntry, FitsRam, PlacedEntry;
    if plan != [] {
      PlaceStep(a, plan[0], base);
      PlaceAllEntries(PlaceEntry(a, plan[0], base), plan[1..], base);
    }
  }

  lemma {:induction false} PlaceAllEnd(a: Placing, plan: seq<PlanEntry>, base: u32)
    requires AllFit(plan, base)
    ensures IsPhysEnd(PlaceAll(a, plan, base).physEnd, a.physEnd, plan, base)
    decreases |plan|
  {
    hide PlaceEntry, FitsRam, PlacedEnd;
    if plan != [] {
      assert plan == [plan[0]] + plan[1..];
      PlaceStep(a, plan[0], base);
      PlaceAllEnd(PlaceEntry(a, plan[0], base), plan[1..], base);
    }
  }

  lemma FlagRaised(m: bv32, flags: bv32)
    ensures m == 0 ==> !Has(m, flags)
  {
  }

  /** Planning raises nothing exactly when there is something to plan and every entry fits. */
  lemma FinalizeMeaning(f: Facts)
    ensures FinalizeFacts(f).fail == 0 <==>
            f.fail == 0 && !NothingToPlan(f.segs) && AllFit(f.segs.plan, f.segs.minVm)
    ensures FinalizeFacts(f).fail == 0 ==>
              && FinalizeFacts(f).segs == f.segs.(plan := PlacedEntries(f.segs.plan, f.segs.minVm))
              && FinalizeFacts(f).valid == Raise(f.valid, VALID_LOAD_PLAN)
              && FinalizeFacts(f).cmds == f.cmds && FinalizeFacts(f).sects == f.sects
              && FinalizeLoad(f).status == STATUS_OK
              && FinalizeLoad(f).vmBase == f.segs.minVm && FinalizeLoad(f).vmEnd == f.segs.maxVm
              && FinalizeLoad(f).physBase == RAM_PHYS_BASE
              && IsPhysEnd(FinalizeLoad(f).physEnd, RAM_PHYS_BASE, f.segs.plan, f.segs.minVm)
  {
    hide Raise, Has, PlaceAll, AllFit, IsPhysEnd;
    if NothingToPlan(f.segs) {
      RaiseNothing(f.fail, FAIL_LOAD_PLAN);
    } else {
      var start := Placing([], RAM_PHYS_BASE, UINT32_MAX, 0, f.fail);
      PlaceAllFail(start, f.segs.plan, f.segs.minVm);
      if AllFit(f.segs.plan, f.segs.minVm) {
        PlaceAllEntries(start, f.segs.plan, f.segs.minVm);
        PlaceAllEnd(start, f.segs.plan, f.segs.minVm);
      }
      FlagRaised(Placed(f).fail, FAIL_PLAN_MASK);
    }
  }

  // ----- the plan's own status -----

  lemma PlaceRaises(a: Placing, e: PlanEntry, base: u32)
    ensures Has(PlaceEntry(a, e, base).fail, FAIL_PLAN_MASK) <==>
            Has(a.fail, FAIL_PLAN_MASK) || !FitsRam(e.vmaddr, e.vmsize, base)
  {
    hide Raise, Has, AlignUpChecked, RoundPage;
    RoundPageAligns(e.vmsize);
    RaiseHas(a.fail, FAIL_LOAD_PLAN, FAIL_PLAN_MASK);
    RaiseHas(a.fail, FAIL_PHYS_RANGE, FAIL_PLAN_MASK);
    RaiseHas(a.fail, 0, FAIL_PLAN_MASK);
    PlanBits();
  }

  lemma PlanBits()
    ensures Has(FAIL_LOAD_PLAN, FAIL_PLAN_MASK) && Has(FAIL_PHYS_RANGE, FAIL_PLAN_MASK) && !Has(0, FAIL_PLAN_MASK)
  {
  }

  lemma {:induction false} PlaceAllRaises(a: Placing, plan: seq<PlanEntry>, base: u32)
    ensures Has(PlaceAll(a, plan, base).fail, FAIL_PLAN_MASK) <==> Has(a.fail, FAIL_PLAN_MASK) || !AllFit(plan, base)
    decreases |plan|
  {
    hide PlaceEntry, FitsRam, Has;
    if plan != [] {
      assert plan == [plan[0]] + plan[1..];
      PlaceRaises(a, plan[0], base);
      PlaceAllRaises(PlaceEntry(a, plan[0], base), plan[1..], base);
    }
  }

  /** The planner reports success exactly when there is something to plan, the table did not overflow,
      and every entry fits; whatever other failures the parse has raised. */
  lemma PlanStatusOk(f: Facts)
    ensures FinalizeLoad(f).status == STATUS_OK <==>
            && !NothingToPlan(f.segs) && !Has(f.fail, FAIL_PLAN_MASK) && AllFit(f.segs.plan, f.segs.minVm)
    ensures FinalizeLoad(f).status == STATUS_OK ==>
              && FinalizeFacts(f).segs.plan == PlacedEntries(f.segs.plan, f.segs.minVm)
              && FinalizeLoad(f).physBase == RAM_PHYS_BASE
              && IsPhysEnd(FinalizeLoad(f).physEnd, RAM_PHYS_BASE, f.segs.plan, f.segs.minVm)
  {
    hide Raise, Has, PlaceAll, AllFit, IsPhysEnd, StatusFail;
    if !NothingToPlan(f.segs) {
      var start := Placing([], RAM_PHYS_BASE, UINT32_MAX, 0, f.fail);
      PlaceAllRaises(start, f.segs.plan, f.segs.minVm);
      StatusFailIsNotOk(Placed(f).fail);
      if AllFit(f.segs.plan, f.segs.minVm) {
        PlaceAllEntries(start, f.segs.plan, f.segs.minVm);
        PlaceAllEnd(start, f.segs.plan, f.segs.minVm);
      }
    }
  }

  /** Placed entries keep one distance from their addresses, stay in the boot bank with their rounded
      size, and give disjoint memory to disjoint address ranges. */
  lemma PlacedIsLinear(plan: seq<PlanEntry>, base: u32, i: nat, j: nat)
    requires AllFit(plan, base) && i < |plan| && j < |plan|
    ensures var p := PlacedEntries(plan, base);
            && p[i].physaddr - p[i].vmaddr == p[j].physaddr - p[j].vmaddr == RAM_PHYS_BASE - base
            && RAM_PHYS_BASE <= p[i].physaddr && p[i].physaddr + p[i].physsize <= RAM_CONSOLE_BASE
            && p[i].vmsize <= p[i].physsize && p[i].physsize % PAGE_SIZE == 0
            && (p[i].vmaddr + p[i].vmsize <= p[j].vmaddr ==> p[i].physaddr + p[i].vmsize <= p[j].physaddr)
  {
    hide PlacedEntries, RoundPage;
    assert FitsRam(plan[i].vmaddr, plan[i].vmsize, base) && FitsRam(plan[j].vmaddr, plan[j].vmsize, base);
    RoundPageAligns(plan[i].vmsize);
  }
}
