/** The tables and the workspace for an artifact the prober has accepted: everything they assume of the
    load bounds comes from the load plan. */
module LoadedTables {
  import opened Words
  import opened Masks
  import opened MachoFormat
  import opened MachoSpec
  import opened MachoLayout
  import opened MachoParse
  import opened MachoPlan
  import opened MachoAccept
  import opened MachoFrame
  import opened SectionTable
  import opened SectionTheorems
  import opened DryrunTable
  import opened HighVaTable
  import opened Workspace
  import opened Specimen

  /** What the load plan of an accepted artifact says of its bounds and entries. */
  lemma AcceptedBounds(b: seq<byte>)
    requires |b| < TWO32 && Accepts(b)
    ensures var t, load := Probe(b).facts.segs, Probe(b).load;
            && load.vmBase == t.minVm < t.maxVm == load.vmEnd
            && load.physBase == RAM_PHYS_BASE < load.physEnd <= RAM_CONSOLE_BASE
            && forall e :: e in t.plan ==>
                             && e.vmsize > 0 && t.minVm <= e.vmaddr && e.vmaddr + e.vmsize <= t.maxVm
                             && e.physaddr == RAM_PHYS_BASE + (e.vmaddr - t.minVm)
                             && e.physaddr + e.vmsize <= load.physEnd
  {
    hide Accepts, Probe, CommandsAt, AllIn, HeaderGood, ContentsGood, HeaderAt, Segments, Loadable, Planned,
         IsMinStart, IsMaxEnd, AllFit, IsPhysEnd, Named, PlacedEntries, RegionEnd;
    var offs := AcceptedHasTiling(b);
    AcceptedReport(b, offs);
    var t, load := Probe(b).facts.segs, Probe(b).load;
    PlannedBounds(Segments(b, offs), t.minVm, t.maxVm, load.physEnd);
  }

  lemma PlannedBounds(gs: seq<Segment>, lo: u32, hi: u32, physEnd: u32)
    requires Named(Loadable(gs)) && 1 <= |Loadable(gs)| <= 8 && IsMinStart(gs, lo) && IsMaxEnd(gs, hi)
    requires AllFit(Planned(0, Loadable(gs)), lo) && IsPhysEnd(physEnd, RAM_PHYS_BASE, Planned(0, Loadable(gs)), lo)
    ensures RAM_PHYS_BASE < physEnd <= RAM_CONSOLE_BASE
    ensures forall e :: e in PlacedEntries(Planned(0, Loadable(gs)), lo) ==>
                          && e.vmsize > 0 && lo <= e.vmaddr && e.vmaddr + e.vmsize <= hi
                          && e.physaddr == RAM_PHYS_BASE + (e.vmaddr - lo) && e.physaddr + e.vmsize <= physEnd
  {
    hide Loadable, Planned, RoundPage;
    var planned := Planned(0, Loadable(gs));
    var placed := PlacedEntries(planned, lo);
    forall e | e in placed
      ensures e.vmsize > 0 && lo <= e.vmaddr && e.vmaddr + e.vmsize <= hi
      ensures e.physaddr == RAM_PHYS_BASE + (e.vmaddr - lo) && e.physaddr + e.vmsize <= physEnd
    {
      var i :| 0 <= i < |placed| && placed[i] == e;
      var g := Loadable(gs)[i];
      LoadableAre(gs, g);
      assert planned[i] in planned && g in Loadable(gs);
      RoundPageAligns(e.vmsize);
    }
    assert placed[0] in placed;
  }

  /** The high-address table and the load plan: every byte of every planned segment is translated to the
      place the plan gives it, plus the base address's offset in its section. */
  lemma HighVaAgainstPlan(b: seq<byte>, l1: seq<u32>, e: PlanEntry, x: nat)
    requires |b| < TWO32 && Accepts(b) && |l1| == ENTRIES
    requires e in Probe(b).facts.segs.plan && x < e.vmsize
    ensures var load := Probe(b).load;
            && load.vmBase < load.vmEnd && e.vmaddr + x < TWO32 && e.physaddr + x + load.vmBase % SECTION < TWO32
            && Translate(HighVaMapped(l1, load.vmBase, load.vmEnd, load.physBase), e.vmaddr + x) ==
               Mapped(e.physaddr + x + load.vmBase % SECTION)
  {
    hide Accepts, Probe, Translate, HighVaMapped;
    AcceptedBounds(b);
    HighVaFromBase(l1, Probe(b).load.vmBase, Probe(b).load.vmEnd, e.vmaddr + x);
  }

  /** So the table and the plan agree exactly when the lowest address is section aligned. */
  lemma HighVaAgreesExactly(b: seq<byte>, l1: seq<u32>)
    requires |b| < TWO32 && Accepts(b) && |l1| == ENTRIES
    ensures Probe(b).load.vmBase < Probe(b).load.vmEnd
    ensures (forall e, x: nat :: e in Probe(b).facts.segs.plan && x < e.vmsize ==> TranslatesAsPlanned(b, l1, e, x))
            <==> Probe(b).load.vmBase % SECTION == 0
  {
    hide Accepts, Probe, Translate, HighVaMapped;
    AcceptedBounds(b);
    PlanIsNotEmpty(b);
    var load, plan := Probe(b).load, Probe(b).facts.segs.plan;
    forall e, x: nat | e in plan && x < e.vmsize
      ensures TranslatesAsPlanned(b, l1, e, x) <==> load.vmBase % SECTION == 0
    {
      HighVaAgainstPlan(b, l1, e, x);
    }
    var first := plan[0];
    assert first in plan && (TranslatesAsPlanned(b, l1, first, 0) <==> load.vmBase % SECTION == 0);
  }

  predicate TranslatesAsPlanned(b: seq<byte>, l1: seq<u32>, e: PlanEntry, x: nat)
    requires |b| < TWO32 && |l1| == ENTRIES && Probe(b).load.vmBase < Probe(b).load.vmEnd
  {
    e.vmaddr + x < TWO32 && e.physaddr + x < TWO32 &&
    Translate(HighVaMapped(l1, Probe(b).load.vmBase, Probe(b).load.vmEnd, Probe(b).load.physBase), e.vmaddr + x) ==
    Mapped(e.physaddr + x)
  }

  lemma PlanIsNotEmpty(b: seq<byte>)
    requires |b| < TWO32 && Accepts(b)
    ensures Probe(b).facts.segs.plan != []
  {
    hide Accepts, Probe, CommandsAt, AllIn, HeaderGood, ContentsGood, HeaderAt, Segments, Loadable, Planned;
    var offs := AcceptedHasTiling(b);
    AcceptedReport(b, offs);
  }

  /** The workspace after an accepted artifact: approved exactly when it fits below the RAM console, and
      then laid out without a fault behind every planned segment. */
  lemma AcceptedWorkspace(b: seq<byte>)
    requires |b| < TWO32 && Accepts(b)
    ensures var t, load := Probe(b).facts.segs, Probe(b).load;
            var p := Propose(load, t.minVm, t.maxVm);
            var l := LayOut(p, load);
            && (p.rangeOk <==> (load.physEnd + 0x3fff) / 0x4000 * 0x4000 + 0xa000 < RAM_CONSOLE_BASE)
            && (p.rangeOk ==>
                  && l.fail == 0
                  && l.l1Base % 0x4000 == 0 && l.l1Limit == l.l1Base + 0x4000 == l.l2Base
                  && l.l2Limit == l.l2Base + 0x1000 == l.scratchBase
                  && l.scratchBase <= l.scratchLimit == p.availStart == l.l1Base + 0xa000 < RAM_CONSOLE_BASE
                  && forall e :: e in t.plan ==> e.physaddr + e.vmsize <= l.l1Base)
  {
    hide Accepts, Probe, Propose, LayOut;
    AcceptedBounds(b);
    var t, load := Probe(b).facts.segs, Probe(b).load;
    WorkspaceSound(load, t.minVm, t.maxVm);
  }

  /** And then the identity table is built without a fault: the condition of `BuildIdentity` holds. */
  lemma AcceptedDryrun(b: seq<byte>)
    requires |b| < TWO32 && Accepts(b)
    ensures var t, load := Probe(b).facts.segs, Probe(b).load;
            var p := Propose(load, t.minVm, t.maxVm);
            p.rangeOk ==> MapsIdentity(LayOut(p, load).fail, load.physBase < load.physEnd)
                          && BuildFault(LayOut(p, load).fail, load.physBase < load.physEnd) == 0
  {
    hide Accepts, Probe, Propose, LayOut, Raise;
    AcceptedBounds(b);
    AcceptedWorkspace(b);
    KernelBit();
    RaiseNone(0);
  }

  const ONE := Shape(4, 4, 0, 0, true)

  /** An accepted artifact whose lowest address is one page into its section: its first byte is planned
      for the start of RAM and translated to the page after it. */
  lemma HighVaMissesByAPage(l1: seq<u32>)
    requires |l1| == ENTRIES
    ensures Accepts(Artifact(ONE))
    ensures var r := Probe(Artifact(ONE));
            && r.load.vmBase == 0x8000_1000 < r.load.vmEnd
            && Translate(HighVaMapped(l1, r.load.vmBase, r.load.vmEnd, r.load.physBase), 0x8000_1000) ==
               Mapped(0x8000_1000)
            && exists e :: e in r.facts.segs.plan && e.vmaddr == 0x8000_1000 && e.physaddr == 0x8000_0000
  {
    hide Accepts, Probe, Translate, HighVaMapped, Artifact;
    var b := Artifact(ONE);
    var e := ArtifactFirst(ONE);
    AcceptedBounds(b);
    HighVaAgainstPlan(b, l1, e, 0);
  }

  /** The first entry the planner makes for an artifact of the family. */
  lemma ArtifactFirst(s: Shape) returns (e: PlanEntry)
    requires Small(s)
    ensures Accepts(Artifact(s)) && Probe(Artifact(s)).load.vmBase == 0x8000_1000
    ensures e in Probe(Artifact(s)).facts.segs.plan && e.vmaddr == BASE && e.vmsize == 0x1000
  {
    hide Accepts, Probe, Artifact, CommandsAt, AllIn, Segments, IsMinStart, IsMaxEnd, Loadable, HeaderGood,
         ContentsGood, HeaderAt, RegionEnd, Linkedit, Name16, PlanSound, IsPhysEnd, AllFit, Named;
    var b := Artifact(s);
    ArtifactAccepted(s);
    ArtifactPlan(s);
    AcceptedReport(b, OFFS);
    var t := Probe(b).facts.segs;
    MinStartUnique(Segments(b, OFFS), t.minVm, 0x8000_1000);
    var gs, loaded := [TEXT, DATA, Linkedit(s)], Loadable([TEXT, DATA, Linkedit(s)]);
    assert gs[0] == TEXT && loaded[0] == TEXT;
    e := t.plan[0];
    PlacedFirst(Planned(0, loaded), t.minVm);
  }

  lemma PlacedFirst(plan: seq<PlanEntry>, base: u32)
    requires plan != [] && AllFit(plan, base)
    ensures PlacedEntries(plan, base)[0].vmaddr == plan[0].vmaddr
    ensures PlacedEntries(plan, base)[0].vmsize == plan[0].vmsize
  {
  }
}
