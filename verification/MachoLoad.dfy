/** The load summary of an accepted artifact: its file bounds, count and sizes. */
module MachoLoad {
  import opened Words
  import opened Runtime
  import opened Masks
  import opened MachoFormat
  import opened MachoSpec
  import opened MachoLayout
  import opened MachoParse
  import opened MachoPlan
  import opened MachoAccept
  import opened MachoFrame

  predicate FileInWord(plan: seq<PlanEntry>) {
    forall e :: e in plan ==> e.fileoff + e.filesize < TWO32
  }

  lemma PlaceFileStep(a: Placing, e: PlanEntry, base: u32)
    requires FitsRam(e.vmaddr, e.vmsize, base) && e.fileoff + e.filesize < TWO32
    ensures var r := PlaceEntry(a, e, base);
            && r.fileBase == (if e.filesize > 0 && e.fileoff < a.fileBase then e.fileoff else a.fileBase)
            && r.fileEnd == (if e.filesize > 0 && e.fileoff + e.filesize > a.fileEnd then e.fileoff + e.filesize
                             else a.fileEnd)
  {
    hide Raise, AlignUpChecked, RoundPage;
    RoundPageAligns(e.vmsize);
  }

  /** From `lo0` and `hi0` on, the bounds of the file ranges in the plan. */
  ghost predicate FileBounds(plan: seq<PlanEntry>, lo0: u32, hi0: u32, lo: u32, hi: u32) {
    && lo <= lo0 && (forall e :: e in plan && e.filesize > 0 ==> lo <= e.fileoff)
    && (lo == lo0 || exists e :: e in plan && e.filesize > 0 && e.fileoff == lo)
    && hi >= hi0 && (forall e :: e in plan && e.filesize > 0 ==> e.fileoff + e.filesize <= hi)
    && (hi == hi0 || exists e :: e in plan && e.filesize > 0 && e.fileoff + e.filesize == hi)
  }

  /** Placing widens the file bounds over the entries with file bytes. */
  lemma {:induction false} PlaceAllFile(a: Placing, plan: seq<PlanEntry>, base: u32)
    requires AllFit(plan, base) && FileInWord(plan)
    ensures FileBounds(plan, a.fileBase, a.fileEnd, PlaceAll(a, plan, base).fileBase, PlaceAll(a, plan, base).fileEnd)
    decreases |plan|
  {
    hide PlaceEntry, FitsRam;
    if plan != [] {
      assert plan == [plan[0]] + plan[1..];
      PlaceFileStep(a, plan[0], base);
      PlaceAllFile(PlaceEntry(a, plan[0], base), plan[1..], base);
    }
  }

  /** A loadable segment with file bytes. */
  predicate FileBacked(gs: seq<Segment>, g: Segment) {
    g in gs && g.vmsize > 0 && g.filesize > 0
  }

  /** The least file offset of those, zero when there is none. */
  ghost predicate IsFileBase(m: u32, gs: seq<Segment>) {
    if exists g :: FileBacked(gs, g)
    then (forall g :: FileBacked(gs, g) ==> m <= g.fileoff) && exists g :: FileBacked(gs, g) && g.fileoff == m
    else m == 0
  }

  /** The greatest end of their file ranges, zero when there is none. */
  ghost predicate IsFileEnd(m: u32, gs: seq<Segment>) {
    if exists g :: FileBacked(gs, g)
    then && (forall g :: FileBacked(gs, g) ==> g.fileoff + g.filesize <= m)
         && exists g :: FileBacked(gs, g) && g.fileoff + g.filesize == m
    else m == 0
  }

  /** The entries have the file ranges of the loadable segments, and the other way round. */
  ghost predicate SameFiles(plan: seq<PlanEntry>, gs: seq<Segment>) {
    && (forall g :: FileBacked(gs, g) ==> exists e :: e in plan && e.fileoff == g.fileoff && e.filesize == g.filesize)
    && (forall e :: e in plan ==>
                      exists g :: g in gs && g.vmsize > 0 && e.fileoff == g.fileoff && e.filesize == g.filesize)
  }

  lemma EntriesAreBacked(gs: seq<Segment>)
    requires Named(Loadable(gs)) && |Loadable(gs)| <= 8
    ensures SameFiles(Planned(0, Loadable(gs)), gs)
  {
    hide Loadable, Planned;
    var plan, loaded := Planned(0, Loadable(gs)), Loadable(gs);
    forall g | FileBacked(gs, g)
      ensures exists e :: e in plan && e.fileoff == g.fileoff && e.filesize == g.filesize
    {
      LoadableAre(gs, g);
      var i :| 0 <= i < |loaded| && loaded[i] == g;
      assert plan[i] in plan;
    }
    forall e | e in plan
      ensures exists g :: g in gs && g.vmsize > 0 && e.fileoff == g.fileoff && e.filesize == g.filesize
    {
      var i :| 0 <= i < |plan| && plan[i] == e;
      LoadableAre(gs, loaded[i]);
      assert loaded[i] in loaded;
    }
  }

  lemma FileRangesInside(b: seq<byte>, offs: seq<nat>)
    requires |b| < TWO32 && AllIn(b, offs) && AllSound(b, offs, |b|)
    ensures forall g :: g in Segments(b, offs) ==> g.fileoff + g.filesize <= |b|
  {
    hide Segments, SegmentAt;
    forall g | g in Segments(b, offs)
      ensures g.fileoff + g.filesize <= |b|
    {
      SegmentsFromCommands(b, offs, g);
      var o :| o in offs && IsSegment(b, o) && SegmentAt(b, o) == g;
      assert CommandSound(b, o, |b|);
    }
  }

  lemma PlannedLoad(f: Facts, gs: seq<Segment>)
    requires Named(Loadable(gs)) && |Loadable(gs)| <= 8 && f.segs.plan == Planned(0, Loadable(gs))
    requires !NothingToPlan(f.segs) && AllFit(f.segs.plan, f.segs.minVm)
    requires forall g :: g in gs ==> g.fileoff + g.filesize < TWO32
    ensures IsFileBase(FinalizeLoad(f).fileBase, gs) && IsFileEnd(FinalizeLoad(f).fileEnd, gs)
    ensures FinalizeLoad(f).count == |Loadable(gs)|
  {
    hide Raise, Has, PlaceAll, AllFit, StatusFail, Loadable, Planned, NothingToPlan, SameFiles, FileBounds,
         FileInWord, IsFileBase, IsFileEnd;
    EntriesAreBacked(gs);
    FilesInWord(f.segs.plan, gs);
    var start := Placing([], RAM_PHYS_BASE, UINT32_MAX, 0, f.fail);
    PlaceAllFile(start, f.segs.plan, f.segs.minVm);
    var p := PlaceAll(start, f.segs.plan, f.segs.minVm);
    BackedBounds(f.segs.plan, gs, p.fileBase, p.fileEnd);
  }

  lemma FilesInWord(plan: seq<PlanEntry>, gs: seq<Segment>)
    requires SameFiles(plan, gs) && forall g :: g in gs ==> g.fileoff + g.filesize < TWO32
    ensures FileInWord(plan)
  {
  }

  lemma BackedBounds(plan: seq<PlanEntry>, gs: seq<Segment>, lo: u32, hi: u32)
    requires forall g :: g in gs ==> g.fileoff + g.filesize < TWO32
    requires SameFiles(plan, gs) && FileBounds(plan, UINT32_MAX, 0, lo, hi)
    ensures IsFileBase(if lo == UINT32_MAX then 0 else lo, gs) && IsFileEnd(hi, gs)
  {
    forall g | FileBacked(gs, g)
      ensures lo <= g.fileoff < UINT32_MAX && 0 < g.fileoff + g.filesize <= hi
    {
      var e :| e in plan && e.fileoff == g.fileoff && e.filesize == g.filesize;
    }
    if lo != UINT32_MAX {
      var e :| e in plan && e.filesize > 0 && e.fileoff == lo;
      var g :| g in gs && g.vmsize > 0 && e.fileoff == g.fileoff && e.filesize == g.filesize;
      assert FileBacked(gs, g);
    }
    if hi != 0 {
      var e :| e in plan && e.filesize > 0 && e.fileoff + e.filesize == hi;
      var g :| g in gs && g.vmsize > 0 && e.fileoff == g.fileoff && e.filesize == g.filesize;
      assert FileBacked(gs, g);
    }
  }

  lemma ParsedLoad(b: seq<byte>, offs: seq<nat>)
    requires CommandsAt(b, offs) && HeaderAt(b).sizeofcmds % 4 == 0 && AllIn(b, offs) && AllSound(b, offs, |b|)
    requires |Loadable(Segments(b, offs))| <= 8 && Segments(b, offs) != []
    requires FinalizeFacts(ParsedFacts(b)).fail == 0
    ensures var gs, load := Segments(b, offs), FinalizeLoad(ParsedFacts(b));
            IsFileBase(load.fileBase, gs) && IsFileEnd(load.fileEnd, gs) && load.count == |Loadable(gs)|
  {
    hide HeaderAt, Segments, ParsedFacts, Planned, AllFit, Loadable, IsFileBase, IsFileEnd, FinalizeFacts,
         FinalizeLoad, NothingToPlan, IsPhysEnd, IsMinStart, IsMaxEnd, AllSound, PlacedEntries;
    ParsedSegments(b, offs);
    FinalizeMeaning(ParsedFacts(b));
    FileRangesInside(b, offs);
    PlannedLoad(ParsedFacts(b), Segments(b, offs));
  }

  /** What an accepting probe says of the whole load. */
  lemma AcceptedLoad(b: seq<byte>, offs: seq<nat>)
    requires |b| < TWO32 && Accepts(b) && CommandsAt(b, offs)
    ensures AllIn(b, offs)
    ensures var gs, load, t := Segments(b, offs), Probe(b).load, Probe(b).facts.segs;
            && IsFileBase(load.fileBase, gs) && IsFileEnd(load.fileEnd, gs)
            && load.count == |Loadable(gs)| == |t.plan|
            && load.physSize == load.physEnd - RAM_PHYS_BASE
            && load.head == PlanHead(t.minVm, t.maxVm, RAM_PHYS_BASE, load.physEnd, load.fileEnd, STATUS_OK)
  {
    hide HeaderAt, Segments, ParsedFacts, Planned, AllFit, Loadable, IsFileBase, IsFileEnd, FinalizeFacts,
         FinalizeLoad, HasSegment, HasSection, HasEntryCommand, AllSound, HeaderGood, IsPhysEnd, IsMaxEnd, IsMinStart,
         CommandsAt, PlanSound, Verdict, PlacedEntries;
    var offs1 := AcceptedHasTiling(b);
    SameTilingOf(b, offs, offs1);
    AcceptedReport(b, offs);
    assert Segments(b, offs) != [] by { NoSegmentInNothing(); }
    assert HeaderAt(b).sizeofcmds % 4 == 0 by { GoodIsAligned(HeaderAt(b)); }
    ParsedLoad(b, offs);
    PhysEndAbove(Probe(b).load.physEnd, Planned(0, Loadable(Segments(b, offs))), Probe(b).facts.segs.minVm);
    LoadIs(b);
  }

  lemma PhysEndAbove(m: u32, plan: seq<PlanEntry>, base: u32)
    requires AllFit(plan, base) && IsPhysEnd(m, RAM_PHYS_BASE, plan, base)
    ensures m >= RAM_PHYS_BASE
  {
  }

  lemma SameTilingOf(b: seq<byte>, offs: seq<nat>, offs': seq<nat>)
    requires CommandsAt(b, offs) && CommandsAt(b, offs')
    ensures offs == offs'
  {
    TilingUnique(b, offs, offs', 28, RegionEnd(b));
  }

  lemma LoadIs(b: seq<byte>)
    requires 28 <= |b| < TWO32 && Probe(b).load.status == STATUS_OK
    requires Probe(b).load.physEnd >= RAM_PHYS_BASE
    ensures var t, load := Probe(b).facts.segs, Probe(b).load;
            && load.physSize == load.physEnd - RAM_PHYS_BASE
            && load.head == PlanHead(t.minVm, t.maxVm, RAM_PHYS_BASE, load.physEnd, load.fileEnd, STATUS_OK)
  {
    hide ParsedFacts, HeaderAt, PlaceAll, Has, Raise, StatusFail;
  }
}
