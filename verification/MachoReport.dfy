/** Everything the prober reports about an arbitrary file, said by the commands it visits: every flag, every
    mask, every kept extent, and the bounds of the load. */
module MachoReport {
  import opened Words
  import opened Runtime
  import opened Masks
  import opened MachoFormat
  import opened MachoSpec
  import opened MachoLayout
  import opened MachoParse
  import opened MachoPlan
  import opened MachoAccept
  import opened MachoFrame
  import opened MachoCut
  import opened MachoNames
  import opened MachoSums
  import opened MachoFaults

  // ----- from the loop to the report -----

  /** The facts once the loop is over. */
  ghost function LoopFacts(b: seq<byte>, offs: seq<nat>, stop: u32): Facts
    requires Visits(b, offs, stop)
  {
    VisitedIn(b, offs, stop);
    Fold(StartOf(b), b, |b|, offs)
  }

  /** What the closing tests leave as the loop left it. */
  lemma ReportKeeps(b: seq<byte>, offs: seq<nat>, stop: u32)
    requires Visits(b, offs, stop)
    ensures var f, r := LoopFacts(b, offs, stop), Probe(b).facts;
            r.cmds == f.cmds && r.sects == f.sects && r.maxExtent == f.maxExtent
            && r.segs == f.segs.(plan := r.segs.plan)
    ensures ParsedFacts(b).segs == LoopFacts(b, offs, stop).segs
  {
    hide HeaderAt, Fold, CheckCommands, ConclusionValid, MissingFault, HasEntry, Raise, Has, Placed, StartFacts,
         Visits, Verdict, FinalizeLoad;
    VisitedIn(b, offs, stop);
    CommandsRead(b, offs, stop);
  }

  lemma StartsEmpty(b: seq<byte>)
    requires |b| >= 28
    ensures StartOf(b).cmds == NO_COMMANDS && StartOf(b).segs == NO_SEGMENTS && StartOf(b).sects == NO_SECTIONS
    ensures StartOf(b).maxExtent == 0 && StartOf(b).fail == HeaderFault(HeaderAt(b))
    ensures StartOf(b).valid == Raise(HeaderValid(HeaderAt(b)), Flag(RegionGood(b), VALID_COMMAND_BOUNDS))
  {
    hide HeaderFault, HeaderValid, HeaderAt, RegionGood, Raise;
  }

  // ----- segments -----

  lemma FewSegments(b: seq<byte>, offs: seq<nat>, stop: u32)
    requires Visits(b, offs, stop)
    ensures 28 <= |b| < TWO32 && AllIn(b, offs) && |Segments(b, offs)| <= |offs| < TWO32
  {
    hide Segments;
    VisitedIn(b, offs, stop);
  }

  ghost predicate IsHighest(m: u32, gs: seq<Segment>) {
    && (forall g :: g in gs && Keeps(g) ==> g.vmaddr + g.vmsize <= m)
    && (m == 0 || exists g :: g in gs && Keeps(g) && g.vmaddr + g.vmsize == m)
  }

  /** Count, bounds, names and the six kept extents, for any file. */
  lemma ReportedSegments(b: seq<byte>, offs: seq<nat>, stop: u32, k: bv32)
    requires Visits(b, offs, stop)
    ensures AllIn(b, offs)
    ensures var gs, t := Segments(b, offs), Probe(b).facts.segs;
            && t.count == |gs| && IsLowest(t.minVm, gs) && IsHighest(t.maxVm, gs)
            && (Has(t.mask, k) <==> Shows(gs, k)) && (Has(t.prelinkMask, k) <==> ShowsPrelink(gs, k))
            && IsLastExtent(t.key.text, NO_EXTENT, gs, "__TEXT")
            && IsLastExtent(t.key.data, NO_EXTENT, gs, "__DATA")
            && IsLastExtent(t.key.linkedit, NO_EXTENT, gs, "__LINKEDIT")
            && IsLastExtent(t.key.prelinkText, NO_EXTENT, gs, "__PRELINK_TEXT")
            && IsLastExtent(t.key.prelinkInfo, NO_EXTENT, gs, "__PRELINK_INFO")
            && IsLastExtent(t.key.prelinkState, NO_EXTENT, gs, "__PRELINK_STATE")
  {
    hide HeaderAt, Segments, Fold, FoldSegments, Probe, IsLowest, Shows, ShowsPrelink, IsLastExtent, Has, Visits,
         StartOf, Keeps;
    FewSegments(b, offs, stop);
    ReportKeeps(b, offs, stop);
    StartsEmpty(b);
    FoldsSegments(StartOf(b), b, |b|, offs);
    FoldedSegments(Segments(b, offs), k);
    FoldedKeys(Segments(b, offs));
  }

  /** The totals of any list of segments, from nothing. */
  lemma FoldedSegments(gs: seq<Segment>, k: bv32)
    requires Named(gs) && |gs| < TWO32
    ensures var t := FoldSegments(NO_SEGMENTS, gs);
            && t.count == |gs| && IsLowest(t.minVm, gs) && IsHighest(t.maxVm, gs)
            && (Has(t.mask, k) <==> Shows(gs, k)) && (Has(t.prelinkMask, k) <==> ShowsPrelink(gs, k))
  {
    hide FoldSegments, IsLowest, Shows, ShowsPrelink, Has, Keeps, Wrap;
    NoneHas(k);
    SumCount(NO_SEGMENTS, gs);
    SmallWrap(|gs|);
    LowestStart(NO_SEGMENTS, gs);
    HighestEnd(NO_SEGMENTS, gs);
    MasksShow(NO_SEGMENTS, gs, k);
  }

  lemma FoldedKeys(gs: seq<Segment>)
    requires Named(gs)
    ensures var key := FoldSegments(NO_SEGMENTS, gs).key;
            && IsLastExtent(key.text, NO_EXTENT, gs, "__TEXT")
            && IsLastExtent(key.data, NO_EXTENT, gs, "__DATA")
            && IsLastExtent(key.linkedit, NO_EXTENT, gs, "__LINKEDIT")
            && IsLastExtent(key.prelinkText, NO_EXTENT, gs, "__PRELINK_TEXT")
            && IsLastExtent(key.prelinkInfo, NO_EXTENT, gs, "__PRELINK_INFO")
            && IsLastExtent(key.prelinkState, NO_EXTENT, gs, "__PRELINK_STATE")
  {
    hide FoldSegments, IsLastExtent;
    KeysAreLast(NO_SEGMENTS, gs, 0);
    KeysAreLast(NO_SEGMENTS, gs, 1);
    KeysAreLast(NO_SEGMENTS, gs, 2);
    KeysAreLast(NO_SEGMENTS, gs, 5);
    KeysAreLast(NO_SEGMENTS, gs, 6);
    KeysAreLast(NO_SEGMENTS, gs, 7);
  }

  lemma NoneHas(k: bv32)
    ensures !Has(0, k)
  {
  }

  // ----- sections -----

  /** Count, names and the four kept spans, for any file. */
  lemma ReportedSections(b: seq<byte>, offs: seq<nat>, stop: u32, k: bv32)
    requires Visits(b, offs, stop)
    ensures AllIn(b, offs)
    ensures var ss, t := Sections(b, offs), Probe(b).facts.sects;
            && t.count == Wrap(|ss|)
            && (Has(t.mask, k) <==> ShowsSection(ss, k)) && (Has(t.prelinkMask, k) <==> ShowsPrelinkSection(ss, k))
            && IsLastSpan(t.key.text, NO_SPAN, ss, 0)
            && IsLastSpan(t.key.dataConst, NO_SPAN, ss, 1)
            && IsLastSpan(t.key.prelinkText, NO_SPAN, ss, 2)
            && IsLastSpan(t.key.prelinkInfo, NO_SPAN, ss, 3)
  {
    hide HeaderAt, Sections, Fold, FoldSections, Probe, ShowsSection, ShowsPrelinkSection, IsLastSpan, Has, Visits,
         StartOf, Wrap;
    FewSegments(b, offs, stop);
    ReportKeeps(b, offs, stop);
    StartsEmpty(b);
    NoneHas(k);
    FoldsSections(StartOf(b), b, |b|, offs);
    SectionMasksShow(NO_SECTIONS, Sections(b, offs), k);
    assert 0 + |Sections(b, offs)| == |Sections(b, offs)|;
    FoldedSpans(Sections(b, offs));
  }

  lemma FoldedSpans(ss: seq<Section>)
    requires Paired(ss)
    ensures var key := FoldSections(NO_SECTIONS, ss).key;
            && IsLastSpan(key.text, NO_SPAN, ss, 0) && IsLastSpan(key.dataConst, NO_SPAN, ss, 1)
            && IsLastSpan(key.prelinkText, NO_SPAN, ss, 2) && IsLastSpan(key.prelinkInfo, NO_SPAN, ss, 3)
  {
    hide FoldSections, IsLastSpan;
    SpansAreLast(NO_SECTIONS, ss, 0);
    SpansAreLast(NO_SECTIONS, ss, 1);
    SpansAreLast(NO_SECTIONS, ss, 2);
    SpansAreLast(NO_SECTIONS, ss, 3);
  }

  // ----- commands -----

  /** Kinds, entry metadata and the furthest file range, for any file. */
  lemma ReportedCommands(b: seq<byte>, offs: seq<nat>, stop: u32, k: bv32)
    requires Visits(b, offs, stop)
    ensures AllIn(b, offs)
    ensures var c := Probe(b).facts.cmds;
            && c.count == |offs| && c.unknown == Wrap(Unknowns(b, offs))
            && (Has(c.mask, k) <==> SomeKind(b, offs, k))
            && (Has(c.entryKind, k) <==> Has(0x9000_0000, k) || SomeEntry(b, offs, k))
            && IsLastEntry(c.entryPc, 0, b, offs)
    ensures IsFurthest(Probe(b).facts.maxExtent, 0, AllEnds(b, offs))
  {
    hide HeaderAt, Fold, Probe, SomeKind, SomeEntry, IsLastEntry, IsFurthest, AllEnds, Has, Visits, StartOf, Wrap,
         Unknowns;
    FewSegments(b, offs, stop);
    ReportKeeps(b, offs, stop);
    StartsEmpty(b);
    NoneHas(k);
    LoopNotes(StartOf(b), b, |b|, offs, k);
    SmallWrap(|offs|);
    assert 0 + Unknowns(b, offs) == Unknowns(b, offs);
    LoopMoves(StartOf(b), b, |b|, offs);
  }

  // ----- the failure word -----

  lemma RaiseFive(a: bv32, b: bv32, c: bv32, d: bv32, e: bv32, k: bv32)
    ensures Has(Raise(Raise(Raise(Raise(a, b), c), d), e), k) <==>
            Has(a, k) || Has(b, k) || Has(c, k) || Has(d, k) || Has(e, k)
  {
    hide Has, Raise;
    RaiseHas(a, b, k);
    RaiseHas(Raise(a, b), c, k);
    RaiseHas(Raise(Raise(a, b), c), d, k);
    RaiseHas(Raise(Raise(Raise(a, b), c), d), e, k);
  }

  predicate HeaderRaises(h: Header, k: bv32) {
    || (h.magic != 0xfeed_face && h.magic != 0xcefa_edfe && Has(FAIL_MAGIC, k))
    || (h.magic == 0xcefa_edfe && Has(FAIL_ENDIAN, k))
    || (h.cputype != 12 && Has(FAIL_CPU, k))
    || (h.cpusubtype != 0 && h.cpusubtype != 9 && Has(FAIL_SUBTYPE, k))
    || (h.filetype != 2 && h.filetype != 5 && Has(FAIL_FILETYPE, k))
  }

  predicate HeaderShows(h: Header, k: bv32) {
    || ((h.magic == 0xfeed_face || h.magic == 0xcefa_edfe) && Has(VALID_MAGIC, k))
    || (h.magic == 0xfeed_face && Has(VALID_ENDIAN, k))
    || (h.cputype == 12 && Has(VALID_CPU, k))
    || ((h.cpusubtype == 0 || h.cpusubtype == 9) && Has(VALID_SUBTYPE, k))
    || ((h.filetype == 2 || h.filetype == 5) && Has(VALID_FILETYPE, k))
  }

  lemma HeaderFlags(h: Header, k: bv32)
    ensures Has(HeaderFault(h), k) <==> HeaderRaises(h, k)
    ensures Has(HeaderValid(h), k) <==> HeaderShows(h, k)
  {
    HeaderFaultFlags(h, k);
    HeaderValidFlags(h, k);
  }

  /** Five flags on five conditions. */
  lemma FiveFlags(p: bool, a: bv32, q: bool, b: bv32, r: bool, c: bv32, s: bool, d: bv32, t: bool, e: bv32, k: bv32)
    ensures Has(Raise(Raise(Raise(Raise(Flag(p, a), Flag(q, b)), Flag(r, c)), Flag(s, d)), Flag(t, e)), k) <==>
            (p && Has(a, k)) || (q && Has(b, k)) || (r && Has(c, k)) || (s && Has(d, k)) || (t && Has(e, k))
  {
    hide Has, Flag, Raise;
    FlagHas(p, a, k);
    FlagHas(q, b, k);
    FlagHas(r, c, k);
    FlagHas(s, d, k);
    FlagHas(t, e, k);
    RaiseFive(Flag(p, a), Flag(q, b), Flag(r, c), Flag(s, d), Flag(t, e), k);
  }

  lemma HeaderFaultFlags(h: Header, k: bv32)
    ensures Has(HeaderFault(h), k) <==> HeaderRaises(h, k)
  {
    var p, q := h.magic != MAGIC && h.magic != CIGAM, h.magic == CIGAM;
    var r, s, t := h.cputype != CPU_TYPE_ARM, !KnownSubtype(h), !KnownFiletype(h);
    FiveFlags(p, FAIL_MAGIC, q, FAIL_ENDIAN, r, FAIL_CPU, s, FAIL_SUBTYPE, t, FAIL_FILETYPE, k);
    hide Has, Flag, Raise;
  }

  lemma HeaderValidFlags(h: Header, k: bv32)
    ensures Has(HeaderValid(h), k) <==> HeaderShows(h, k)
  {
    var p, q := h.magic == MAGIC || h.magic == CIGAM, h.magic == MAGIC;
    var r, s, t := h.cputype == CPU_TYPE_ARM, KnownSubtype(h), KnownFiletype(h);
    FiveFlags(p, VALID_MAGIC, q, VALID_ENDIAN, r, VALID_CPU, s, VALID_SUBTYPE, t, VALID_FILETYPE, k);
    hide Has, Flag, Raise;
  }

  ghost predicate SomeSpells(gs: seq<Segment>, name: string) {
    exists g :: g in gs && Spells(g, name)
  }

  ghost predicate SomePair(ss: seq<Section>, i: nat)
    requires Paired(ss) && i < 9
  {
    exists s :: s in ss && PairIs(s, i)
  }

  /** The three segments and the two sections that must be there, and an entry command. */
  ghost predicate RequiredSegmentsSeen(gs: seq<Segment>) {
    SomeSpells(gs, "__TEXT") && SomeSpells(gs, "__DATA") && SomeSpells(gs, "__LINKEDIT")
  }

  ghost predicate RequiredSectionsSeen(ss: seq<Section>)
    requires Paired(ss)
  {
    SomePair(ss, 0) && SomePair(ss, 1)
  }

  lemma ShowsMeans(gs: seq<Segment>, i: nat)
    requires Named(gs) && i < 9
    ensures Shows(gs, SEGMENT_NAMES[i].1) <==> SomeSpells(gs, SEGMENT_NAMES[i].0)
  {
    hide SegmentMask, Has, NameIs, Keeps;
    forall g | g in gs
      ensures Has(SegmentMask(g.name), SEGMENT_NAMES[i].1) <==> NameIs(g.name, SEGMENT_NAMES[i].0)
    {
      SegmentBit(g.name, i);
    }
  }

  lemma ShowsSectionMeans(ss: seq<Section>, i: nat)
    requires Paired(ss) && i < 9
    ensures ShowsSection(ss, SECTION_NAMES[i].2) <==> SomePair(ss, i)
  {
    hide SectionMask, Has, PairIs;
    forall s | s in ss
      ensures Has(SectionMask(s), SECTION_NAMES[i].2) <==> PairIs(s, i)
    {
      SectionBit(s, i);
    }
  }

  lemma RequiredMeans(b: seq<byte>, offs: seq<nat>, stop: u32)
    requires Visits(b, offs, stop)
    ensures AllIn(b, offs)
    ensures var f := LoopFacts(b, offs, stop);
            && (HasSegments(f) <==> RequiredSegmentsSeen(Segments(b, offs)))
            && (HasSections(f) <==> RequiredSectionsSeen(Sections(b, offs)))
            && (HasEntry(f) <==> HasEntryCommand(b, offs))
  {
    hide HeaderAt, Segments, Sections, Fold, FoldSegments, FoldSections, Probe, Shows, ShowsSection, Has, Visits,
         StartOf, SomeSpells, SomePair, HasEntryCommand, Keeps, IsLowest, IsLastExtent, ShowsPrelink;
    FewSegments(b, offs, stop);
    StartsEmpty(b);
    var f, gs, ss := LoopFacts(b, offs, stop), Segments(b, offs), Sections(b, offs);
    RequiredSegments(f.segs.mask);
    RequiredSections(f.sects.mask);
    FoldsSegments(StartOf(b), b, |b|, offs);
    FoldsSections(StartOf(b), b, |b|, offs);
    FoldEntry(StartOf(b), b, |b|, offs);
    NothingInZero();
    assert HasEntry(StartOf(b)) == Has(ENTRY_NOT_EXECUTED, ENTRY_ANY);
    MasksShow(NO_SEGMENTS, gs, 0x1);
    MasksShow(NO_SEGMENTS, gs, 0x2);
    MasksShow(NO_SEGMENTS, gs, 0x4);
    ShowsMeans(gs, 0);
    ShowsMeans(gs, 1);
    ShowsMeans(gs, 2);
    SectionMasksShow(NO_SECTIONS, ss, 0x1);
    SectionMasksShow(NO_SECTIONS, ss, 0x2);
    ShowsSectionMeans(ss, 0);
    ShowsSectionMeans(ss, 1);
  }

  /** The plan is empty, or the bounds are no range. */
  predicate NoPlan(t: SegmentFacts, gs: seq<Segment>) {
    Plannable(gs) == [] || t.minVm == 0 || t.maxVm <= t.minVm
  }

  predicate Misplaced(t: SegmentFacts) {
    exists e :: e in t.plan && !FitsRam(e.vmaddr, e.vmsize, t.minVm)
  }

  /** Which flags of the failure word are raised. */
  ghost predicate Raised(b: seq<byte>, offs: seq<nat>, stop: u32, k: bv32)
    requires Visits(b, offs, stop) && AllIn(b, offs)
  {
    var gs, t := Segments(b, offs), Probe(b).facts.segs;
    || HeaderRaises(HeaderAt(b), k)
    || (!ReadWhole(b, offs, stop) && Has(FAIL_COMMAND_BOUNDS, k))
    || (LeftOnSize(b, offs, stop) && Has(FAIL_COMMAND_SIZE, k))
    || SomeRaises(b, offs, |b|, k)
    || (|Plannable(gs)| > 8 && Has(FAIL_LOAD_PLAN_FULL, k))
    || (!RequiredSegmentsSeen(gs) && Has(FAIL_REQUIRED_SEGMENTS, k))
    || (!RequiredSectionsSeen(Sections(b, offs)) && Has(FAIL_REQUIRED_SECTIONS, k))
    || (!HasEntryCommand(b, offs) && Has(FAIL_NO_ENTRY_METADATA, k))
    || (NoPlan(t, gs) && Has(FAIL_LOAD_PLAN, k))
    || (!NoPlan(t, gs) && Misplaced(t) && Has(FAIL_PHYS_RANGE, k))
  }

  lemma ConcludeRaises(f: Facts, k: bv32)
    ensures Has(MissingFault(f), k) <==>
            || Has(f.fail, k) || (!HasSegments(f) && Has(FAIL_REQUIRED_SEGMENTS, k))
            || (!HasSections(f) && Has(FAIL_REQUIRED_SECTIONS, k))
    ensures Has(Conclude(f).fail, k) <==>
            Has(MissingFault(f), k) || (!HasEntry(f) && Has(FAIL_NO_ENTRY_METADATA, k))
  {
    hide Raise, Has, HasSegments, HasSections, HasEntry, Flag, ConclusionValid;
    var x, y := Flag(!HasSegments(f), FAIL_REQUIRED_SEGMENTS), Flag(!HasSections(f), FAIL_REQUIRED_SECTIONS);
    FlagHas(!HasSegments(f), FAIL_REQUIRED_SEGMENTS, k);
    FlagHas(!HasSections(f), FAIL_REQUIRED_SECTIONS, k);
    FlagHas(!HasEntry(f), FAIL_NO_ENTRY_METADATA, k);
    RaiseHas(f.fail, x, k);
    RaiseHas(Raise(f.fail, x), y, k);
    RaiseHas(MissingFault(f), Flag(!HasEntry(f), FAIL_NO_ENTRY_METADATA), k);
  }

  /** Placing one entry: below the minimum, or not fitting, or fitting. */
  lemma PlaceOneRaises(a: Placing, e: PlanEntry, base: u32, k: bv32)
    requires base <= e.vmaddr
    ensures var r := PlaceEntry(a, e, base);
            && (Has(r.fail, k) <==> Has(a.fail, k) || (!FitsRam(e.vmaddr, e.vmsize, base) && Has(FAIL_PHYS_RANGE, k)))
            && |r.entries| == |a.entries| + 1 && r.entries[..|a.entries|] == a.entries
            && SameButPlace(r.entries[|a.entries|], e)
  {
    hide Raise, Has, AlignUpChecked, RoundPage;
    RoundPageAligns(e.vmsize);
    RaiseHas(a.fail, FAIL_PHYS_RANGE, k);
    RaiseNone(a.fail);
  }

  /** The same entry, its place in physical memory apart. */
  predicate SameButPlace(e: PlanEntry, was: PlanEntry) {
    e.(physaddr := 0, physsize := 0) == was.(physaddr := 0, physsize := 0)
  }

  lemma {:induction false} PlaceRaisesAll(a: Placing, plan: seq<PlanEntry>, base: u32, k: bv32)
    requires forall e :: e in plan ==> base <= e.vmaddr
    ensures var r := PlaceAll(a, plan, base);
            && (Has(r.fail, k) <==>
                  Has(a.fail, k) ||
                  ((exists e :: e in plan && !FitsRam(e.vmaddr, e.vmsize, base)) && Has(FAIL_PHYS_RANGE, k)))
            && |r.entries| == |a.entries| + |plan| && r.entries[..|a.entries|] == a.entries
            && forall i :: 0 <= i < |plan| ==> SameButPlace(r.entries[|a.entries| + i], plan[i])
    decreases |plan|
  {
    hide PlaceEntry, FitsRam, Has, SameButPlace;
    if plan != [] {
      var n := |a.entries|;
      assert plan == [plan[0]] + plan[1..];
      PlaceOneRaises(a, plan[0], base, k);
      var a1 := PlaceEntry(a, plan[0], base);
      PlaceRaisesAll(a1, plan[1..], base, k);
      var r := PlaceAll(a, plan, base);
      assert r.entries[..n] == r.entries[..n + 1][..n] == a.entries;
      assert r.entries[n] == r.entries[..n + 1][n] == a1.entries[n];
      forall i | 0 <= i < |plan|
        ensures SameButPlace(r.entries[n + i], plan[i])
      {
        if i > 0 {
          assert plan[i] == plan[1..][i - 1];
        }
      }
    }
  }

  lemma FinalizeRaises(f: Facts, k: bv32)
    requires forall e :: e in f.segs.plan ==> f.segs.minVm <= e.vmaddr || NothingToPlan(f.segs)
    ensures Has(FinalizeFacts(f).fail, k) <==>
            || Has(f.fail, k) || (NothingToPlan(f.segs) && Has(FAIL_LOAD_PLAN, k))
            || (!NothingToPlan(f.segs) && !AllFit(f.segs.plan, f.segs.minVm) && Has(FAIL_PHYS_RANGE, k))
    ensures |FinalizeFacts(f).segs.plan| == |f.segs.plan|
    ensures forall i :: 0 <= i < |f.segs.plan| ==> SameButPlace(FinalizeFacts(f).segs.plan[i], f.segs.plan[i])
  {
    hide Raise, Has, PlaceAll, FitsRam, Flag;
    if NothingToPlan(f.segs) {
      RaiseHas(f.fail, FAIL_LOAD_PLAN, k);
    } else {
      PlaceRaisesAll(Placing([], RAM_PHYS_BASE, UINT32_MAX, 0, f.fail), f.segs.plan, f.segs.minVm, k);
    }
  }

  // ----- the plan -----

  /** The plan after the loop, and that no entry of it lies below the minimum unless there is no plan. */
  lemma LoopPlan(b: seq<byte>, offs: seq<nat>, stop: u32)
    requires Visits(b, offs, stop)
    ensures AllIn(b, offs)
    ensures var gs, t := Segments(b, offs), LoopFacts(b, offs, stop).segs;
            && |t.plan| == (if |Plannable(gs)| <= 8 then |Plannable(gs)| else 8)
            && (forall i :: 0 <= i < |t.plan| ==> Describes(t.plan[i], i, Plannable(gs)[i]))
            && (NothingToPlan(t) <==> NoPlan(t, gs))
            && forall e :: e in t.plan ==> t.minVm <= e.vmaddr || NothingToPlan(t)
  {
    hide HeaderAt, Segments, Fold, FoldSegments, Probe, Has, Visits, StartOf, SegmentMask, Without, Shows,
         ShowsPrelink, Plannable, IsHighest;
    FewSegments(b, offs, stop);
    StartsEmpty(b);
    FoldsSegments(StartOf(b), b, |b|, offs);
    var gs, t := Segments(b, offs), LoopFacts(b, offs, stop).segs;
    FoldedSegments(gs, 0);
    PlanDescribes(NO_SEGMENTS, gs);
    forall e | e in t.plan
      ensures t.minVm <= e.vmaddr || NothingToPlan(t)
    {
      var i :| 0 <= i < |t.plan| && t.plan[i] == e;
      var g := Plannable(gs)[i];
      assert Describes(e, i, g) && g in Plannable(gs);
      LowestIsBelow(t.minVm, gs, g);
    }
  }

  lemma LowestIsBelow(m: u32, gs: seq<Segment>, g: Segment)
    requires IsLowest(m, gs) && g in gs && Keeps(g)
    ensures m <= g.vmaddr
  {
  }

  lemma PlanShifts(plan: seq<PlanEntry>, plan': seq<PlanEntry>, base: u32)
    requires |plan| == |plan'| && forall i :: 0 <= i < |plan| ==> SameButPlace(plan'[i], plan[i])
    ensures (exists e :: e in plan && !FitsRam(e.vmaddr, e.vmsize, base)) <==>
            exists e :: e in plan' && !FitsRam(e.vmaddr, e.vmsize, base)
  {
    hide FitsRam;
    if e :| e in plan && !FitsRam(e.vmaddr, e.vmsize, base) {
      var i :| 0 <= i < |plan| && plan[i] == e;
      assert plan'[i] in plan' && SameButPlace(plan'[i], plan[i]);
    }
    if e :| e in plan' && !FitsRam(e.vmaddr, e.vmsize, base) {
      var i :| 0 <= i < |plan'| && plan'[i] == e;
      assert plan[i] in plan && SameButPlace(plan'[i], plan[i]);
    }
  }

  /** The facts the closing tests start from. */
  lemma ReadFacts(b: seq<byte>, offs: seq<nat>, stop: u32, k: bv32)
    requires Visits(b, offs, stop)
    ensures AllIn(b, offs)
    ensures var c, f := CheckCommands(StartFacts(HeaderAt(b)), b, HeaderAt(b)), LoopFacts(b, offs, stop);
            && c == f.(fail := c.fail)
            && (Has(c.fail, k) <==>
                  || Has(f.fail, k) || (LeftOnSize(b, offs, stop) && Has(FAIL_COMMAND_SIZE, k))
                  || (!ReadWhole(b, offs, stop) && Has(FAIL_COMMAND_BOUNDS, k)))
  {
    hide HeaderAt, Fold, CheckCommands, Raise, Has, Visits, StartOf, StartFacts, LeftOnSize, ReadWhole, Flag;
    VisitedIn(b, offs, stop);
    CommandsRead(b, offs, stop);
    var f := LoopFacts(b, offs, stop);
    var x := Flag(LeftOnSize(b, offs, stop), FAIL_COMMAND_SIZE);
    FlagHas(LeftOnSize(b, offs, stop), FAIL_COMMAND_SIZE, k);
    FlagHas(!ReadWhole(b, offs, stop), FAIL_COMMAND_BOUNDS, k);
    RaiseHas(f.fail, x, k);
    RaiseHas(Raise(f.fail, x), Flag(!ReadWhole(b, offs, stop), FAIL_COMMAND_BOUNDS), k);
  }

  lemma LoopFails(b: seq<byte>, offs: seq<nat>, stop: u32, k: bv32)
    requires Visits(b, offs, stop)
    ensures AllIn(b, offs)
    ensures Has(LoopFacts(b, offs, stop).fail, k) <==>
            || HeaderRaises(HeaderAt(b), k) || SomeRaises(b, offs, |b|, k)
            || (|Plannable(Segments(b, offs))| > 8 && Has(FAIL_LOAD_PLAN_FULL, k))
  {
    hide HeaderAt, Fold, Has, Visits, StartOf, HeaderRaises, SomeRaises, Segments, Plannable, HeaderFault;
    FewSegments(b, offs, stop);
    StartsEmpty(b);
    HeaderFlags(HeaderAt(b), k);
    LoopRaises(StartOf(b), b, |b|, offs, k);
  }

  /** The facts before planning: every flag up to there. */
  lemma ParsedFaults(b: seq<byte>, offs: seq<nat>, stop: u32, k: bv32)
    requires Visits(b, offs, stop)
    ensures AllIn(b, offs)
    ensures var gs, f := Segments(b, offs), ParsedFacts(b);
            Has(f.fail, k) <==>
            || HeaderRaises(HeaderAt(b), k)
            || (!ReadWhole(b, offs, stop) && Has(FAIL_COMMAND_BOUNDS, k))
            || (LeftOnSize(b, offs, stop) && Has(FAIL_COMMAND_SIZE, k))
            || SomeRaises(b, offs, |b|, k)
            || (|Plannable(gs)| > 8 && Has(FAIL_LOAD_PLAN_FULL, k))
            || (!RequiredSegmentsSeen(gs) && Has(FAIL_REQUIRED_SEGMENTS, k))
            || (!RequiredSectionsSeen(Sections(b, offs)) && Has(FAIL_REQUIRED_SECTIONS, k))
            || (!HasEntryCommand(b, offs) && Has(FAIL_NO_ENTRY_METADATA, k))
  {
    hide HeaderAt, CheckCommands, Has, Visits, HeaderRaises, SomeRaises, Segments, Sections, Plannable, LeftOnSize,
         ReadWhole, LoopFacts, StartFacts, Conclude, MissingFault, RequiredSegmentsSeen, RequiredSectionsSeen,
         HasEntryCommand;
    FewSegments(b, offs, stop);
    ReadFacts(b, offs, stop, k);
    LoopFails(b, offs, stop, k);
    RequiredMeans(b, offs, stop);
    ConcludeRaises(CheckCommands(StartFacts(HeaderAt(b)), b, HeaderAt(b)), k);
  }

  /** The failure word of any file: for every flag, it is raised exactly when its cause is there. */
  lemma ReportedFaults(b: seq<byte>, offs: seq<nat>, stop: u32, k: bv32)
    requires Visits(b, offs, stop)
    ensures AllIn(b, offs)
    ensures Has(Probe(b).facts.fail, k) <==> Raised(b, offs, stop, k)
  {
    hide HeaderAt, Has, Visits, HeaderRaises, SomeRaises, Segments, Sections, Plannable, LeftOnSize, ReadWhole,
         LoopFacts, RequiredSegmentsSeen, RequiredSectionsSeen, HasEntryCommand, ParsedFacts, FinalizeFacts,
         FinalizeLoad, Verdict, NoPlan, NothingToPlan, FitsRam, Describes;
    FewSegments(b, offs, stop);
    ParsedFaults(b, offs, stop, k);
    ReportKeeps(b, offs, stop);
    LoopPlan(b, offs, stop);
    var f := ParsedFacts(b);
    FinalizeRaises(f, k);
    PlanShifts(f.segs.plan, Probe(b).facts.segs.plan, f.segs.minVm);
    NoPlanSame(f.segs, Probe(b).facts.segs, Segments(b, offs));
  }

  lemma NoPlanSame(t: SegmentFacts, t': SegmentFacts, gs: seq<Segment>)
    requires t' == t.(plan := t'.plan)
    ensures NoPlan(t, gs) <==> NoPlan(t', gs)
  {
  }

  /** The plan in the report describes the first eight plannable segments in order. */
  lemma ReportedPlan(b: seq<byte>, offs: seq<nat>, stop: u32)
    requires Visits(b, offs, stop)
    ensures AllIn(b, offs)
    ensures var ps, plan := Plannable(Segments(b, offs)), Probe(b).facts.segs.plan;
            && |plan| == (if |ps| <= 8 then |ps| else 8)
            && forall i :: 0 <= i < |plan| ==> Describes(plan[i], i, ps[i])
  {
    hide HeaderAt, Has, Visits, Segments, Plannable, LoopFacts, ParsedFacts, FinalizeFacts, FinalizeLoad, Verdict,
         NoPlan, NothingToPlan, Describes, SameButPlace;
    FewSegments(b, offs, stop);
    ReportKeeps(b, offs, stop);
    LoopPlan(b, offs, stop);
    var f, ps := ParsedFacts(b), Plannable(Segments(b, offs));
    FinalizeRaises(f, 0);
    forall i | 0 <= i < |f.segs.plan|
      ensures Describes(Probe(b).facts.segs.plan[i], i, ps[i])
    {
      StillDescribes(Probe(b).facts.segs.plan[i], f.segs.plan[i], i, ps[i]);
    }
  }

  lemma StillDescribes(e: PlanEntry, was: PlanEntry, i: nat, g: Segment)
    requires SameButPlace(e, was) && |g.name| == 16 && Describes(was, i, g)
    ensures Describes(e, i, g)
  {
  }

  // ----- the validity word -----

  ghost predicate SomeEscapes(b: seq<byte>, offs: seq<nat>)
    requires AllIn(b, offs) && |b| < TWO32
  {
    exists o :: o in offs && EscapesAt(b, o, |b|)
  }

  ghost predicate SomeTableOut(b: seq<byte>, offs: seq<nat>)
    requires AllIn(b, offs) && |b| < TWO32
  {
    exists o :: o in offs && TableOut(b, o, |b|)
  }

  ghost predicate PrelinkSeen(gs: seq<Segment>, ss: seq<Section>)
    requires Paired(ss)
  {
    || SomeSpells(gs, "__PRELINK_TEXT") || SomeSpells(gs, "__PRELINK_INFO")
    || SomeSpells(gs, "__PRELINK_STATE") || SomeSpells(gs, "__PRELINK")
    || exists i: nat :: 2 <= i < 9 && SomePair(ss, i)
  }

  /** Which flags of the validity word are set. */
  ghost predicate Established(b: seq<byte>, offs: seq<nat>, stop: u32, k: bv32)
    requires Visits(b, offs, stop) && AllIn(b, offs) && |b| < TWO32
  {
    var gs, ss, t := Segments(b, offs), Sections(b, offs), Probe(b).facts.segs;
    || HeaderShows(HeaderAt(b), k)
    || (RegionGood(b) && Has(VALID_COMMAND_BOUNDS, k))
    || (gs != [] && Has(VALID_SEGMENT_COMMAND, k))
    || (RequiredSegmentsSeen(gs) && Has(VALID_REQUIRED_SEGMENTS, k))
    || (RequiredSectionsSeen(ss) && Has(VALID_REQUIRED_SECTIONS, k))
    || (!SomeEscapes(b, offs) && Has(VALID_FILE_EXTENTS, k))
    || (!SomeTableOut(b, offs) && Has(VALID_SECTION_BOUNDS, k))
    || (PrelinkSeen(gs, ss) && Has(VALID_PRELINK_REPORT, k))
    || (HasEntryCommand(b, offs) && Has(VALID_ENTRY_NOT_EXECUTED, k))
    || (!NoPlan(t, gs) && !Misplaced(t) && |Plannable(gs)| <= 8 && Has(VALID_LOAD_PLAN, k))
  }

  lemma {:induction false} LoopShows(f: Facts, b: seq<byte>, size: u32, offs: seq<nat>, k: bv32)
    requires AllIn(b, offs)
    ensures Has(Fold(f, b, size, offs).valid, k) <==>
            Has(f.valid, k) || (Segments(b, offs) != [] && Has(VALID_SEGMENT_COMMAND, k))
    decreases |offs|
  {
    hide ApplyCommand, CountSegment, CountCommand, CommandSound, SegmentAt, Raise, Has;
    if offs != [] {
      ApplyEffect(f, b, size, offs[0]);
      RaiseHas(f.valid, VALID_SEGMENT_COMMAND, k);
      LoopShows(ApplyCommand(f, b, size, offs[0]), b, size, offs[1..], k);
    }
  }

  lemma SixFlags(m: bv32, p: bool, a: bv32, q: bool, b: bv32, r: bool, c: bv32, s: bool, d: bv32, t: bool, e: bv32,
                 u: bool, f: bv32, k: bv32)
    ensures Has(Raise(Raise(Raise(Raise(Raise(Raise(m, Flag(p, a)), Flag(q, b)), Flag(r, c)), Flag(s, d)), Flag(t, e)),
                      Flag(u, f)), k) <==>
            || Has(m, k) || (p && Has(a, k)) || (q && Has(b, k)) || (r && Has(c, k)) || (s && Has(d, k))
            || (t && Has(e, k)) || (u && Has(f, k))
  {
    hide Has, Flag, Raise;
    FlagHas(p, a, k);
    FlagHas(q, b, k);
    FlagHas(r, c, k);
    FlagHas(s, d, k);
    FlagHas(t, e, k);
    FlagHas(u, f, k);
    var m1 := Raise(m, Flag(p, a));
    var m2 := Raise(m1, Flag(q, b));
    var m3 := Raise(m2, Flag(r, c));
    var m4 := Raise(m3, Flag(s, d));
    var m5 := Raise(m4, Flag(t, e));
    RaiseHas(m, Flag(p, a), k);
    RaiseHas(m1, Flag(q, b), k);
    RaiseHas(m2, Flag(r, c), k);
    RaiseHas(m3, Flag(s, d), k);
    RaiseHas(m4, Flag(t, e), k);
    RaiseHas(m5, Flag(u, f), k);
  }

  lemma ConcludeShows(f: Facts, k: bv32)
    ensures var fail := MissingFault(f);
            Has(Conclude(f).valid, k) <==>
            || Has(f.valid, k)
            || (HasSegments(f) && Has(VALID_REQUIRED_SEGMENTS, k))
            || (HasSections(f) && Has(VALID_REQUIRED_SECTIONS, k))
            || (!Has(fail, FAIL_SEGMENT_EXTENT) && Has(VALID_FILE_EXTENTS, k))
            || (!Has(fail, FAIL_SECTION_BOUNDS) && Has(VALID_SECTION_BOUNDS, k))
            || (Raise(f.segs.prelinkMask, f.sects.prelinkMask) != 0 && Has(VALID_PRELINK_REPORT, k))
            || (HasEntry(f) && Has(VALID_ENTRY_NOT_EXECUTED, k))
  {
    hide Has, Flag, Raise, HasSegments, HasSections, HasEntry, MissingFault;
    SixFlags(f.valid, HasSegments(f), VALID_REQUIRED_SEGMENTS, HasSections(f), VALID_REQUIRED_SECTIONS,
             !Has(MissingFault(f), FAIL_SEGMENT_EXTENT), VALID_FILE_EXTENTS,
             !Has(MissingFault(f), FAIL_SECTION_BOUNDS), VALID_SECTION_BOUNDS,
             Raise(f.segs.prelinkMask, f.sects.prelinkMask) != 0, VALID_PRELINK_REPORT,
             HasEntry(f), VALID_ENTRY_NOT_EXECUTED, k);
  }

  /** The flags of single bits are told apart. */
  lemma ExtentFlag()
    ensures var k := FAIL_SEGMENT_EXTENT;
            && !Has(FAIL_MAGIC, k) && !Has(FAIL_ENDIAN, k) && !Has(FAIL_CPU, k) && !Has(FAIL_SUBTYPE, k)
            && !Has(FAIL_FILETYPE, k) && !Has(FAIL_COMMAND_BOUNDS, k) && !Has(FAIL_COMMAND_SIZE, k)
            && !Has(FAIL_SEGMENT_BOUNDS, k) && !Has(FAIL_LOAD_PLAN_FULL, k) && !Has(FAIL_SECTION_BOUNDS, k)
            && !Has(FAIL_REQUIRED_SEGMENTS, k) && !Has(FAIL_REQUIRED_SECTIONS, k) && Has(k, k)
  {
  }

  lemma BoundsFlag()
    ensures var k := FAIL_SECTION_BOUNDS;
            && !Has(FAIL_MAGIC, k) && !Has(FAIL_ENDIAN, k) && !Has(FAIL_CPU, k) && !Has(FAIL_SUBTYPE, k)
            && !Has(FAIL_FILETYPE, k) && !Has(FAIL_COMMAND_BOUNDS, k) && !Has(FAIL_COMMAND_SIZE, k)
            && !Has(FAIL_SEGMENT_BOUNDS, k) && !Has(FAIL_LOAD_PLAN_FULL, k) && !Has(FAIL_SEGMENT_EXTENT, k)
            && !Has(FAIL_REQUIRED_SEGMENTS, k) && !Has(FAIL_REQUIRED_SECTIONS, k) && Has(k, k)
  {
  }

  lemma PlanFlag()
    ensures var k := FAIL_PLAN_MASK;
            && !Has(FAIL_MAGIC, k) && !Has(FAIL_ENDIAN, k) && !Has(FAIL_CPU, k) && !Has(FAIL_SUBTYPE, k)
            && !Has(FAIL_FILETYPE, k) && !Has(FAIL_COMMAND_BOUNDS, k) && !Has(FAIL_COMMAND_SIZE, k)
            && !Has(FAIL_SEGMENT_BOUNDS, k) && !Has(FAIL_SEGMENT_EXTENT, k) && !Has(FAIL_SECTION_BOUNDS, k)
            && !Has(FAIL_REQUIRED_SEGMENTS, k) && !Has(FAIL_REQUIRED_SECTIONS, k) && !Has(FAIL_NO_ENTRY_METADATA, k)
            && Has(FAIL_LOAD_PLAN_FULL, k) && Has(FAIL_PHYS_RANGE, k)
  {
  }

  lemma SomeRaisesExtent(b: seq<byte>, offs: seq<nat>)
    requires AllIn(b, offs) && |b| < TWO32
    ensures SomeRaises(b, offs, |b|, FAIL_SEGMENT_EXTENT) <==> SomeEscapes(b, offs)
    ensures SomeRaises(b, offs, |b|, FAIL_SECTION_BOUNDS) <==> SomeTableOut(b, offs)
    ensures !SomeRaises(b, offs, |b|, FAIL_PLAN_MASK)
  {
    hide Has, EscapesAt, TableOut, ShortAt, WrapsAt;
    ExtentFlag();
    BoundsFlag();
    PlanFlag();
    forall o | o in offs
      ensures CommandRaises(b, o, |b|, false, FAIL_SEGMENT_EXTENT) <==> EscapesAt(b, o, |b|)
      ensures CommandRaises(b, o, |b|, false, FAIL_SECTION_BOUNDS) <==> TableOut(b, o, |b|)
      ensures !CommandRaises(b, o, |b|, false, FAIL_PLAN_MASK)
    {
    }
  }

  /** The two flags that the conclusion looks at. */
  lemma MissingHas(b: seq<byte>, offs: seq<nat>, stop: u32)
    requires Visits(b, offs, stop)
    ensures AllIn(b, offs)
    ensures var m := MissingFault(CheckCommands(StartFacts(HeaderAt(b)), b, HeaderAt(b)));
            && (Has(m, FAIL_SEGMENT_EXTENT) <==> SomeEscapes(b, offs))
            && (Has(m, FAIL_SECTION_BOUNDS) <==> SomeTableOut(b, offs))
  {
    hide HeaderAt, CheckCommands, Has, Visits, SomeRaises, Segments, Plannable, LeftOnSize, ReadWhole, LoopFacts,
         StartFacts, MissingFault, SomeEscapes, SomeTableOut, HasSegments, HasSections, Conclude, HasEntry;
    FewSegments(b, offs, stop);
    var c := CheckCommands(StartFacts(HeaderAt(b)), b, HeaderAt(b));
    ExtentFlag();
    BoundsFlag();
    SomeRaisesExtent(b, offs);
    ReadFacts(b, offs, stop, FAIL_SEGMENT_EXTENT);
    LoopFails(b, offs, stop, FAIL_SEGMENT_EXTENT);
    ConcludeRaises(c, FAIL_SEGMENT_EXTENT);
    ReadFacts(b, offs, stop, FAIL_SECTION_BOUNDS);
    LoopFails(b, offs, stop, FAIL_SECTION_BOUNDS);
    ConcludeRaises(c, FAIL_SECTION_BOUNDS);
  }

  const ANY: bv32 := 0xffff_ffff

  lemma AnyFlag(m: bv32, n: bv32)
    ensures Raise(m, n) != 0 <==> Has(m, ANY) || Has(n, ANY)
  {
  }

  lemma PrelinkBits(x: bv32)
    ensures Has(x, SEG_PRELINK_MASK) <==> Has(x, 0x20) || Has(x, 0x40) || Has(x, 0x80) || Has(x, 0x100)
    ensures Has(x, SEG_PRELINK_MASK) ==> Has(x, ANY)
  {
  }

  lemma PrelinkSectionBits(x: bv32)
    ensures Has(x, SECT_PRELINK_MASK) <==>
            || Has(x, 0x4) || Has(x, 0x8) || Has(x, 0x10) || Has(x, 0x20) || Has(x, 0x40) || Has(x, 0x80)
            || Has(x, 0x100)
    ensures Has(x, SECT_PRELINK_MASK) ==> Has(x, ANY)
  {
  }

  lemma PrelinkSegmentsMean(gs: seq<Segment>)
    requires Named(gs)
    ensures ShowsPrelink(gs, ANY) <==>
            || SomeSpells(gs, "__PRELINK_TEXT") || SomeSpells(gs, "__PRELINK_INFO")
            || SomeSpells(gs, "__PRELINK_STATE") || SomeSpells(gs, "__PRELINK")
  {
    hide SegmentMask, Has, NameIs, Keeps;
    forall g | g in gs
      ensures Has(SegmentMask(g.name), SEG_PRELINK_MASK) && Has(SegmentMask(g.name), ANY) <==>
              || NameIs(g.name, "__PRELINK_TEXT") || NameIs(g.name, "__PRELINK_INFO")
              || NameIs(g.name, "__PRELINK_STATE") || NameIs(g.name, "__PRELINK")
    {
      PrelinkBits(SegmentMask(g.name));
      SegmentBit(g.name, 5);
      SegmentBit(g.name, 6);
      SegmentBit(g.name, 7);
      SegmentBit(g.name, 8);
    }
  }

  lemma PrelinkPair(s: Section)
    requires |s.name| == |s.segment| == 16
    ensures Has(SectionMask(s), SECT_PRELINK_MASK) && Has(SectionMask(s), ANY) <==>
            exists i: nat :: 2 <= i < 9 && PairIs(s, i)
  {
    hide SectionMask, Has, PairIs;
    PrelinkSectionBits(SectionMask(s));
    forall i: nat | 2 <= i < 9
      ensures Has(SectionMask(s), SECTION_NAMES[i].2) <==> PairIs(s, i)
    {
      SectionBit(s, i);
    }
    assert SECTION_NAMES[2].2 == 0x4 && SECTION_NAMES[3].2 == 0x8 && SECTION_NAMES[4].2 == 0x10;
    assert SECTION_NAMES[5].2 == 0x20 && SECTION_NAMES[6].2 == 0x40 && SECTION_NAMES[7].2 == 0x80;
    assert SECTION_NAMES[8].2 == 0x100;
  }

  lemma PrelinkSectionsMean(ss: seq<Section>)
    requires Paired(ss)
    ensures ShowsPrelinkSection(ss, ANY) <==> exists i: nat :: 2 <= i < 9 && SomePair(ss, i)
  {
    hide SectionMask, Has, PairIs;
    forall s | s in ss
      ensures Has(SectionMask(s), SECT_PRELINK_MASK) && Has(SectionMask(s), ANY) <==>
              exists i: nat :: 2 <= i < 9 && PairIs(s, i)
    {
      PrelinkPair(s);
    }
    if ShowsPrelinkSection(ss, ANY) {
      var s :| s in ss && Has(SectionMask(s), SECT_PRELINK_MASK) && Has(SectionMask(s), ANY);
      var i: nat :| 2 <= i < 9 && PairIs(s, i);
      assert SomePair(ss, i);
    }
    if i: nat :| 2 <= i < 9 && SomePair(ss, i) {
      var s :| s in ss && PairIs(s, i);
    }
  }

  lemma PrelinkMeans(b: seq<byte>, offs: seq<nat>, stop: u32)
    requires Visits(b, offs, stop)
    ensures AllIn(b, offs)
    ensures var f := LoopFacts(b, offs, stop);
            Raise(f.segs.prelinkMask, f.sects.prelinkMask) != 0 <==>
            PrelinkSeen(Segments(b, offs), Sections(b, offs))
  {
    hide HeaderAt, Segments, Sections, Fold, FoldSegments, FoldSections, ShowsPrelink, ShowsPrelinkSection, Has,
         Visits, StartOf, SomeSpells, SomePair, Shows, ShowsSection, Raise;
    FewSegments(b, offs, stop);
    StartsEmpty(b);
    NoneHas(ANY);
    var f, gs, ss := LoopFacts(b, offs, stop), Segments(b, offs), Sections(b, offs);
    AnyFlag(f.segs.prelinkMask, f.sects.prelinkMask);
    FoldsSegments(StartOf(b), b, |b|, offs);
    FoldsSections(StartOf(b), b, |b|, offs);
    MasksShow(NO_SEGMENTS, gs, ANY);
    SectionMasksShow(NO_SECTIONS, ss, ANY);
    PrelinkSegmentsMean(gs);
    PrelinkSectionsMean(ss);
  }

  lemma LoopEstablishes(b: seq<byte>, offs: seq<nat>, stop: u32, k: bv32)
    requires Visits(b, offs, stop)
    ensures AllIn(b, offs)
    ensures Has(LoopFacts(b, offs, stop).valid, k) <==>
            || HeaderShows(HeaderAt(b), k) || (RegionGood(b) && Has(VALID_COMMAND_BOUNDS, k))
            || (Segments(b, offs) != [] && Has(VALID_SEGMENT_COMMAND, k))
  {
    hide HeaderAt, Fold, Has, Visits, StartOf, HeaderShows, Segments, HeaderValid, Flag, Raise, RegionGood;
    FewSegments(b, offs, stop);
    StartsEmpty(b);
    HeaderFlags(HeaderAt(b), k);
    FlagHas(RegionGood(b), VALID_COMMAND_BOUNDS, k);
    RaiseHas(HeaderValid(HeaderAt(b)), Flag(RegionGood(b), VALID_COMMAND_BOUNDS), k);
    LoopShows(StartOf(b), b, |b|, offs, k);
  }

  /** When planning sets its flag. */
  lemma PlanEstablishes(b: seq<byte>, offs: seq<nat>, stop: u32, k: bv32)
    requires Visits(b, offs, stop)
    ensures AllIn(b, offs)
    ensures var gs, t := Segments(b, offs), Probe(b).facts.segs;
            Has(Probe(b).facts.valid, k) <==>
            || Has(ParsedFacts(b).valid, k)
            || (!NoPlan(t, gs) && !Misplaced(t) && |Plannable(gs)| <= 8 && Has(VALID_LOAD_PLAN, k))
  {
    hide HeaderAt, Has, Visits, Segments, Plannable, LoopFacts, ParsedFacts, FinalizeLoad, Verdict, NoPlan,
         NothingToPlan, FitsRam, Describes, PlaceAll, Raise, Flag, SomeRaises, LeftOnSize, ReadWhole,
         RequiredSegmentsSeen, RequiredSectionsSeen, HasEntryCommand, Sections;
    FewSegments(b, offs, stop);
    ReportKeeps(b, offs, stop);
    LoopPlan(b, offs, stop);
    var f, gs := ParsedFacts(b), Segments(b, offs);
    FinalizeRaises(f, 0);
    PlanShifts(f.segs.plan, Probe(b).facts.segs.plan, f.segs.minVm);
    NoPlanSame(f.segs, Probe(b).facts.segs, gs);
    PlanFlag();
    SomeRaisesExtent(b, offs);
    ParsedFaults(b, offs, stop, FAIL_PLAN_MASK);
    if !NothingToPlan(f.segs) {
      PlaceRaisesAll(Placing([], RAM_PHYS_BASE, UINT32_MAX, 0, f.fail), f.segs.plan, f.segs.minVm, FAIL_PLAN_MASK);
      FlagHas(!Has(Placed(f).fail, FAIL_PLAN_MASK), VALID_LOAD_PLAN, k);
      RaiseHas(f.valid, Flag(!Has(Placed(f).fail, FAIL_PLAN_MASK), VALID_LOAD_PLAN), k);
    }
  }

  /** The validity word of any file, flag by flag. */
  lemma ReportedValidity(b: seq<byte>, offs: seq<nat>, stop: u32, k: bv32)
    requires Visits(b, offs, stop)
    ensures AllIn(b, offs)
    ensures Has(Probe(b).facts.valid, k) <==> Established(b, offs, stop, k)
  {
    hide HeaderAt, Has, Visits, HeaderShows, Segments, Sections, Plannable, LoopFacts, StartFacts, CheckCommands,
         RegionGood, RequiredSegmentsSeen, RequiredSectionsSeen, HasEntryCommand, Probe, Conclude, MissingFault,
         NoPlan, Misplaced, SomeEscapes, SomeTableOut, PrelinkSeen, Raise, HasSegments, HasSections, HasEntry;
    FewSegments(b, offs, stop);
    var c := CheckCommands(StartFacts(HeaderAt(b)), b, HeaderAt(b));
    ReadFacts(b, offs, stop, k);
    PlanEstablishes(b, offs, stop, k);
    ConcludeShows(c, k);
    RequiredMeans(b, offs, stop);
    SameSeen(c, LoopFacts(b, offs, stop));
    MissingHas(b, offs, stop);
    PrelinkMeans(b, offs, stop);
    LoopEstablishes(b, offs, stop, k);
  }

  lemma SameSeen(c: Facts, f: Facts)
    requires c == f.(fail := c.fail)
    ensures HasSegments(c) == HasSegments(f) && HasSections(c) == HasSections(f) && HasEntry(c) == HasEntry(f)
  {
    hide HasAll, Has;
  }

  // ----- the status -----

  lemma HighFlags()
    ensures var k := 0xf000_0000;
            && !Has(FAIL_MAGIC, k) && !Has(FAIL_ENDIAN, k) && !Has(FAIL_CPU, k) && !Has(FAIL_SUBTYPE, k)
            && !Has(FAIL_FILETYPE, k) && !Has(FAIL_COMMAND_BOUNDS, k) && !Has(FAIL_COMMAND_SIZE, k)
            && !Has(FAIL_SEGMENT_BOUNDS, k) && !Has(FAIL_SEGMENT_EXTENT, k) && !Has(FAIL_SECTION_BOUNDS, k)
            && !Has(FAIL_REQUIRED_SEGMENTS, k) && !Has(FAIL_REQUIRED_SECTIONS, k) && !Has(FAIL_NO_ENTRY_METADATA, k)
            && !Has(FAIL_LOAD_PLAN, k) && !Has(FAIL_LOAD_PLAN_FULL, k) && !Has(FAIL_PHYS_RANGE, k)
  {
  }

  lemma HighIsRest(m: bv32)
    ensures Has(m, 0xf000_0000) <==> Without(m, 0xfff_ffff) != 0
  {
  }

  lemma NothingHigh(b: seq<byte>, offs: seq<nat>, stop: u32)
    requires Visits(b, offs, stop) && AllIn(b, offs)
    ensures !Raised(b, offs, stop, 0xf000_0000)
  {
    hide Has, Visits, Segments, Sections, Plannable, LeftOnSize, ReadWhole, HeaderAt, Probe, NoPlan, Misplaced,
         EscapesAt, RequiredSegmentsSeen, RequiredSectionsSeen, HasEntryCommand, TableOut, ShortAt, WrapsAt;
    HighFlags();
  }

  /** The status of any file is OK, or gives its failure word back. */
  lemma ReportedStatus(b: seq<byte>)
    requires |b| < TWO32
    ensures var r := Probe(b);
            r.status == STATUS_OK || (r.status & 0xfff_ffff == r.facts.fail && Has(r.status, 0x4000_0000))
  {
    hide Has, Without, Visits, Raised, ParsedFacts, FinalizeFacts, FinalizeLoad, HeaderAt, HasAll, StatusFail;
    if |b| >= 28 {
      var offs, stop := VisitsSome(b);
      ReportedFaults(b, offs, stop, 0xf000_0000);
      NothingHigh(b, offs, stop);
    } else {
      ShortFault();
    }
    HighIsRest(Probe(b).facts.fail);
    FailIsCarried(Probe(b).facts.fail);
  }

  /** A missing artifact and one shorter than a header: nothing but one flag of the failure word is set. */
  lemma RejectedReport(b: seq<byte>, size: u32)
    requires |b| < 28
    ensures Probe(b) == Rejected(|b|, 0x2) && Rejected(size, FAIL_NULL) == Rejected(size, 0x1)
    ensures var r := Rejected(size, 0x1);
            && r.facts.fail == 0x1 && r.facts.valid == 0 && r.facts.segs.plan == [] && r.load == NO_LOAD
            && r.size == size && r.header == Header(0, 0, 0, 0, 0, 0, 0) && r.status == 0xd000_0001
    ensures Probe(b).facts.fail == 0x2 && Probe(b).facts.valid == 0 && Probe(b).status == 0xd000_0002
  {
  }

  lemma ShortFault()
    ensures !Has(FAIL_SIZE, 0xf000_0000)
  {
  }

  // ----- accepted artifacts -----

  /** Segment p is the last with the name. */
  predicate LastNamed(gs: seq<Segment>, p: nat, name: string)
    requires Named(gs)
  {
    p < |gs| && NameIs(gs[p].name, name) && forall q :: p < q < |gs| ==> !NameIs(gs[q].name, name)
  }

  predicate NoneNamed(gs: seq<Segment>, name: string)
    requires Named(gs)
  {
    forall p :: 0 <= p < |gs| ==> !NameIs(gs[p].name, name)
  }

  /** The extent is the four fields of the last segment with the name, all zero when there is none. */
  predicate KeepsLast(x: Extent, gs: seq<Segment>, name: string)
    requires Named(gs)
  {
    && (forall p: nat :: p < |gs| && LastNamed(gs, p, name) ==> ExtentOf(x, gs[p]))
    && (NoneNamed(gs, name) ==> x == Extent(0, 0, 0, 0))
  }

  lemma NoneIgnored(x: Extent, gs: seq<Segment>, name: string)
    requires Named(gs) && NoneWraps(gs) && IsLastExtent(x, NO_EXTENT, gs, name)
    ensures KeepsLast(x, gs, name)
  {
    hide NameIs, ExtentOf;
    forall p | 0 <= p < |gs|
      ensures Spells(gs[p], name) <==> NameIs(gs[p].name, name)
    {
      assert gs[p] in gs;
    }
    forall p: nat | p < |gs| && LastNamed(gs, p, name)
      ensures ExtentOf(x, gs[p])
    {
      assert LastSpelling(gs, p, name);
    }
    if NoneNamed(gs, name) {
      assert NoneSpells(gs, name);
    }
  }

  /** What an accepted artifact's report keeps of the key segments and sections. */
  lemma AcceptedKeys(b: seq<byte>, offs: seq<nat>)
    requires |b| < TWO32 && Accepts(b) && CommandsAt(b, offs)
    ensures AllIn(b, offs)
    ensures var gs, ss, key, spans := Segments(b, offs), Sections(b, offs), Probe(b).facts.segs.key,
                                      Probe(b).facts.sects.key;
            && KeepsLast(key.text, gs, "__TEXT") && KeepsLast(key.data, gs, "__DATA")
            && KeepsLast(key.linkedit, gs, "__LINKEDIT") && KeepsLast(key.prelinkText, gs, "__PRELINK_TEXT")
            && KeepsLast(key.prelinkInfo, gs, "__PRELINK_INFO") && KeepsLast(key.prelinkState, gs, "__PRELINK_STATE")
            && IsLastSpan(spans.text, NO_SPAN, ss, 0) && IsLastSpan(spans.dataConst, NO_SPAN, ss, 1)
            && IsLastSpan(spans.prelinkText, NO_SPAN, ss, 2) && IsLastSpan(spans.prelinkInfo, NO_SPAN, ss, 3)
  {
    hide HeaderAt, Probe, Accepts, Segments, Sections, IsLastExtent, KeepsLast, IsLastSpan, CommandsAt, Tiling,
         PlanSound, HasSegment, HasSection, HasEntryCommand, IsLowest, Shows, ShowsPrelink, ShowsSection,
         ShowsPrelinkSection, Has, Planned, Loadable, AllFit, IsPhysEnd, IsMinStart, IsMaxEnd, IsHighest, AllSound,
         Visits, CommandSound;
    AcceptedReport(b, offs);
    AcceptedIsVisited(b, offs);
    SoundSegments(b, offs, |b|);
    var stop := RegionStop(b);
    ReportedSegments(b, offs, stop, 0);
    ReportedSections(b, offs, stop, 0);
    var gs, key := Segments(b, offs), Probe(b).facts.segs.key;
    NoneIgnored(key.text, gs, "__TEXT");
    NoneIgnored(key.data, gs, "__DATA");
    NoneIgnored(key.linkedit, gs, "__LINKEDIT");
    NoneIgnored(key.prelinkText, gs, "__PRELINK_TEXT");
    NoneIgnored(key.prelinkInfo, gs, "__PRELINK_INFO");
    NoneIgnored(key.prelinkState, gs, "__PRELINK_STATE");
  }

  function RegionStop(b: seq<byte>): u32 {
    if HasRegion(b) then RegionEnd(b) else 28
  }

  lemma AcceptedIsVisited(b: seq<byte>, offs: seq<nat>)
    requires CommandsAt(b, offs) && HeaderGood(HeaderAt(b))
    ensures Visits(b, offs, RegionStop(b))
  {
    hide HeaderAt;
    TilingIsVisited(b, offs);
  }
}
