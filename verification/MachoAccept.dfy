/** The prober accepts exactly the well-formed artifacts, and what it then reports. */
module MachoAccept {
  import opened Words
  import opened Masks
  import opened MachoFormat
  import opened MachoSpec
  import opened MachoLayout
  import opened MachoParse
  import opened MachoPlan

  // ----- flag words -----

  const VALID_HEADER: bv32 := 0x1f
  const VALID_CONCLUSION: bv32 := 0xf80

  lemma RaiseKeeps(m: bv32, x: bv32, flags: bv32)
    requires HasAll(m, flags) || HasAll(x, flags)
    ensures HasAll(Raise(m, x), flags)
  {
    OrKeeps(m, x, flags);
  }

  lemma RequiredSegments(m: bv32)
    ensures HasAll(m, SEG_REQUIRED) <==> Has(m, SEG_TEXT) && Has(m, SEG_DATA) && Has(m, SEG_LINKEDIT)
  {
  }

  lemma RequiredSections(m: bv32)
    ensures HasAll(m, SECT_REQUIRED) <==> Has(m, SECT_TEXT_TEXT) && Has(m, SECT_DATA_CONST)
  {
  }

  lemma ParserBits(v: bv32)
    requires HasAll(v, VALID_HEADER) && HasAll(v, VALID_COMMAND_BOUNDS) && HasAll(v, VALID_SEGMENT_COMMAND)
    requires HasAll(v, VALID_CONCLUSION) && HasAll(v, VALID_LOAD_PLAN)
    ensures HasAll(v, VALID_PARSER)
  {
  }

  lemma HeaderVerdict(h: Header)
    requires h.sizeofcmds % 4 == 0
    ensures HeaderFault(h) == 0 <==> HeaderGood(h)
    ensures HeaderFault(h) == 0 ==> HasAll(HeaderValid(h), VALID_HEADER)
  {
  }

  lemma StatusDecides(f: Facts)
    ensures Verdict(f) == STATUS_OK <==> HasAll(f.valid, VALID_PARSER) && f.fail == 0
  {
    StatusFailIsNotOk(f.fail);
  }

  lemma ConcludeMeaning(f: Facts)
    ensures var r := Conclude(f);
            && r.cmds == f.cmds && r.segs == f.segs && r.sects == f.sects
            && (r.fail == 0 <==> f.fail == 0 && HasSegments(f) && HasSections(f) && HasEntry(f))
  {
    hide Raise, HasSegments, HasSections, HasEntry, ConclusionValid;
    RaiseNothing(f.fail, Flag(!HasSegments(f), FAIL_REQUIRED_SEGMENTS));
    RaiseNothing(Raise(f.fail, Flag(!HasSegments(f), FAIL_REQUIRED_SEGMENTS)),
                 Flag(!HasSections(f), FAIL_REQUIRED_SECTIONS));
    RaiseNothing(MissingFault(f), Flag(!HasEntry(f), FAIL_NO_ENTRY_METADATA));
  }

  /** After a clean conclusion all its bits are set on top of those set before. */
  lemma ConcludeValid(f: Facts) returns (c: bv32)
    requires Conclude(f).fail == 0
    ensures Conclude(f).valid == Raise(f.valid, c) && HasAll(c, VALID_CONCLUSION)
  {
    hide Raise, HasAll, Has, HasSegments, HasSections, HasEntry;
    ConcludeMeaning(f);
    NothingHas(MissingFault(f));
    RaiseNothing(MissingFault(f), 0);
    RaiseNone(MissingFault(f));
    var p := Flag(Raise(f.segs.prelinkMask, f.sects.prelinkMask) != 0, VALID_PRELINK_REPORT);
    c := Raise(Raise(Raise(Raise(Raise(VALID_REQUIRED_SEGMENTS, VALID_REQUIRED_SECTIONS), VALID_FILE_EXTENTS),
                           VALID_SECTION_BOUNDS), p), VALID_ENTRY_NOT_EXECUTED);
    RaiseSix(f.valid, VALID_REQUIRED_SEGMENTS, VALID_REQUIRED_SECTIONS, VALID_FILE_EXTENTS, VALID_SECTION_BOUNDS, p,
             VALID_ENTRY_NOT_EXECUTED);
    ConclusionHasAll(p);
  }

  lemma NothingHas(m: bv32)
    ensures m == 0 ==> forall flags :: !Has(m, flags)
  {
  }

  lemma ConclusionHasAll(p: bv32)
    ensures HasAll(Raise(Raise(Raise(Raise(Raise(VALID_REQUIRED_SEGMENTS, VALID_REQUIRED_SECTIONS), VALID_FILE_EXTENTS),
                                     VALID_SECTION_BOUNDS), p), VALID_ENTRY_NOT_EXECUTED), VALID_CONCLUSION)
  {
  }

  // ----- the command region -----

  /** The facts the walk starts from. */
  function Started(h: Header): Facts {
    var f := StartFacts(h);
    f.(valid := Raise(f.valid, VALID_COMMAND_BOUNDS))
  }

  lemma CheckTiled(b: seq<byte>, offs: seq<nat>)
    requires CommandsAt(b, offs) && HeaderAt(b).sizeofcmds % 4 == 0
    ensures AllIn(b, offs)
    ensures CheckCommands(StartFacts(HeaderAt(b)), b, HeaderAt(b)) == Fold(Started(HeaderAt(b)), b, |b|, offs)
  {
    hide Raise, ApplyCommand, HeaderAt, Fold, Walk, HeaderFault, HeaderValid;
    var h := HeaderAt(b);
    WalkTiled(Started(h), b, |b|, 28, RegionEnd(b), h.ncmds, offs);
    FoldCounts(Started(h), b, |b|, offs);
    RaiseNone(Fold(Started(h), b, |b|, offs).fail);
  }

  lemma CheckFindsTiling(b: seq<byte>) returns (offs: seq<nat>)
    requires 28 <= |b| < TWO32
    requires CheckCommands(StartFacts(HeaderAt(b)), b, HeaderAt(b)).fail == 0
    ensures CommandsAt(b, offs) && HeaderAt(b).sizeofcmds % 4 == 0
  {
    hide Raise, ApplyCommand, HeaderAt, Fold, Walk, HeaderFault, HeaderValid;
    var h := HeaderAt(b);
    RaiseNothing(StartFacts(h).fail, FAIL_COMMAND_BOUNDS);
    assert RegionFits(h, |b|);
    var end := Add32(HEADER_SIZE, h.sizeofcmds);
    var (g, stop) := Walk(Started(h), b, |b|, HEADER_SIZE, end, h.ncmds);
    RaiseNothing(g.fail, Flag(g.cmds.count != h.ncmds || stop != end, FAIL_COMMAND_BOUNDS));
    offs := WalkFindsTiling(Started(h), b, |b|, 28, end, h.ncmds);
    WalkTiled(Started(h), b, |b|, 28, end, h.ncmds, offs);
    FoldCounts(Started(h), b, |b|, offs);
  }

  lemma {:induction false} FoldValid(f: Facts, b: seq<byte>, size: u32, offs: seq<nat>)
    requires AllIn(b, offs)
    ensures var v := Fold(f, b, size, offs).valid;
            && (forall k :: HasAll(f.valid, k) ==> HasAll(v, k))
            && (Segments(b, offs) != [] ==> HasAll(v, VALID_SEGMENT_COMMAND))
    decreases |offs|
  {
    hide ApplyCommand, CountSegment, CountCommand, CommandSound, SegmentAt, Raise, HasAll;
    if offs != [] {
      ApplyEffect(f, b, size, offs[0]);
      var f1 := ApplyCommand(f, b, size, offs[0]);
      assert HasAll(VALID_SEGMENT_COMMAND, VALID_SEGMENT_COMMAND) by { SelfHasAll(VALID_SEGMENT_COMMAND); }
      RaiseKeeps(VALID_SEGMENT_COMMAND, f.valid, VALID_SEGMENT_COMMAND);
      RaiseCommutes(VALID_SEGMENT_COMMAND, f.valid);
      forall k | HasAll(f.valid, k)
        ensures HasAll(f1.valid, k)
      {
        RaiseKeeps(f.valid, VALID_SEGMENT_COMMAND, k);
      }
      FoldValid(f1, b, size, offs[1..]);
    }
  }

  lemma SelfHasAll(m: bv32)
    ensures HasAll(m, m)
  {
  }

  // ----- the facts of an artifact whose commands are known -----

  lemma SoundSegments(b: seq<byte>, offs: seq<nat>, size: u32)
    requires AllIn(b, offs) && AllSound(b, offs, size)
    ensures Named(Segments(b, offs)) && NoneWraps(Segments(b, offs))
  {
    forall g | g in Segments(b, offs)
      ensures g.vmaddr + g.vmsize < TWO32
    {
      SegmentsFromCommands(b, offs, g);
      var o :| o in offs && IsSegment(b, o) && SegmentAt(b, o) == g;
      SoundDoesNotWrap(b, o, size);
    }
  }

  /** The parser's conclusion on known commands: nothing is raised exactly when they are sound, the
      plan has room, and the required segments, sections and entry command are there. */
  lemma ParsedFails(b: seq<byte>, offs: seq<nat>)
    requires CommandsAt(b, offs) && HeaderAt(b).sizeofcmds % 4 == 0
    ensures AllIn(b, offs)
    ensures ParsedFacts(b).fail == 0 <==>
            && HeaderGood(HeaderAt(b))
            && AllSound(b, offs, |b|) && |Loadable(Segments(b, offs))| <= 8
            && HasSegment(Segments(b, offs), SEG_TEXT) && HasSegment(Segments(b, offs), SEG_DATA)
            && HasSegment(Segments(b, offs), SEG_LINKEDIT)
            && HasSection(b, offs, SECT_TEXT_TEXT) && HasSection(b, offs, SECT_DATA_CONST)
            && HasEntryCommand(b, offs)
  {
    hide Raise, Has, HasAll, ApplyCommand, Conclude, CheckCommands, HeaderAt, HeaderFault, HeaderValid, HeaderGood,
         FoldSegments, Segments, AllSound, HasSection, HasEntryCommand, HasSegment, Loadable, Fold;
    var h := HeaderAt(b);
    CheckTiled(b, offs);
    HeaderVerdict(h);
    var f0 := Started(h);
    var f := Fold(f0, b, |b|, offs);
    ConcludeMeaning(f);
    FoldFail(f0, b, |b|, offs);
    if AllSound(b, offs, |b|) {
      SoundSegments(b, offs, |b|);
      FoldsSegments(f0, b, |b|, offs);
      RequiredSegments(f.segs.mask);
      SumMask(f0.segs, Segments(b, offs), SEG_TEXT);
      SumMask(f0.segs, Segments(b, offs), SEG_DATA);
      SumMask(f0.segs, Segments(b, offs), SEG_LINKEDIT);
    }
    FoldSectionMask(f0, b, |b|, offs, SECT_TEXT_TEXT);
    FoldSectionMask(f0, b, |b|, offs, SECT_DATA_CONST);
    RequiredSections(f.sects.mask);
    FoldEntry(f0, b, |b|, offs);
    NothingInZero();
  }

  lemma NothingInZero()
    ensures forall flags :: !Has(0, flags)
    ensures !Has(ENTRY_NOT_EXECUTED, ENTRY_ANY)
  {
  }

  /** The addresses and entries the parser reports for sound commands. */
  lemma ParsedSegments(b: seq<byte>, offs: seq<nat>)
    requires CommandsAt(b, offs) && HeaderAt(b).sizeofcmds % 4 == 0
    requires AllIn(b, offs) && AllSound(b, offs, |b|) && |Loadable(Segments(b, offs))| <= 8
    requires Segments(b, offs) != []
    ensures Named(Loadable(Segments(b, offs)))
    ensures var t := ParsedFacts(b).segs;
            && t.count == |Segments(b, offs)|
            && IsMinStart(Segments(b, offs), t.minVm) && IsMaxEnd(Segments(b, offs), t.maxVm)
            && t.plan == Planned(0, Loadable(Segments(b, offs)))
  {
    hide Raise, ApplyCommand, Conclude, CheckCommands, HeaderAt, HeaderFault, HeaderValid,
         FoldSegments, Segments, AllSound, Fold, Planned, Loadable, AllIn;
    var h := HeaderAt(b);
    CheckTiled(b, offs);
    TilingIn(b, offs, 28, RegionEnd(b));
    var f0 := Started(h);
    var gs := Segments(b, offs);
    ConcludeMeaning(Fold(f0, b, |b|, offs));
    FoldsSegments(f0, b, |b|, offs);
    SoundSegments(b, offs, |b|);
    SumCount(f0.segs, gs);
    SumMin(f0.segs, gs);
    SumMax(f0.segs, gs);
    SumPlan(f0.segs, gs);
    assert [] + Planned(0, Loadable(gs)) == Planned(0, Loadable(gs));
    assert gs[0] in gs;
  }

  // ----- acceptance -----

  lemma MinStartUnique(gs: seq<Segment>, m: u32, n: u32)
    requires IsMinStart(gs, m) && IsMinStart(gs, n)
    ensures m == n
  {
  }

  lemma PlannedFits(gs: seq<Segment>, base: u32)
    requires Named(gs) && |gs| <= 8
    ensures AllFit(Planned(0, gs), base) <==> forall g :: g in gs ==> FitsRam(g.vmaddr, g.vmsize, base)
  {
    hide Planned, RoundPage;
    var p := Planned(0, gs);
    forall i | 0 <= i < |gs|
      ensures FitsRam(p[i].vmaddr, p[i].vmsize, base) <==> FitsRam(gs[i].vmaddr, gs[i].vmsize, base)
    {
    }
    if AllFit(p, base) {
      forall g | g in gs
        ensures FitsRam(g.vmaddr, g.vmsize, base)
      {
        var i :| 0 <= i < |gs| && gs[i] == g;
        assert p[i] in p;
      }
    }
  }

  /** Planning after a clean parse succeeds exactly when the segments make a sound plan. */
  lemma PlanningFails(b: seq<byte>, offs: seq<nat>)
    requires CommandsAt(b, offs) && HeaderAt(b).sizeofcmds % 4 == 0 && AllIn(b, offs)
    requires ParsedFacts(b).fail == 0
    ensures FinalizeFacts(ParsedFacts(b)).fail == 0 <==> PlanSound(Segments(b, offs))
  {
    hide HeaderAt, ParsedFacts, FinalizeFacts, Segments, Planned, HasSegment, HasSection, HasEntryCommand,
         AllSound, RoundPage, HeaderGood;
    ParsedFails(b, offs);
    var gs, t := Segments(b, offs), ParsedFacts(b).segs;
    assert gs != [] by { NoSegmentInNothing(); }
    ParsedSegments(b, offs);
    FinalizeMeaning(ParsedFacts(b));
    PlannedFits(Loadable(gs), t.minVm);
    if PlanSound(gs) {
      var base: u32 :|
        base > 0 && IsMinStart(gs, base) && forall g :: g in Loadable(gs) ==> FitsRam(g.vmaddr, g.vmsize, base);
      MinStartUnique(gs, base, t.minVm);
      LoadableAre(gs, Loadable(gs)[0]);
    }
  }

  lemma NoSegmentInNothing()
    ensures forall bit :: !HasSegment([], bit)
  {
  }

  lemma ParsedValid(b: seq<byte>, offs: seq<nat>)
    requires CommandsAt(b, offs) && HeaderAt(b).sizeofcmds % 4 == 0 && AllIn(b, offs)
    requires ParsedFacts(b).fail == 0
    ensures HasAll(Raise(ParsedFacts(b).valid, VALID_LOAD_PLAN), VALID_PARSER)
  {
    hide Raise, HasAll, HeaderAt, Segments, HasSegment, HasSection, HasEntryCommand, AllSound, HeaderGood,
         Conclude, ConclusionValid, CheckCommands, HeaderFault, HeaderValid, HasSegments, HasSections, HasEntry, Fold;
    var h := HeaderAt(b);
    ParsedFails(b, offs);
    CheckTiled(b, offs);
    HeaderVerdict(h);
    var f := Fold(Started(h), b, |b|, offs);
    ConcludeMeaning(f);
    var c := ConcludeValid(f);
    assert Segments(b, offs) != [] by { NoSegmentInNothing(); }
    FoldValid(Started(h), b, |b|, offs);
    RaiseKeeps(HeaderValid(h), VALID_COMMAND_BOUNDS, VALID_HEADER);
    SelfHasAll(VALID_COMMAND_BOUNDS);
    RaiseKeeps(HeaderValid(h), VALID_COMMAND_BOUNDS, VALID_COMMAND_BOUNDS);
    CollectBits(f.valid, c);
  }

  lemma CollectBits(v: bv32, c: bv32)
    requires HasAll(v, VALID_HEADER) && HasAll(v, VALID_COMMAND_BOUNDS) && HasAll(v, VALID_SEGMENT_COMMAND)
    requires HasAll(c, VALID_CONCLUSION)
    ensures HasAll(Raise(Raise(v, c), VALID_LOAD_PLAN), VALID_PARSER)
  {
    hide Raise, HasAll;
    var w := Raise(v, c);
    var x := Raise(w, VALID_LOAD_PLAN);
    RaiseKeeps(v, c, VALID_HEADER);
    RaiseKeeps(v, c, VALID_COMMAND_BOUNDS);
    RaiseKeeps(v, c, VALID_SEGMENT_COMMAND);
    RaiseKeeps(v, c, VALID_CONCLUSION);
    RaiseKeeps(w, VALID_LOAD_PLAN, VALID_HEADER);
    RaiseKeeps(w, VALID_LOAD_PLAN, VALID_COMMAND_BOUNDS);
    RaiseKeeps(w, VALID_LOAD_PLAN, VALID_SEGMENT_COMMAND);
    RaiseKeeps(w, VALID_LOAD_PLAN, VALID_CONCLUSION);
    SelfHasAll(VALID_LOAD_PLAN);
    RaiseKeeps(w, VALID_LOAD_PLAN, VALID_LOAD_PLAN);
    ParserBits(x);
  }

  lemma ShortIsRejected(b: seq<byte>)
    requires |b| < 28
    ensures !Accepts(b)
  {
    hide HasAll;
    StatusDecides(NO_FACTS.(fail := FAIL_SIZE));
  }

  lemma AcceptedHasTiling(b: seq<byte>) returns (offs: seq<nat>)
    requires |b| < TWO32 && Accepts(b)
    ensures CommandsAt(b, offs) && AllIn(b, offs) && HeaderGood(HeaderAt(b)) && ContentsGood(b, offs)
    ensures ParsedFacts(b).fail == 0 && FinalizeFacts(ParsedFacts(b)).fail == 0
  {
    hide HeaderAt, FinalizeFacts, FinalizeLoad, Segments, Conclude, CheckCommands, HasAll, Verdict, HasSegment,
         HasSection, HasEntryCommand, AllSound, HeaderGood, PlanSound;
    if |b| < 28 {
      ShortIsRejected(b);
    }
    var f := ParsedFacts(b);
    StatusDecides(FinalizeFacts(f));
    FinalizeMeaning(f);
    ConcludeMeaning(CheckCommands(StartFacts(HeaderAt(b)), b, HeaderAt(b)));
    offs := CheckFindsTiling(b);
    ParsedFails(b, offs);
    PlanningFails(b, offs);
  }

  /** The prober says yes exactly to the well-formed artifacts. */
  lemma AcceptsExactlyWellFormed(b: seq<byte>)
    requires |b| < TWO32
    ensures Accepts(b) <==> WellFormed(b)
  {
    hide HeaderAt, FinalizeFacts, FinalizeLoad, Segments, Conclude, CheckCommands, HasAll, Verdict, HasSegment,
         HasSection, HasEntryCommand, AllSound, PlanSound, ParsedFacts;
    if Accepts(b) {
      var offs := AcceptedHasTiling(b);
    }
    if WellFormed(b) {
      var offs :| CommandsAt(b, offs) && AllIn(b, offs) && ContentsGood(b, offs);
      var f := ParsedFacts(b);
      PlanSoundIsSmall(Segments(b, offs));
      ParsedFails(b, offs);
      PlanningFails(b, offs);
      FinalizeMeaning(f);
      ParsedValid(b, offs);
      StatusDecides(FinalizeFacts(f));
    }
  }

  lemma PlanSoundIsSmall(gs: seq<Segment>)
    ensures PlanSound(gs) ==> |Loadable(gs)| <= 8
  {
  }
}
