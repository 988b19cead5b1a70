/** What the probe depends on: the header and command region, and for the rest of the file only
    whether it is long enough. Also everything an accepted probe reports. */
module MachoFrame {
  import opened Words
  import opened Masks
  import opened MachoFormat
  import opened MachoSpec
  import opened MachoLayout
  import opened MachoParse
  import opened MachoPlan
  import opened MachoAccept

  // ----- equal regions -----

  predicate SamePrefix(b: seq<byte>, b': seq<byte>, r: nat) {
    r <= |b| && r <= |b'| && b[..r] == b'[..r]
  }

  lemma SameSlice(b: seq<byte>, b': seq<byte>, r: nat, i: nat, j: nat)
    requires SamePrefix(b, b', r) && i <= j <= r
    ensures b[i..j] == b'[i..j]
  {
    assert b[i..j] == b[..r][i..j];
    assert b'[i..j] == b'[..r][i..j];
  }

  lemma SameWord(b: seq<byte>, b': seq<byte>, r: nat, o: nat)
    requires SamePrefix(b, b', r) && o + 4 <= r
    ensures Le32(b, o) == Le32(b', o)
  {
    hide Le32;
    SameSlice(b, b', r, o, o + 4);
    Le32Frame(b, o, b', o);
  }

  lemma SameSection(b: seq<byte>, b': seq<byte>, r: nat, o: nat)
    requires SamePrefix(b, b', r) && o + 68 <= r
    ensures SectionAt(b, o) == SectionAt(b', o)
  {
    hide Le32;
    SameSlice(b, b', r, o, o + 16);
    SameSlice(b, b', r, o + 16, o + 32);
    SameWord(b, b', r, o + 32);
    SameWord(b, b', r, o + 36);
    SameWord(b, b', r, o + 40);
  }

  lemma SameSegment(b: seq<byte>, b': seq<byte>, r: nat, o: nat)
    requires SamePrefix(b, b', r) && o + 56 <= r
    ensures SegmentAt(b, o) == SegmentAt(b', o)
  {
    hide Le32;
    SameSlice(b, b', r, o + 8, o + 24);
    SameWord(b, b', r, o + 24);
    SameWord(b, b', r, o + 28);
    SameWord(b, b', r, o + 32);
    SameWord(b, b', r, o + 36);
    SameWord(b, b', r, o + 48);
  }

  lemma SameHeader(b: seq<byte>, b': seq<byte>, r: nat)
    requires SamePrefix(b, b', r) && r >= 28
    ensures HeaderAt(b) == HeaderAt(b')
  {
    hide Le32;
    SameWord(b, b', r, 0);
    SameWord(b, b', r, 4);
    SameWord(b, b', r, 8);
    SameWord(b, b', r, 12);
    SameWord(b, b', r, 16);
    SameWord(b, b', r, 20);
    SameWord(b, b', r, 24);
  }

  lemma SameCommand(b: seq<byte>, b': seq<byte>, r: nat, o: nat)
    requires SamePrefix(b, b', r) && o + 8 <= r
    ensures Cmd(b, o) == Cmd(b', o) && CmdSize(b, o) == CmdSize(b', o)
  {
    hide Le32;
    SameWord(b, b', r, o);
    SameWord(b, b', r, o + 4);
  }

  lemma {:induction false} SameTiling(b: seq<byte>, b': seq<byte>, offs: seq<nat>, lo: nat, hi: u32)
    requires SamePrefix(b, b', hi) && lo <= hi
    ensures Tiling(b, offs, lo, hi) ==> Tiling(b', offs, lo, hi)
    decreases |offs|
  {
    hide CmdSize;
    if offs != [] && Tiling(b, offs, lo, hi) {
      SameCommand(b, b', hi, lo);
      SameTiling(b, b', offs[1..], lo + CmdSize(b, lo), hi);
    }
  }

  // ----- one command, read from equal regions -----

  lemma {:induction false} SameSections(f: Facts, b: seq<byte>, b': seq<byte>, r: nat, size: u32, g: Segment, o: nat,
                                        n: nat)
    requires SamePrefix(b, b', r) && o + n * 68 <= r
    ensures RecordSections(f, b, size, g, o, n) == RecordSections(f, b', size, g, o, n)
    decreases n
  {
    hide RecordSection, SectionAt;
    if n > 0 {
      SameSection(b, b', r, o);
      SameSections(RecordSection(f, size, g, SectionAt(b, o)), b, b', r, size, g, o + 68, n - 1);
    }
  }

  lemma SameWords(b: seq<byte>, b': seq<byte>, r: nat, o: nat)
    requires SamePrefix(b, b', r) && CommandIn(b, o) && o + CmdSize(b, o) <= r
    ensures CommandIn(b', o)
    ensures forall c :: CountCommand(c, b, o) == CountCommand(c, b', o)
    ensures SegmentTooShort(b, o) == SegmentTooShort(b', o)
    ensures forall size :: SymtabFaulty(b, o, size) == SymtabFaulty(b', o, size)
    ensures IsSegment(b, o) == IsSegment(b', o)
  {
    hide Le32, Raise;
    SameCommand(b, b', r, o);
    if CmdSize(b, o) >= 16 {
      SameWord(b, b', r, o + 12);
    }
    if CmdSize(b, o) >= 24 {
      SameWord(b, b', r, o + 16);
      SameWord(b, b', r, o + 20);
    }
  }

  lemma SameApply(f: Facts, b: seq<byte>, b': seq<byte>, r: nat, size: u32, o: nat)
    requires SamePrefix(b, b', r) && CommandIn(b, o) && o + CmdSize(b, o) <= r
    ensures CommandIn(b', o)
    ensures ApplyCommand(f, b, size, o) == ApplyCommand(f, b', size, o)
  {
    hide Raise, CountCommand, SymtabFaulty, SegmentTooShort, SegmentAt, RecordSegment;
    SameWords(b, b', r, o);
    SameCommand(b, b', r, o);
    if IsSegment(b, o) {
      SameSegment(b, b', r, o);
      var g := SegmentAt(b, o);
      var f1 := RecordSegment(f.(cmds := CountCommand(f.cmds, b, o)), size, g);
      if SectionTableFits(g.nsects, CmdSize(b, o)) {
        SameSections(f1, b, b', r, size, g, o + 56, g.nsects);
      }
    }
  }

  lemma SameSound(b: seq<byte>, b': seq<byte>, r: nat, size: u32, o: nat)
    requires SamePrefix(b, b', r) && CommandIn(b, o) && o + CmdSize(b, o) <= r
    ensures CommandIn(b', o)
    ensures CommandSound(b, o, size) == CommandSound(b', o, size)
  {
    hide SymtabFaulty, SegmentTooShort, SegmentAt, SectionAt;
    SameWords(b, b', r, o);
    SameCommand(b, b', r, o);
    if IsSegment(b, o) {
      SameSegment(b, b', r, o);
      var g := SegmentAt(b, o);
      if 56 + g.nsects * 68 <= CmdSize(b, o) {
        forall i: nat | i < g.nsects
          ensures SectionSound(b, g, o + 56 + i * 68, size) == SectionSound(b', g, o + 56 + i * 68, size)
        {
          assert i * 68 + 68 <= g.nsects * 68;
          SameSection(b, b', r, o + 56 + i * 68);
        }
      }
    }
  }

  // ----- the same region judged against another length -----

  predicate SectionReaches(b: seq<byte>, o: nat, size: u32) {
    o + 68 <= |b| && HasFileBytes(SectionAt(b, o)) ==>
      SectionAt(b, o).offset + SectionAt(b, o).size <= size
  }

  predicate TableReaches(b: seq<byte>, o: nat, n: nat, size: u32) {
    forall i: nat :: i < n ==> SectionReaches(b, o + i * 68, size)
  }

  /** Every file range the command names ends within `size`. */
  predicate ExtentsFit(b: seq<byte>, o: nat, size: u32)
    requires CommandIn(b, o)
  {
    && !SymtabFaulty(b, o, size)
    && (IsSegment(b, o) ==>
          var g := SegmentAt(b, o);
          && g.fileoff + g.filesize <= size
          && TableReaches(b, o + 56, g.nsects, size))
  }

  predicate AllExtentsFit(b: seq<byte>, offs: seq<nat>, size: u32)
    requires AllIn(b, offs)
  {
    forall o :: o in offs ==> ExtentsFit(b, o, size)
  }

  lemma SectionResized(b: seq<byte>, g: Segment, o: nat, size: u32, size': u32)
    requires SectionSound(b, g, o, size)
    ensures SectionSound(b, g, o, size') <==> SectionReaches(b, o, size')
  {
    hide SectionAt;
  }

  lemma SoundResized(b: seq<byte>, o: nat, size: u32, size': u32)
    requires CommandIn(b, o) && CommandSound(b, o, size)
    ensures CommandSound(b, o, size') <==> ExtentsFit(b, o, size')
  {
    hide TableReaches, TableSound, SegmentAt, SymtabFaulty, CmdSize;
    if IsSegment(b, o) {
      var g := SegmentAt(b, o);
      TableResized(b, g, o + 56, g.nsects, size, size');
    }
  }

  lemma TableResized(b: seq<byte>, g: Segment, o: nat, n: nat, size: u32, size': u32)
    requires TableSound(b, g, o, n, size)
    ensures TableSound(b, g, o, n, size') <==> TableReaches(b, o, n, size')
  {
    hide SectionSound, SectionReaches;
    forall i: nat | i < n
      ensures SectionSound(b, g, o + i * 68, size') <==> SectionReaches(b, o + i * 68, size')
    {
      assert SectionSound(b, g, o + i * 68, size);
      SectionResized(b, g, o + i * 68, size, size');
    }
  }

  lemma {:induction false} SectionsResized(f: Facts, b: seq<byte>, size: u32, size': u32, g: Segment, o: nat, n: nat)
    requires o + n * 68 <= |b| && TableSound(b, g, o, n, size) && TableSound(b, g, o, n, size')
    ensures RecordSections(f, b, size, g, o, n) == RecordSections(f, b, size', g, o, n)
    decreases n
  {
    hide SectionAt, TableSound;
    if n > 0 {
      TableStep(b, g, o, n, size);
      TableStep(b, g, o, n, size');
      assert RecordSection(f, size, g, SectionAt(b, o)) == RecordSection(f, size', g, SectionAt(b, o));
      SectionsResized(RecordSection(f, size, g, SectionAt(b, o)), b, size, size', g, o + 68, n - 1);
    }
  }

  lemma ApplyResized(f: Facts, b: seq<byte>, size: u32, size': u32, o: nat)
    requires CommandIn(b, o) && CommandSound(b, o, size) && CommandSound(b, o, size')
    ensures ApplyCommand(f, b, size, o) == ApplyCommand(f, b, size', o)
  {
    hide Raise, CountCommand, CountSegment, SymtabFaulty, SegmentTooShort, SegmentAt, TableSound;
    if IsSegment(b, o) {
      var g := SegmentAt(b, o);
      var f1 := f.(cmds := CountCommand(f.cmds, b, o));
      assert RecordSegment(f1, size, g) == RecordSegment(f1, size', g);
      SectionsResized(RecordSegment(f1, size, g), b, size, size', g, o + 56, g.nsects);
    }
  }

  lemma {:induction false} SameFold(f: Facts, b: seq<byte>, b': seq<byte>, r: nat, size: u32, size': u32,
                                    offs: seq<nat>)
    requires SamePrefix(b, b', r) && AllIn(b, offs)
    requires forall o :: o in offs ==> o + CmdSize(b, o) <= r
    requires AllSound(b, offs, size) && AllSound(b, offs, size')
    ensures AllIn(b', offs)
    ensures Fold(f, b, size, offs) == Fold(f, b', size', offs)
    decreases |offs|
  {
    hide ApplyCommand, CommandSound;
    if offs != [] {
      assert offs == [offs[0]] + offs[1..];
      ApplyResized(f, b, size, size', offs[0]);
      SameApply(f, b, b', r, size', offs[0]);
      SameFold(ApplyCommand(f, b, size, offs[0]), b, b', r, size, size', offs[1..]);
    }
  }

  // ----- the theorems -----

  /** Whatever the bytes: the walk over a command region reads nothing outside it. */
  lemma {:induction false} WalkFrame(f: Facts, b: seq<byte>, b': seq<byte>, size: u32, o: nat, end: u32, n: nat)
    requires o <= end && SamePrefix(b, b', end)
    ensures Walk(f, b, size, o, end, n) == Walk(f, b', size, o, end, n)
    decreases n
  {
    hide ApplyCommand, CmdSize, Raise;
    if n > 0 && end - o >= 8 {
      SameCommand(b, b', end, o);
      if CommandFits(b, o, end) {
        SameApply(f, b, b', end, size, o);
        WalkFrame(ApplyCommand(f, b, size, o), b, b', size, o + CmdSize(b, o), end, n - 1);
      }
    }
  }

  /** And so for the whole prober: accepted or not, its report depends on the length of the file, the
      header, and the command region if that lies inside the file; no other byte is looked at. */
  lemma ProbeReads(b: seq<byte>, b': seq<byte>)
    requires |b| == |b'| < TWO32
    requires |b| >= 28 ==> SamePrefix(b, b', 28)
    requires |b| >= 28 && RegionFits(HeaderAt(b), |b|) ==> SamePrefix(b, b', 28 + HeaderAt(b).sizeofcmds)
    ensures Probe(b) == Probe(b')
  {
    hide SamePrefix, HeaderAt, Walk, Conclude, FinalizeFacts, FinalizeLoad, Verdict, HeaderFault, HeaderValid;
    if |b| >= 28 {
      SameHeader(b, b', 28);
      var h := HeaderAt(b);
      if RegionFits(h, |b|) {
        var f := StartFacts(h);
        WalkFrame(f.(valid := Raise(f.valid, VALID_COMMAND_BOUNDS)), b, b', |b|, 28, 28 + h.sizeofcmds, h.ncmds);
      }
    }
  }

  /** Two files that agree on an accepted header and command region: the second is accepted exactly
      when it is long enough for every range the commands name, and then the reports are equal. */
  lemma ProbeFrame(b: seq<byte>, b': seq<byte>, offs: seq<nat>)
    requires |b| < TWO32 && |b'| < TWO32
    requires Accepts(b) && CommandsAt(b, offs) && SamePrefix(b, b', RegionEnd(b))
    ensures AllIn(b, offs)
    ensures Accepts(b') <==> AllExtentsFit(b, offs, |b'|)
    ensures Accepts(b') ==> Probe(b') == Probe(b).(size := |b'|)
  {
    hide HeaderAt, FinalizeFacts, FinalizeLoad, Segments, Conclude, CheckCommands, Verdict, HasSegment,
         HasSection, HasEntryCommand, PlanSound, CommandSound, ExtentsFit, Fold, Tiling, SamePrefix;
    var offs1 := AcceptedHasTiling(b);
    TilingUnique(b, offs, offs1, 28, RegionEnd(b));
    TilingIn(b, offs, 28, RegionEnd(b));
    PrefixInside(b, b', RegionEnd(b));
    SameHeader(b, b', RegionEnd(b));
    SameTiling(b, b', offs, 28, RegionEnd(b));
    CheckTiled(b, offs);
    CheckTiled(b', offs);
    forall o | o in offs
      ensures CommandSound(b, o, |b'|) <==> ExtentsFit(b, o, |b'|)
      ensures CommandSound(b, o, |b'|) <==> CommandSound(b', o, |b'|)
    {
      SoundResized(b, o, |b|, |b'|);
      SameSound(b, b', RegionEnd(b), |b'|, o);
    }
    if AllExtentsFit(b, offs, |b'|) {
      SameFold(Started(HeaderAt(b)), b, b', RegionEnd(b), |b|, |b'|, offs);
    }
    if Accepts(b') {
      var offs2 := AcceptedHasTiling(b');
      TilingUnique(b', offs, offs2, 28, RegionEnd(b));
    }
  }

  lemma PrefixInside(b: seq<byte>, b': seq<byte>, r: nat)
    requires SamePrefix(b, b', r)
    ensures r <= |b'|
  {
  }

  /** What an accepting probe has established and reports. */
  lemma AcceptedReport(b: seq<byte>, offs: seq<nat>)
    requires |b| < TWO32 && Accepts(b) && CommandsAt(b, offs)
    ensures AllIn(b, offs) && HeaderGood(HeaderAt(b)) && ContentsGood(b, offs)
    ensures var gs, t, load := Segments(b, offs), Probe(b).facts.segs, Probe(b).load;
            && Named(Loadable(gs)) && 1 <= |Loadable(gs)| <= 8
            && t.count == |gs| && IsMinStart(gs, t.minVm) && IsMaxEnd(gs, t.maxVm) && 0 < t.minVm < t.maxVm
            && AllFit(Planned(0, Loadable(gs)), t.minVm)
            && t.plan == PlacedEntries(Planned(0, Loadable(gs)), t.minVm)
            && load.status == STATUS_OK
            && load.vmBase == t.minVm && load.vmEnd == t.maxVm && load.physBase == RAM_PHYS_BASE
            && IsPhysEnd(load.physEnd, RAM_PHYS_BASE, Planned(0, Loadable(gs)), t.minVm)
  {
    hide HeaderAt, FinalizeFacts, FinalizeLoad, Segments, Conclude, CheckCommands, Verdict, HasSegment,
         HasSection, HasEntryCommand, AllSound, ParsedFacts, HeaderGood, Planned, AllFit, IsPhysEnd, IsMaxEnd;
    var offs1 := AcceptedHasTiling(b);
    TilingUnique(b, offs, offs1, 28, RegionEnd(b));
    var gs := Segments(b, offs);
    assert gs != [] by { NoSegmentInNothing(); }
    assert HeaderAt(b).sizeofcmds % 4 == 0 by { GoodIsAligned(HeaderAt(b)); }
    ParsedSegments(b, offs);
    FinalizeMeaning(ParsedFacts(b));
  }

  lemma GoodIsAligned(h: Header)
    ensures HeaderGood(h) ==> h.sizeofcmds % 4 == 0
  {
  }
}
