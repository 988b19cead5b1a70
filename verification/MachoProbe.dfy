/** The prober as the payload runs it: a result block filled in place by loops over the artifact,
    proved step by step against the functions of `MachoSpec`. */
module MachoProbe {
  import opened Words
  import opened Runtime
  import opened Masks
  import opened MachoFormat
  import opened MachoSpec

  /** The result block. Its flat fields are grouped by the loop that fills them; the entry array of
      the load plan with its count is the sequence `segs.plan`. */
  class ProbeResult {
    var artifactSize: u32
    var header: Header
    var cmds: CommandFacts
    var segs: SegmentFacts
    var sects: SectionFacts
    var maxExtent: u32
    var load: Load
    var valid: bv32
    var fail: bv32
    var status: bv32
    var staging: StagingCopy

    function View(): Facts
      reads this
    {
      Facts(cmds, segs, sects, maxExtent, valid, fail)
    }

    function Report(): Outcome
      reads this
    {
      Outcome(artifactSize, header, View(), load, status)
    }

    constructor ()
      ensures View() == NO_FACTS
    {
      artifactSize, header, load, status, staging := 0, NO_HEADER, NO_LOAD, STATUS_BASE, NO_STAGING;
      cmds, segs, sects, maxExtent, valid, fail := NO_COMMANDS, NO_SEGMENTS, NO_SECTIONS, 0, 0, 0;
    }

    /** Zeroes the block and sets the few fields that do not start at zero. */
    method Clear(size: u32)
      modifies this
      ensures Report() == Outcome(size, NO_HEADER, NO_FACTS, NO_LOAD, STATUS_BASE) && staging == NO_STAGING
    {
      artifactSize, header, load, status, staging := size, NO_HEADER, NO_LOAD, STATUS_BASE, NO_STAGING;
      cmds, segs, sects, maxExtent, valid, fail := NO_COMMANDS, NO_SEGMENTS, NO_SECTIONS, 0, 0, 0;
    }

    method RecordSectionMatch(s: Section)
      requires |s.name| == |s.segment| == 16
      modifies this`sects
      ensures sects == CountSection(old(sects), s).(count := old(sects).count)
    {
      hide SectionMask, KeepSection, Raise, Has;
      var bit := SectionMaskForNames(s);
      sects := sects.(key := KeepSection(sects.key, s, bit));
      sects := sects.(mask := Raise(sects.mask, bit));
      if Has(bit, SECT_PRELINK_MASK) {
        sects := sects.(prelinkMask := Raise(sects.prelinkMask, bit));
      }
    }

    method RecordOneSection(g: Segment, s: Section)
      requires |s.name| == |s.segment| == 16
      modifies this`sects, this`maxExtent, this`fail
      ensures View() == RecordSection(old(View()), artifactSize, g, s)
    {
      hide SectionMask, KeepSection, Raise, Has, SectionOutsideSegment, RangeEscapes;
      RaiseTwice(fail, FAIL_SECTION_BOUNDS);
      RaiseNone(fail);
      sects := sects.(count := Inc32(sects.count));
      RecordSectionMatch(s);
      if SectionOutsideSegment(g, s) {
        fail := Raise(fail, FAIL_SECTION_BOUNDS);
      }
      if s.size != 0 && s.offset != 0 {
        var fileEnd := Add32(s.offset, s.size);
        if RangeEscapes(s.offset, s.size, artifactSize) {
          fail := Raise(fail, FAIL_SECTION_BOUNDS);
        }
        if fileEnd > maxExtent {
          maxExtent := fileEnd;
        }
      }
    }

    method ParseSegmentSections(bytes: seq<byte>, o: nat, g: Segment)
      requires CommandIn(bytes, o) && IsSegment(bytes, o) && g == SegmentAt(bytes, o)
      modifies this`sects, this`maxExtent, this`fail
      ensures View() == if SectionTableFits(g.nsects, CmdSize(bytes, o))
                        then RecordSections(old(View()), bytes, artifactSize, g, o + 56, g.nsects)
                        else old(View()).(fail := Raise(old(fail), FAIL_SECTION_BOUNDS))
    {
      hide Raise, Has, RecordSection, SectionAt, SegmentAt;
      if !SectionTableFits(g.nsects, CmdSize(bytes, o)) {
        fail := Raise(fail, FAIL_SECTION_BOUNDS);
        return;
      }
      var at, i := o + 56, 0;
      while i < g.nsects
        invariant 0 <= i <= g.nsects && at == o + 56 + i * 68
        invariant RecordSections(View(), bytes, artifactSize, g, at, g.nsects - i) ==
                  RecordSections(old(View()), bytes, artifactSize, g, o + 56, g.nsects)
      {
        RecordOneSection(g, SectionAt(bytes, at));
        at, i := at + 68, i + 1;
      }
    }

    method AddLoadPlanEntry(g: Segment, bit: bv32)
      modifies this`segs, this`fail
      ensures segs == old(segs).(plan := AddPlanEntry(old(segs).plan, g, bit))
      ensures fail == Raise(old(fail), Flag(PlanFull(old(segs).plan, g), FAIL_LOAD_PLAN_FULL))
    {
      hide Raise, NewEntry;
      RaiseNone(fail);
      if g.vmsize == 0 {
        return;
      }
      if |segs.plan| >= LOAD_PLAN_MAX {
        fail := Raise(fail, FAIL_LOAD_PLAN_FULL);
        return;
      }
      segs := segs.(plan := segs.plan + [NewEntry(|segs.plan|, g, bit)]);
    }

    /** Name bits, key extents and address bounds of a segment that does not wrap. */
    method KeepTotals(g: Segment, bit: bv32, ghost before: SegmentFacts)
      requires |g.name| == 16 && bit == SegmentMask(g.name) && !AddOverflow(g.vmaddr, g.vmsize)
      requires segs == before.(count := Inc32(before.count))
      modifies this`segs
      ensures segs == CountSegment(before, g).(plan := before.plan)
    {
      hide SegmentMask, KeepSegment, Raise, Has, AddPlanEntry, Inc32, Add32, AddOverflow;
      var t := segs;
      var vmEnd := Add32(g.vmaddr, g.vmsize);
      t := t.(mask := Raise(t.mask, bit));
      if Has(bit, SEG_PRELINK_MASK) {
        t := t.(prelinkMask := Raise(t.prelinkMask, bit));
      }
      t := t.(key := KeepSegment(t.key, g, bit));
      var lo, hi := WidenRange(t.count == 1, t.minVm, t.maxVm, g.vmaddr, vmEnd);
      segs := t.(minVm := lo, maxVm := hi);
    }

    method RecordOneSegment(g: Segment)
      requires |g.name| == 16
      modifies this`segs, this`maxExtent, this`valid, this`fail
      ensures View() == RecordSegment(old(View()), artifactSize, g)
    {
      hide SegmentMask, KeepSegment, Raise, Has, AddPlanEntry, PlanFull, RangeEscapes, AddOverflow;
      ghost var before := segs;
      segs := segs.(count := Inc32(segs.count));
      valid := Raise(valid, VALID_SEGMENT_COMMAND);
      var bit := SegmentMaskForName(g.name);
      if AddOverflow(g.vmaddr, g.vmsize) {
        fail := Raise(fail, FAIL_SEGMENT_BOUNDS);
        return;
      }
      var fileEnd := Add32(g.fileoff, g.filesize);
      RaiseNone(fail);
      if RangeEscapes(g.fileoff, g.filesize, artifactSize) {
        fail := Raise(fail, FAIL_SEGMENT_EXTENT);
      }
      KeepTotals(g, bit, before);
      if fileEnd > maxExtent {
        maxExtent := fileEnd;
      }
      AddLoadPlanEntry(g, bit);
    }

    method ReadSegment(bytes: seq<byte>, o: nat)
      requires CommandIn(bytes, o) && IsSegment(bytes, o)
      modifies this`segs, this`sects, this`maxExtent, this`valid, this`fail
      ensures View() == ApplySegment(old(View()), bytes, artifactSize, o)
    {
      hide RecordSegment, RecordSections, SegmentAt, Raise;
      var g := SegmentAt(bytes, o);
      RecordOneSegment(g);
      ParseSegmentSections(bytes, o, g);
    }

    method ReadSymtab(bytes: seq<byte>, o: nat)
      requires CommandIn(bytes, o) && Cmd(bytes, o) == LC_SYMTAB
      modifies this`fail
      ensures fail == Raise(old(fail), Flag(SymtabFaulty(bytes, o, artifactSize), FAIL_SEGMENT_EXTENT))
    {
      hide Raise, RangeEscapes;
      RaiseNone(fail);
      if CmdSize(bytes, o) >= SYMTAB_SIZE {
        if RangeEscapes(Le32(bytes, o + 16), Le32(bytes, o + 20), artifactSize) {
          fail := Raise(fail, FAIL_SEGMENT_EXTENT);
        }
      }
    }

    /** The command is counted and its kind noted. */
    method NoteCommand(bytes: seq<byte>, o: nat)
      requires CommandIn(bytes, o)
      modifies this`cmds
      ensures cmds == CountCommand(old(cmds), bytes, o)
    {
      hide Raise, Le32;
      var cmd, size := Cmd(bytes, o), CmdSize(bytes, o);
      cmds := cmds.(count := Inc32(cmds.count));
      if cmd == LC_SEGMENT {
        if size >= SEGMENT_SIZE {
          cmds := cmds.(mask := Raise(cmds.mask, CMD_SEGMENT));
        }
      } else if cmd == LC_SYMTAB {
        cmds := cmds.(mask := Raise(cmds.mask, CMD_SYMTAB));
      } else if cmd == LC_UNIXTHREAD {
        cmds := cmds.(mask := Raise(cmds.mask, CMD_UNIXTHREAD));
        cmds := cmds.(entryKind := Raise(cmds.entryKind, ENTRY_UNIXTHREAD));
        if size >= 16 {
          cmds := cmds.(entryPc := Le32(bytes, o + 12));
        }
      } else if cmd == LC_MAIN {
        cmds := cmds.(mask := Raise(cmds.mask, CMD_MAIN));
        cmds := cmds.(entryKind := Raise(cmds.entryKind, ENTRY_MAIN));
      } else {
        cmds := cmds.(mask := Raise(cmds.mask, CMD_UNKNOWN));
        cmds := cmds.(unknown := Inc32(cmds.unknown));
      }
    }

    /** The body of the command loop, once the command's size has been accepted. */
    method DispatchCommand(bytes: seq<byte>, o: nat)
      requires CommandIn(bytes, o)
      modifies this
      ensures View() == ApplyCommand(old(View()), bytes, artifactSize, o)
      ensures unchanged(`artifactSize, `header, `load, `status, `staging)
    {
      hide ApplySegment, Raise, SymtabFaulty, CountCommand, Le32;
      RaiseNone(fail);
      SymtabOnly(bytes, o, artifactSize);
      NoteCommand(bytes, o);
      if Cmd(bytes, o) == LC_SEGMENT {
        if CmdSize(bytes, o) < SEGMENT_SIZE {
          fail := Raise(fail, FAIL_COMMAND_SIZE);
        } else {
          ReadSegment(bytes, o);
        }
      } else if Cmd(bytes, o) == LC_SYMTAB {
        ReadSymtab(bytes, o);
      }
    }

    method WalkCommands(bytes: seq<byte>, end: u32) returns (offset: nat)
      requires 28 <= end <= |bytes|
      modifies this
      ensures unchanged(`artifactSize, `header, `load, `status, `staging)
      ensures (View(), offset) == Walk(old(View()), bytes, artifactSize, 28, end, header.ncmds)
    {
      hide Raise, ApplyCommand, CmdSize, Cmd, Walk;
      offset := HEADER_SIZE;
      var i := 0;
      while i < header.ncmds && offset < end
        invariant unchanged(`artifactSize, `header, `load, `status, `staging)
        invariant 0 <= i <= header.ncmds && 28 <= offset <= end
        invariant Walk(View(), bytes, artifactSize, offset, end, header.ncmds - i) ==
                  Walk(old(View()), bytes, artifactSize, 28, end, header.ncmds)
      {
        WalkOnce(View(), bytes, artifactSize, offset, end, header.ncmds - i);
        if end - offset < COMMAND_SIZE {
          fail := Raise(fail, FAIL_COMMAND_BOUNDS);
          return;
        }
        if !CommandFits(bytes, offset, end) {
          fail := Raise(fail, FAIL_COMMAND_SIZE);
          return;
        }
        DispatchCommand(bytes, offset);
        offset := Add32(offset, CmdSize(bytes, offset));
        i := i + 1;
      }
      WalkEnds(View(), bytes, artifactSize, offset, end, header.ncmds - i);
    }

    /** The body of the planning loop: entry `i` gets its place, and the bounds move with it. */
    method PlaceOne(i: nat, minVm: u32, physEnd: u32, fileBase: u32, fileEnd: u32)
      returns (physEnd': u32, fileBase': u32, fileEnd': u32)
      requires i < |segs.plan|
      modifies this`fail, this`segs
      ensures segs == old(segs).(plan := segs.plan) && |segs.plan| == |old(segs).plan|
      ensures Placing(segs.plan[..i + 1], physEnd', fileBase', fileEnd', fail) ==
              PlaceEntry(Placing(old(segs).plan[..i], physEnd, fileBase, fileEnd, old(fail)), old(segs).plan[i], minVm)
      ensures segs.plan[i + 1..] == old(segs).plan[i + 1..]
    {
      hide Raise, AlignUpChecked, AddOverflow, Add32;
      RaiseNone(fail);
      physEnd', fileBase', fileEnd' := physEnd, fileBase, fileEnd;
      var e := segs.plan[i];
      if e.vmaddr < minVm {
        SetEntry(i, e);
        fail := Raise(fail, FAIL_LOAD_PLAN);
        return;
      }
      e := e.(physaddr := Add32(RAM_PHYS_BASE, e.vmaddr - minVm));
      var aligned := AlignUpChecked(e.vmsize, PAGE_SIZE);
      if AddOverflow(RAM_PHYS_BASE, e.vmaddr - minVm) || !aligned.Aligned? ||
         AddOverflow(e.physaddr, aligned.value) {
        SetEntry(i, e);
        fail := Raise(fail, FAIL_PHYS_RANGE);
        return;
      }
      var entryEnd := Add32(e.physaddr, aligned.value);
      e := e.(physsize := aligned.value);
      SetEntry(i, e);
      if e.physaddr < RAM_PHYS_BASE || entryEnd > RAM_CONSOLE_BASE || entryEnd < e.physaddr {
        fail := Raise(fail, FAIL_PHYS_RANGE);
      }
      if entryEnd > physEnd {
        physEnd' := entryEnd;
      }
      fileBase', fileEnd' := WidenFileRange(e, fileBase, fileEnd);
    }

    /** Only entries with file bytes move the file bounds. */
    method WidenFileRange(e: PlanEntry, fileBase: u32, fileEnd: u32) returns (fileBase': u32, fileEnd': u32)
      ensures fileBase' == if e.filesize != 0 && e.fileoff < fileBase then e.fileoff else fileBase
      ensures fileEnd' == if e.filesize != 0 && !AddOverflow(e.fileoff, e.filesize)
                          then Max32(fileEnd, Add32(e.fileoff, e.filesize)) else fileEnd
    {
      fileBase', fileEnd' := fileBase, fileEnd;
      if e.filesize != 0 {
        if e.fileoff < fileBase {
          fileBase' := e.fileoff;
        }
        if !AddOverflow(e.fileoff, e.filesize) && Add32(e.fileoff, e.filesize) > fileEnd {
          fileEnd' := Add32(e.fileoff, e.filesize);
        }
      }
    }

    method SetEntry(i: nat, e: PlanEntry)
      requires i < |segs.plan|
      modifies this`segs
      ensures segs == old(segs).(plan := segs.plan) && |segs.plan| == |old(segs).plan|
      ensures segs.plan[..i + 1] == old(segs).plan[..i] + [e]
      ensures segs.plan[i + 1..] == old(segs).plan[i + 1..]
    {
      segs := segs.(plan := segs.plan[i := e]);
    }

    method FinalizeLoadPlan()
      requires load == NO_LOAD
      modifies this`load, this`fail, this`valid, this`segs
      ensures View() == FinalizeFacts(old(View())) && load == FinalizeLoad(old(View()))
    {
      hide Raise, Has, PlaceEntry;
      RaiseNone(valid);
      load := load.(head := load.head.(vmBase := segs.minVm, vmEnd := segs.maxVm, physBase := RAM_PHYS_BASE));
      if |segs.plan| == 0 || segs.minVm == 0 || segs.maxVm <= segs.minVm {
        fail := Raise(fail, FAIL_LOAD_PLAN);
        return;
      }
      var physEnd, fileBase, fileEnd := RAM_PHYS_BASE, UINT32_MAX, 0;
      var i := 0;
      assert segs.plan[..0] == [] && segs.plan[0..] == segs.plan;
      while i < |segs.plan|
        invariant 0 <= i <= |segs.plan| == |old(segs).plan|
        invariant segs == old(segs).(plan := segs.plan) && valid == old(valid)
        invariant load.head == PlanHead(segs.minVm, segs.maxVm, RAM_PHYS_BASE, 0, 0, 0)
        invariant PlaceAll(Placing(segs.plan[..i], physEnd, fileBase, fileEnd, fail), segs.plan[i..], segs.minVm) ==
                  Placed(old(View()))
      {
        assert segs.plan[i..][1..] == segs.plan[i + 1..];
        physEnd, fileBase, fileEnd := PlaceOne(i, segs.minVm, physEnd, fileBase, fileEnd);
        i := i + 1;
      }
      assert segs.plan[..i] == segs.plan && segs.plan[i..] == [];
      assert Placed(old(View())) == Placing(segs.plan, physEnd, fileBase, fileEnd, fail);
      assert !NothingToPlan(old(View()).segs);
      var verdict := if !Has(fail, FAIL_PLAN_MASK) then STATUS_OK else StatusFail(fail);
      load := Load(segs.minVm, segs.maxVm, if fileBase == UINT32_MAX then 0 else fileBase, fileEnd,
                   RAM_PHYS_BASE, physEnd, Sub32(physEnd, RAM_PHYS_BASE), Wrap(|segs.plan|), verdict,
                   load.head.(physEnd := physEnd, fileEnd := fileEnd, status := verdict));
      if !Has(fail, FAIL_PLAN_MASK) {
        valid := Raise(valid, VALID_LOAD_PLAN);
      }
    }

    method CheckHeader(h: Header)
      requires View() == NO_FACTS
      modifies this`valid, this`fail
      ensures View() == StartFacts(h)
    {
      var v, x: bv32 := 0, 0;
      if h.magic == MAGIC {
        v := v | VALID_MAGIC | VALID_ENDIAN;
      } else if h.magic == CIGAM {
        v := v | VALID_MAGIC;
        x := x | FAIL_ENDIAN;
      } else {
        x := x | FAIL_MAGIC;
      }
      if h.cputype == CPU_TYPE_ARM {
        v := v | VALID_CPU;
      } else {
        x := x | FAIL_CPU;
      }
      if h.cpusubtype == CPU_SUBTYPE_ARM_ALL || h.cpusubtype == CPU_SUBTYPE_ARM_V7 {
        v := v | VALID_SUBTYPE;
      } else {
        x := x | FAIL_SUBTYPE;
      }
      if h.filetype == FILETYPE_EXECUTE || h.filetype == FILETYPE_PRELOAD {
        v := v | VALID_FILETYPE;
      } else {
        x := x | FAIL_FILETYPE;
      }
      valid, fail := v, x;
    }

    /** The tests after the command loop. */
    method ConcludeProbe()
      modifies this`valid, this`fail
      ensures View() == Conclude(old(View()))
    {
      hide Raise, Has, HasAll, Flag;
      var v, x := NameBits(valid, fail, HasAll(segs.mask, SEG_REQUIRED), HasAll(sects.mask, SECT_REQUIRED));
      v, x := ReportBits(v, x, Raise(segs.prelinkMask, sects.prelinkMask) != 0, Has(cmds.entryKind, ENTRY_ANY));
      valid, fail := v, x;
    }

    /** The command region is bounded, walked, and compared with what the header promised. */
    method ReadCommands(bytes: seq<byte>)
      requires 28 <= |bytes| == artifactSize && header == HeaderAt(bytes)
      modifies this
      ensures View() == CheckCommands(old(View()), bytes, header)
      ensures unchanged(`artifactSize, `header, `load, `status, `staging)
    {
      hide Raise, Walk, HeaderAt;
      if RangeEscapes(HEADER_SIZE, header.sizeofcmds, artifactSize) || header.sizeofcmds % 4 != 0 {
        fail := Raise(fail, FAIL_COMMAND_BOUNDS);
        return;
      }
      valid := Raise(valid, VALID_COMMAND_BOUNDS);
      var end := Add32(HEADER_SIZE, header.sizeofcmds);
      var stop := WalkCommands(bytes, end);
      RaiseNone(fail);
      if cmds.count != header.ncmds || stop != end {
        fail := Raise(fail, FAIL_COMMAND_BOUNDS);
      }
    }

    /** `stage90_macho_probe`: a missing artifact, one shorter than a header, or the parse. */
    method Run(artifact: array?<byte>, size: u32) returns (ok: bool)
      requires artifact != null ==> size <= artifact.Length
      modifies this
      ensures Report() == if artifact == null then Rejected(size, FAIL_NULL) else Probe(artifact[..size])
      ensures (ok <==> status == STATUS_OK) && staging == NO_STAGING
    {
      hide HasAll, Conclude, StartFacts, CheckCommands, FinalizeFacts, FinalizeLoad, HeaderAt, StatusFail;
      Clear(size);
      if artifact == null {
        fail := FAIL_NULL;
      } else if size < HEADER_SIZE {
        fail := FAIL_SIZE;
      } else {
        var bytes := artifact[..size];
        CheckHeader(HeaderAt(bytes));
        header := HeaderAt(bytes);
        ReadCommands(bytes);
        ConcludeProbe();
        FinalizeLoadPlan();
      }
      ok := HasAll(valid, VALID_PARSER) && fail == 0;
      status := if ok then STATUS_OK else StatusFail(fail);
      StatusFailIsNotOk(fail);
    }
  }

  method WidenRange(first: bool, minVm: u32, maxVm: u32, vmaddr: u32, vmEnd: u32) returns (lo: u32, hi: u32)
    ensures lo == if first || vmaddr < minVm then vmaddr else minVm
    ensures hi == Max32(maxVm, vmEnd)
  {
    lo, hi := minVm, maxVm;
    if first || vmaddr < minVm {
      lo := vmaddr;
    }
    if vmEnd > maxVm {
      hi := vmEnd;
    }
  }

  // ----- the tests after the walk -----

  method NameBits(v: bv32, x: bv32, segmentsSeen: bool, sectionsSeen: bool) returns (v': bv32, x': bv32)
    ensures v' == Raise(Raise(v, Flag(segmentsSeen, VALID_REQUIRED_SEGMENTS)),
                        Flag(sectionsSeen, VALID_REQUIRED_SECTIONS))
    ensures x' == Raise(Raise(x, Flag(!segmentsSeen, FAIL_REQUIRED_SEGMENTS)),
                        Flag(!sectionsSeen, FAIL_REQUIRED_SECTIONS))
  {
    hide Raise, Flag;
    v', x' := v, x;
    RaiseIf(v', segmentsSeen, VALID_REQUIRED_SEGMENTS);
    RaiseIf(x', !segmentsSeen, FAIL_REQUIRED_SEGMENTS);
    if segmentsSeen {
      v' := Raise(v', VALID_REQUIRED_SEGMENTS);
    } else {
      x' := Raise(x', FAIL_REQUIRED_SEGMENTS);
    }
    RaiseIf(v', sectionsSeen, VALID_REQUIRED_SECTIONS);
    RaiseIf(x', !sectionsSeen, FAIL_REQUIRED_SECTIONS);
    if sectionsSeen {
      v' := Raise(v', VALID_REQUIRED_SECTIONS);
    } else {
      x' := Raise(x', FAIL_REQUIRED_SECTIONS);
    }
  }

  method ReportBits(v: bv32, x: bv32, prelinked: bool, entrySeen: bool) returns (v': bv32, x': bv32)
    ensures v' == Raise(Raise(Raise(Raise(v, Flag(!Has(x, FAIL_SEGMENT_EXTENT), VALID_FILE_EXTENTS)),
                                    Flag(!Has(x, FAIL_SECTION_BOUNDS), VALID_SECTION_BOUNDS)),
                              Flag(prelinked, VALID_PRELINK_REPORT)),
                        Flag(entrySeen, VALID_ENTRY_NOT_EXECUTED))
    ensures x' == Raise(x, Flag(!entrySeen, FAIL_NO_ENTRY_METADATA))
  {
    hide Raise, Flag, Has;
    v', x' := v, x;
    RaiseIf(v', !Has(x, FAIL_SEGMENT_EXTENT), VALID_FILE_EXTENTS);
    if !Has(x, FAIL_SEGMENT_EXTENT) {
      v' := Raise(v', VALID_FILE_EXTENTS);
    }
    RaiseIf(v', !Has(x, FAIL_SECTION_BOUNDS), VALID_SECTION_BOUNDS);
    if !Has(x, FAIL_SECTION_BOUNDS) {
      v' := Raise(v', VALID_SECTION_BOUNDS);
    }
    RaiseIf(v', prelinked, VALID_PRELINK_REPORT);
    if prelinked {
      v' := Raise(v', VALID_PRELINK_REPORT);
    }
    RaiseIf(v', entrySeen, VALID_ENTRY_NOT_EXECUTED);
    RaiseIf(x', !entrySeen, FAIL_NO_ENTRY_METADATA);
    if entrySeen {
      v' := Raise(v', VALID_ENTRY_NOT_EXECUTED);
    } else {
      x' := Raise(x', FAIL_NO_ENTRY_METADATA);
    }
  }

  // ----- the walk, one iteration at a time -----

  lemma WalkOnce(f: Facts, b: seq<byte>, size: u32, o: nat, end: u32, n: nat)
    requires o < end <= |b| && n > 0
    ensures Walk(f, b, size, o, end, n) ==
            if end - o < COMMAND_SIZE then (f.(fail := Raise(f.fail, FAIL_COMMAND_BOUNDS)), o)
            else if !CommandFits(b, o, end) then (f.(fail := Raise(f.fail, FAIL_COMMAND_SIZE)), o)
            else Walk(ApplyCommand(f, b, size, o), b, size, o + CmdSize(b, o), end, n - 1)
  {
    hide Raise, ApplyCommand, CmdSize;
  }

  lemma WalkEnds(f: Facts, b: seq<byte>, size: u32, o: nat, end: u32, n: nat)
    requires o <= end <= |b| && (n == 0 || o >= end)
    ensures Walk(f, b, size, o, end, n) == (f, o)
  {
  }

  lemma SymtabOnly(b: seq<byte>, o: nat, size: u32)
    requires CommandIn(b, o)
    ensures Cmd(b, o) != LC_SYMTAB ==> !SymtabFaulty(b, o, size)
    ensures !SegmentTooShort(b, o) ==>
              CommandFault(b, o, size) == Flag(SymtabFaulty(b, o, size), FAIL_SEGMENT_EXTENT)
    ensures SegmentTooShort(b, o) ==> CommandFault(b, o, size) == FAIL_COMMAND_SIZE
  {
  }
}
