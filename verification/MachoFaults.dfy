/** What the command loop raises and notes for any list of commands, sound or not. */
module MachoFaults {
  import opened Words
  import opened Masks
  import opened MachoFormat
  import opened MachoSpec
  import opened MachoLayout
  import opened MachoParse
  import opened MachoSums

  lemma FlagHas(c: bool, bit: bv32, k: bv32)
    ensures Has(Flag(c, bit), k) <==> c && Has(bit, k)
  {
  }

  // ----- what is wrong with one command -----

  /** A segment command too short for its own fields. */
  predicate ShortAt(b: seq<byte>, o: nat)
    requires CommandIn(b, o)
  {
    Cmd(b, o) == 1 && CmdSize(b, o) < 56
  }

  predicate WrapsAt(b: seq<byte>, o: nat)
    requires CommandIn(b, o)
  {
    IsSegment(b, o) && SegmentAt(b, o).vmaddr + SegmentAt(b, o).vmsize >= TWO32
  }

  /** The file range of a segment that does not wrap, or the strings of a symbol table, end past the file. */
  predicate EscapesAt(b: seq<byte>, o: nat, size: u32)
    requires CommandIn(b, o)
  {
    || (IsSegment(b, o) && !WrapsAt(b, o) && SegmentAt(b, o).fileoff + SegmentAt(b, o).filesize > size)
    || (Cmd(b, o) == 2 && CmdSize(b, o) >= 24 && Le32(b, o + 16) + Le32(b, o + 20) > size)
  }

  /** A section outside its segment, or with file bytes past the file. */
  predicate SectionOut(g: Segment, s: Section, size: u32) {
    || !(g.vmaddr <= s.addr && s.addr + s.size <= g.vmaddr + g.vmsize < TWO32)
    || (s.size > 0 && s.offset > 0 && s.offset + s.size > size)
  }

  predicate OneOut(b: seq<byte>, g: Segment, o: nat, n: nat, size: u32)
    requires o + n * 68 <= |b|
  {
    exists i: nat :: i < n && SectionOut(g, SectionAt(b, o + i * 68), size)
  }

  /** The section table overruns its command, or one of its sections is out. */
  predicate TableOut(b: seq<byte>, o: nat, size: u32)
    requires CommandIn(b, o)
  {
    IsSegment(b, o) &&
    (56 + SegmentAt(b, o).nsects * 68 > CmdSize(b, o) ||
     OneOut(b, SegmentAt(b, o), o + 56, SegmentAt(b, o).nsects, size))
  }

  lemma SectionOutMeans(g: Segment, s: Section, size: u32)
    ensures SectionFaulty(g, s, size) <==> SectionOut(g, s, size)
  {
  }

  lemma OneOutStep(b: seq<byte>, g: Segment, o: nat, n: nat, size: u32)
    requires o + n * 68 <= |b| && n > 0
    ensures OneOut(b, g, o, n, size) <==> SectionOut(g, SectionAt(b, o), size) || OneOut(b, g, o + 68, n - 1, size)
  {
    hide SectionOut, SectionAt;
    if OneOut(b, g, o, n, size) {
      var i: nat :| i < n && SectionOut(g, SectionAt(b, o + i * 68), size);
      if i > 0 {
        assert SectionOut(g, SectionAt(b, o + 68 + (i - 1) * 68), size);
      }
    }
    if SectionOut(g, SectionAt(b, o), size) {
      assert SectionOut(g, SectionAt(b, o + 0 * 68), size);
    }
    if OneOut(b, g, o + 68, n - 1, size) {
      var i: nat :| i < n - 1 && SectionOut(g, SectionAt(b, o + 68 + i * 68), size);
      assert SectionOut(g, SectionAt(b, o + (i + 1) * 68), size);
    }
  }

  lemma {:induction false} TableRaises(f: Facts, b: seq<byte>, size: u32, g: Segment, o: nat, n: nat, k: bv32)
    requires o + n * 68 <= |b|
    ensures Has(RecordSections(f, b, size, g, o, n).fail, k) <==>
            Has(f.fail, k) || (OneOut(b, g, o, n, size) && Has(FAIL_SECTION_BOUNDS, k))
    decreases n
  {
    hide Raise, Has, Flag, CountSection, SectionFaulty, SectionOut, SectionAt, OneOut;
    if n == 0 {
      NoneOut(b, g, o, size);
    } else {
      var s := SectionAt(b, o);
      OneOutStep(b, g, o, n, size);
      SectionOutMeans(g, s, size);
      var x := Flag(SectionFaulty(g, s, size), FAIL_SECTION_BOUNDS);
      FlagHas(SectionFaulty(g, s, size), FAIL_SECTION_BOUNDS, k);
      RaiseHas(f.fail, x, k);
      TableRaises(RecordSection(f, size, g, s), b, size, g, o + 68, n - 1, k);
    }
  }

  lemma NoneOut(b: seq<byte>, g: Segment, o: nat, size: u32)
    requires o <= |b|
    ensures !OneOut(b, g, o, 0, size)
  {
  }

  predicate CommandRaises(b: seq<byte>, o: nat, size: u32, full: bool, k: bv32)
    requires CommandIn(b, o)
  {
    || (ShortAt(b, o) && Has(FAIL_COMMAND_SIZE, k))
    || (WrapsAt(b, o) && Has(FAIL_SEGMENT_BOUNDS, k))
    || (EscapesAt(b, o, size) && Has(FAIL_SEGMENT_EXTENT, k))
    || (TableOut(b, o, size) && Has(FAIL_SECTION_BOUNDS, k))
    || (full && Has(FAIL_LOAD_PLAN_FULL, k))
  }

  /** The segment is to be planned and there is no room left. */
  predicate PlanOverflows(plan: seq<PlanEntry>, b: seq<byte>, o: nat)
    requires CommandIn(b, o)
  {
    IsSegment(b, o) && Keeps(SegmentAt(b, o)) && SegmentAt(b, o).vmsize != 0 && |plan| >= 8
  }

  lemma SegmentRaises(fail: bv32, plan: seq<PlanEntry>, g: Segment, size: u32, k: bv32)
    ensures Has(RaiseSegmentFaults(fail, plan, g, size), k) <==>
            || Has(fail, k)
            || (!Keeps(g) && Has(FAIL_SEGMENT_BOUNDS, k))
            || (Keeps(g) && g.fileoff + g.filesize > size && Has(FAIL_SEGMENT_EXTENT, k))
            || (Keeps(g) && g.vmsize != 0 && |plan| >= 8 && Has(FAIL_LOAD_PLAN_FULL, k))
  {
    hide Raise, Has, Flag;
    var x := Flag(RangeEscapes(g.fileoff, g.filesize, size), FAIL_SEGMENT_EXTENT);
    FlagHas(RangeEscapes(g.fileoff, g.filesize, size), FAIL_SEGMENT_EXTENT, k);
    FlagHas(PlanFull(plan, g), FAIL_LOAD_PLAN_FULL, k);
    RaiseHas(fail, FAIL_SEGMENT_BOUNDS, k);
    RaiseHas(fail, x, k);
    RaiseHas(Raise(fail, x), Flag(PlanFull(plan, g), FAIL_LOAD_PLAN_FULL), k);
  }

  lemma SegmentCommandRaises(f: Facts, b: seq<byte>, size: u32, o: nat, k: bv32)
    requires CommandIn(b, o) && IsSegment(b, o)
    ensures Has(ApplySegment(f, b, size, o).fail, k) <==>
            Has(f.fail, k) || CommandRaises(b, o, size, PlanOverflows(f.segs.plan, b, o), k)
  {
    hide Raise, Has, Flag, CountSegment, RaiseSegmentFaults, SegmentAt, RecordSections, OneOut;
    var g := SegmentAt(b, o);
    SegmentRaises(f.fail, f.segs.plan, g, size, k);
    var f1 := RecordSegment(f, size, g);
    if SectionTableFits(g.nsects, CmdSize(b, o)) {
      TableRaises(f1, b, size, g, o + 56, g.nsects, k);
    } else {
      RaiseHas(f1.fail, FAIL_SECTION_BOUNDS, k);
    }
  }

  lemma OtherCommandRaises(fail: bv32, b: seq<byte>, size: u32, o: nat, k: bv32)
    requires CommandIn(b, o) && !IsSegment(b, o)
    ensures Has(Raise(fail, CommandFault(b, o, size)), k) <==> Has(fail, k) || CommandRaises(b, o, size, false, k)
  {
    hide Has, Flag, Le32;
    var x, y := Flag(SegmentTooShort(b, o), FAIL_COMMAND_SIZE), Flag(SymtabFaulty(b, o, size), FAIL_SEGMENT_EXTENT);
    FlagHas(SegmentTooShort(b, o), FAIL_COMMAND_SIZE, k);
    FlagHas(SymtabFaulty(b, o, size), FAIL_SEGMENT_EXTENT, k);
    RaiseHas(x, y, k);
    RaiseHas(fail, CommandFault(b, o, size), k);
    assert Raise(x, y) == CommandFault(b, o, size);
  }

  lemma OneCommandRaises(f: Facts, b: seq<byte>, size: u32, o: nat, k: bv32)
    requires CommandIn(b, o)
    ensures Has(ApplyCommand(f, b, size, o).fail, k) <==>
            Has(f.fail, k) || CommandRaises(b, o, size, PlanOverflows(f.segs.plan, b, o), k)
  {
    hide Raise, Has, Flag, CountCommand, ApplySegment, CommandFault, CommandRaises, SegmentAt;
    var f1 := f.(cmds := CountCommand(f.cmds, b, o));
    if IsSegment(b, o) {
      SegmentCommandRaises(f1, b, size, o, k);
    } else {
      OtherCommandRaises(f1.fail, b, size, o, k);
    }
  }

  // ----- and with any list of them -----

  ghost predicate SomeRaises(b: seq<byte>, offs: seq<nat>, size: u32, k: bv32)
    requires AllIn(b, offs)
  {
    exists o :: o in offs && CommandRaises(b, o, size, false, k)
  }

  lemma RaisesWithFull(b: seq<byte>, o: nat, size: u32, full: bool, k: bv32)
    requires CommandIn(b, o)
    ensures CommandRaises(b, o, size, full, k) <==>
            CommandRaises(b, o, size, false, k) || (full && Has(FAIL_LOAD_PLAN_FULL, k))
  {
    hide ShortAt, WrapsAt, EscapesAt, TableOut, Has;
  }

  lemma PlanGrows(f: Facts, b: seq<byte>, size: u32, o: nat)
    requires CommandIn(b, o) && |f.segs.plan| <= 8
    ensures var plan, plan' := f.segs.plan, ApplyCommand(f, b, size, o).segs.plan;
            |plan'| == if IsSegment(b, o) && Keeps(SegmentAt(b, o)) && SegmentAt(b, o).vmsize != 0 && |plan| < 8
                       then |plan| + 1 else |plan|
  {
    hide Raise, Has, CountSegment, CountCommand, CommandSound, ApplyCommand, SegmentAt, SegmentMask, NewEntry, Keeps;
    ApplyEffect(f, b, size, o);
    if IsSegment(b, o) {
      CountedAs(f.segs, SegmentAt(b, o));
    }
  }

  lemma PlannableStep(b: seq<byte>, offs: seq<nat>)
    requires AllIn(b, offs) && offs != []
    ensures var o := offs[0];
            |Plannable(Segments(b, offs))| ==
            |Plannable(Segments(b, offs[1..]))| +
            if IsSegment(b, o) && Keeps(SegmentAt(b, o)) && SegmentAt(b, o).vmsize != 0 then 1 else 0
  {
    hide SegmentAt, Keeps;
    var o, rest := offs[0], Segments(b, offs[1..]);
    if IsSegment(b, o) {
      assert ([SegmentAt(b, o)] + rest)[1..] == rest;
    } else {
      assert [] + rest == rest;
    }
  }

  /** For every flag: the loop raises it exactly when it is one that some command raises on its own, or the
      plan-full flag and the plannable segments are too many. */
  lemma {:induction false} LoopRaises(f: Facts, b: seq<byte>, size: u32, offs: seq<nat>, k: bv32)
    requires AllIn(b, offs) && |f.segs.plan| <= 8
    ensures Has(Fold(f, b, size, offs).fail, k) <==>
            || Has(f.fail, k) || SomeRaises(b, offs, size, k)
            || (|f.segs.plan| + |Plannable(Segments(b, offs))| > 8 && Has(FAIL_LOAD_PLAN_FULL, k))
    decreases |offs|
  {
    hide Raise, Has, ApplyCommand, CommandRaises, Segments, Plannable, Keeps, SegmentAt, IsSegment;
    if offs == [] {
      NothingToPlanFor(b);
    } else {
      var o := offs[0];
      assert offs == [o] + offs[1..];
      OneCommandRaises(f, b, size, o, k);
      RaisesWithFull(b, o, size, PlanOverflows(f.segs.plan, b, o), k);
      PlanGrows(f, b, size, o);
      PlannableStep(b, offs);
      LoopRaises(ApplyCommand(f, b, size, o), b, size, offs[1..], k);
    }
  }

  lemma NothingToPlanFor(b: seq<byte>)
    ensures |Plannable(Segments(b, []))| == 0
  {
  }

  // ----- the kinds of commands -----

  predicate UnknownAt(b: seq<byte>, o: nat)
    requires CommandIn(b, o)
  {
    Cmd(b, o) != 1 && Cmd(b, o) != 2 && Cmd(b, o) != 5 && Cmd(b, o) != 0x8000_0028
  }

  predicate KindShows(b: seq<byte>, o: nat, k: bv32)
    requires CommandIn(b, o)
  {
    || (Cmd(b, o) == 1 && CmdSize(b, o) >= 56 && Has(0x1, k))
    || (Cmd(b, o) == 2 && Has(0x2, k)) || (Cmd(b, o) == 5 && Has(0x4, k))
    || (Cmd(b, o) == 0x8000_0028 && Has(0x8, k)) || (UnknownAt(b, o) && Has(0x9000_0000, k))
  }

  predicate EntryShows(b: seq<byte>, o: nat, k: bv32)
    requires CommandIn(b, o)
  {
    (Cmd(b, o) == 5 && Has(0x1, k)) || (Cmd(b, o) == 0x8000_0028 && Has(0x2, k))
  }

  /** A thread command long enough to hold its first word. */
  predicate ThreadAt(b: seq<byte>, o: nat)
    requires CommandIn(b, o)
  {
    Cmd(b, o) == 5 && CmdSize(b, o) >= 16
  }

  /** That word: the entry address. */
  function EntryWord(b: seq<byte>, o: nat): u32
    requires CommandIn(b, o) && ThreadAt(b, o)
  {
    Le32(b, o + 12)
  }

  function Unknowns(b: seq<byte>, offs: seq<nat>): nat
    requires AllIn(b, offs)
  {
    if offs == [] then 0 else (if UnknownAt(b, offs[0]) then 1 else 0) + Unknowns(b, offs[1..])
  }

  lemma CountedCommand(c: CommandFacts, b: seq<byte>, o: nat, k: bv32)
    requires CommandIn(b, o)
    ensures var r := CountCommand(c, b, o);
            && r.count == Wrap(c.count + 1)
            && (Has(r.mask, k) <==> Has(c.mask, k) || KindShows(b, o, k))
            && (Has(r.entryKind, k) <==> Has(c.entryKind, k) || EntryShows(b, o, k))
            && r.unknown == (if UnknownAt(b, o) then Wrap(c.unknown + 1) else c.unknown)
            && r.entryPc == if ThreadAt(b, o) then EntryWord(b, o) else c.entryPc
  {
    NotedNumbers(c, b, o);
    NotedKind(c, b, o, k);
    NotedEntry(c, b, o, k);
  }

  lemma NotedNumbers(c: CommandFacts, b: seq<byte>, o: nat)
    requires CommandIn(b, o)
    ensures var r := CountCommand(c, b, o);
            && r.count == Wrap(c.count + 1)
            && r.unknown == (if UnknownAt(b, o) then Wrap(c.unknown + 1) else c.unknown)
            && r.entryPc == if ThreadAt(b, o) then EntryWord(b, o) else c.entryPc
  {
    hide Raise, Le32, Wrap;
  }

  lemma NotedKind(c: CommandFacts, b: seq<byte>, o: nat, k: bv32)
    requires CommandIn(b, o)
    ensures Has(CountCommand(c, b, o).mask, k) <==> Has(c.mask, k) || KindShows(b, o, k)
  {
    hide Raise, Has, Le32, Inc32, Cmd, CmdSize;
    RaiseHas(c.mask, CMD_SEGMENT, k);
    RaiseHas(c.mask, CMD_SYMTAB, k);
    RaiseHas(c.mask, CMD_UNIXTHREAD, k);
    RaiseHas(c.mask, CMD_MAIN, k);
    RaiseHas(c.mask, CMD_UNKNOWN, k);
  }

  lemma NotedEntry(c: CommandFacts, b: seq<byte>, o: nat, k: bv32)
    requires CommandIn(b, o)
    ensures Has(CountCommand(c, b, o).entryKind, k) <==> Has(c.entryKind, k) || EntryShows(b, o, k)
  {
    hide Raise, Has, Le32, Inc32;
    RaiseHas(c.entryKind, ENTRY_UNIXTHREAD, k);
    RaiseHas(c.entryKind, ENTRY_MAIN, k);
  }

  ghost predicate SomeKind(b: seq<byte>, offs: seq<nat>, k: bv32)
    requires AllIn(b, offs)
  {
    exists o :: o in offs && KindShows(b, o, k)
  }

  ghost predicate SomeEntry(b: seq<byte>, offs: seq<nat>, k: bv32)
    requires AllIn(b, offs)
  {
    exists o :: o in offs && EntryShows(b, o, k)
  }

  predicate LastThread(b: seq<byte>, offs: seq<nat>, p: nat)
    requires AllIn(b, offs)
  {
    p < |offs| && ThreadAt(b, offs[p]) && forall q :: p < q < |offs| ==> !ThreadAt(b, offs[q])
  }

  predicate NoThread(b: seq<byte>, offs: seq<nat>)
    requires AllIn(b, offs)
  {
    forall p :: 0 <= p < |offs| ==> !ThreadAt(b, offs[p])
  }

  /** The entry address is that of the last long enough thread command. */
  predicate IsLastEntry(pc: u32, before: u32, b: seq<byte>, offs: seq<nat>)
    requires AllIn(b, offs)
  {
    && (forall p: nat :: p < |offs| && LastThread(b, offs, p) ==> pc == EntryWord(b, offs[p]))
    && (NoThread(b, offs) ==> pc == before)
  }

  lemma EntryStep(pc: u32, before: u32, mid: u32, b: seq<byte>, offs: seq<nat>)
    requires AllIn(b, offs) && offs != []
    requires mid == if ThreadAt(b, offs[0]) then EntryWord(b, offs[0]) else before
    requires IsLastEntry(pc, mid, b, offs[1..])
    ensures IsLastEntry(pc, before, b, offs)
  {
    hide ThreadAt, EntryWord;
    var rest := offs[1..];
    assert forall q :: 0 < q < |offs| ==> offs[q] == rest[q - 1];
    forall p: nat | p < |offs| && LastThread(b, offs, p)
      ensures pc == EntryWord(b, offs[p])
    {
      forall q | p <= q < |rest|
        ensures !ThreadAt(b, rest[q])
      {
        assert !ThreadAt(b, offs[q + 1]);
      }
      if p > 0 {
        assert LastThread(b, rest, p - 1);
      }
    }
    if NoThread(b, offs) {
      assert !ThreadAt(b, offs[0]);
      forall q | 0 <= q < |rest|
        ensures !ThreadAt(b, rest[q])
      {
        assert !ThreadAt(b, offs[q + 1]);
      }
    }
  }

  /** The command totals after any list of commands. */
  lemma {:induction false} LoopNotes(f: Facts, b: seq<byte>, size: u32, offs: seq<nat>, k: bv32)
    requires AllIn(b, offs)
    ensures var c := Fold(f, b, size, offs).cmds;
            && c.count == Wrap(f.cmds.count + |offs|)
            && c.unknown == Wrap(f.cmds.unknown + Unknowns(b, offs))
            && (Has(c.mask, k) <==> Has(f.cmds.mask, k) || SomeKind(b, offs, k))
            && (Has(c.entryKind, k) <==> Has(f.cmds.entryKind, k) || SomeEntry(b, offs, k))
            && IsLastEntry(c.entryPc, f.cmds.entryPc, b, offs)
    decreases |offs|
  {
    hide Raise, Has, ApplyCommand, CountCommand, CountSegment, CommandSound, IsSegment, SegmentAt, KindShows,
         EntryShows, ThreadAt, UnknownAt, IsLastEntry, Wrap;
    WordWraps(f.cmds.count);
    WordWraps(f.cmds.unknown);
    if offs == [] {
      NoEntry(f.cmds.entryPc, b);
    } else {
      var o, f1 := offs[0], ApplyCommand(f, b, size, offs[0]);
      assert offs == [o] + offs[1..];
      ApplyEffect(f, b, size, o);
      CountedCommand(f.cmds, b, o, k);
      LoopNotes(f1, b, size, offs[1..], k);
      WrapSum(f.cmds.count + 1, |offs| - 1);
      WrapSum(f.cmds.unknown + 1, Unknowns(b, offs[1..]));
      EntryStep(Fold(f, b, size, offs).cmds.entryPc, f.cmds.entryPc, f1.cmds.entryPc, b, offs);
    }
  }

  lemma NoEntry(pc: u32, b: seq<byte>)
    ensures IsLastEntry(pc, pc, b, [])
  {
  }

  // ----- the furthest end of a file range -----

  /** The command names a file range that ends, in wrapped arithmetic, at `x`. */
  ghost predicate NamesEnd(b: seq<byte>, o: nat, x: u32)
    requires CommandIn(b, o)
  {
    || (IsSegment(b, o) && OwnEndIs(SegmentAt(b, o), x))
    || SectionEnds(SectionsOf(b, o), x)
  }

  ghost predicate SectionEnds(ss: seq<Section>, x: u32) {
    exists s :: s in ss && s.size > 0 && s.offset > 0 && x == Wrap(s.offset + s.size)
  }

  /** The greatest of `before` and the ends. */
  ghost predicate IsFurthest(m: u32, before: u32, ends: iset<u32>) {
    m >= before && (forall x :: x in ends ==> x <= m) && (m == before || m in ends)
  }

  ghost function EndsOf(ss: seq<Section>): iset<u32> {
    iset x: u32 | SectionEnds(ss, x)
  }

  ghost function EndsAt(b: seq<byte>, o: nat): iset<u32>
    requires CommandIn(b, o)
  {
    iset x: u32 | NamesEnd(b, o, x)
  }

  ghost function AllEnds(b: seq<byte>, offs: seq<nat>): iset<u32>
    requires AllIn(b, offs)
  {
    iset x: u32 | SomeNamesEnd(b, offs, x)
  }

  ghost predicate SomeNamesEnd(b: seq<byte>, offs: seq<nat>, x: u32)
    requires AllIn(b, offs)
  {
    exists o :: o in offs && NamesEnd(b, o, x)
  }

  lemma FurthestJoins(m: u32, mid: u32, before: u32, xs: iset<u32>, ys: iset<u32>)
    requires IsFurthest(mid, before, xs) && IsFurthest(m, mid, ys)
    ensures IsFurthest(m, before, xs + ys)
  {
  }

  lemma {:induction false} TableEnds(f: Facts, b: seq<byte>, size: u32, g: Segment, o: nat, n: nat)
    requires o + n * 68 <= |b|
    ensures IsFurthest(RecordSections(f, b, size, g, o, n).maxExtent, f.maxExtent, EndsOf(Table(b, o, n)))
    decreases n
  {
    hide CountSection, SectionAt, SectionFaulty, Raise, IsFurthest, Wrap, Flag;
    if n == 0 {
      FurthestOfNone(f.maxExtent, EndsOf(Table(b, o, 0)));
    } else {
      var s := SectionAt(b, o);
      var f1 := RecordSection(f, size, g, s);
      SectionMoves(f, size, g, s);
      TableEnds(f1, b, size, g, o + 68, n - 1);
      var m := RecordSections(f, b, size, g, o, n).maxExtent;
      FurthestJoins(m, f1.maxExtent, f.maxExtent, EndsOf([s]), EndsOf(Table(b, o + 68, n - 1)));
      EndsJoin([s], Table(b, o + 68, n - 1));
    }
  }

  lemma FurthestOfNone(m: u32, ends: iset<u32>)
    requires forall x :: x !in ends
    ensures IsFurthest(m, m, ends)
  {
  }

  lemma EndsJoin(xs: seq<Section>, ys: seq<Section>)
    ensures EndsOf(xs + ys) == EndsOf(xs) + EndsOf(ys)
  {
    hide Wrap;
    forall x: u32
      ensures SectionEnds(xs + ys, x) <==> SectionEnds(xs, x) || SectionEnds(ys, x)
    {
    }
  }

  lemma SectionMoves(f: Facts, size: u32, g: Segment, s: Section)
    requires |s.name| == |s.segment| == 16
    ensures IsFurthest(RecordSection(f, size, g, s).maxExtent, f.maxExtent, EndsOf([s]))
  {
    hide CountSection, SectionFaulty, Raise, Wrap, Flag;
    var x := Wrap(s.offset + s.size);
    assert s in [s];
    assert s.size > 0 && s.offset > 0 ==> SectionEnds([s], x);
    assert forall y: u32 :: SectionEnds([s], y) ==> s.size > 0 && s.offset > 0 && y == x;
  }

  lemma SegmentMoves(f: Facts, size: u32, g: Segment)
    requires |g.name| == 16
    ensures RecordSegment(f, size, g).maxExtent ==
            if Keeps(g) then Max32(f.maxExtent, Wrap(g.fileoff + g.filesize)) else f.maxExtent
  {
    hide CountSegment, RaiseSegmentFaults, Raise;
  }

  lemma CommandMoves(f: Facts, b: seq<byte>, size: u32, o: nat)
    requires CommandIn(b, o)
    ensures IsFurthest(ApplyCommand(f, b, size, o).maxExtent, f.maxExtent, EndsAt(b, o))
  {
    hide Raise, CountCommand, CommandFault, ApplySegment, IsFurthest, EndsAt, IsSegment;
    if IsSegment(b, o) {
      SegmentCommandMoves(f.(cmds := CountCommand(f.cmds, b, o)), b, size, o);
    } else {
      NoEnds(f.maxExtent, b, o);
    }
  }

  lemma NoEnds(m: u32, b: seq<byte>, o: nat)
    requires CommandIn(b, o) && !IsSegment(b, o)
    ensures IsFurthest(m, m, EndsAt(b, o))
  {
    hide SectionsOf, IsSegment;
    NoTableNoSections(b, o);
  }

  lemma SegmentCommandMoves(f: Facts, b: seq<byte>, size: u32, o: nat)
    requires CommandIn(b, o) && IsSegment(b, o)
    ensures IsFurthest(ApplySegment(f, b, size, o).maxExtent, f.maxExtent, EndsAt(b, o))
  {
    hide Raise, SegmentAt, RecordSections, RecordSegment, SectionsOf, Keeps, IsFurthest, EndsAt, EndsOf;
    var g := SegmentAt(b, o);
    var f1 := RecordSegment(f, size, g);
    SegmentMoves(f, size, g);
    TableMoves(f1, b, size, o);
    OwnEnd(f1.maxExtent, f.maxExtent, g);
    FurthestJoins(ApplySegment(f, b, size, o).maxExtent, f1.maxExtent, f.maxExtent, OwnEnds(g),
                  EndsOf(SectionsOf(b, o)));
    EndsAreBoth(b, o);
  }

  /** The end of the segment's own file range. */
  ghost function OwnEnds(g: Segment): iset<u32> {
    iset x: u32 | OwnEndIs(g, x)
  }

  predicate OwnEndIs(g: Segment, x: u32) {
    Keeps(g) && x == Wrap(g.fileoff + g.filesize)
  }

  lemma OwnEnd(m: u32, before: u32, g: Segment)
    requires m == if Keeps(g) then Max32(before, Wrap(g.fileoff + g.filesize)) else before
    ensures IsFurthest(m, before, OwnEnds(g))
  {
    hide Wrap, Keeps;
  }

  lemma EndsAreBoth(b: seq<byte>, o: nat)
    requires CommandIn(b, o) && IsSegment(b, o)
    ensures EndsAt(b, o) == OwnEnds(SegmentAt(b, o)) + EndsOf(SectionsOf(b, o))
  {
    hide OwnEndIs, SectionsOf, SegmentAt, SectionEnds;
  }

  lemma NoTableNoSections(b: seq<byte>, o: nat)
    requires CommandIn(b, o) && !IsSegment(b, o)
    ensures SectionsOf(b, o) == []
  {
  }

  lemma TableMoves(f: Facts, b: seq<byte>, size: u32, o: nat)
    requires CommandIn(b, o) && IsSegment(b, o)
    ensures var g := SegmentAt(b, o);
            var r := if SectionTableFits(g.nsects, CmdSize(b, o))
                     then RecordSections(f, b, size, g, o + 56, g.nsects).maxExtent else f.maxExtent;
            IsFurthest(r, f.maxExtent, EndsOf(SectionsOf(b, o)))
  {
    hide Raise, SegmentAt, RecordSections, Wrap, IsFurthest;
    var g := SegmentAt(b, o);
    if SectionTableFits(g.nsects, CmdSize(b, o)) {
      TableEnds(f, b, size, g, o + 56, g.nsects);
    } else {
      FurthestOfNone(f.maxExtent, EndsOf([]));
    }
  }

  /** The recorded extent is the greatest of all those ends. */
  lemma {:induction false} LoopMoves(f: Facts, b: seq<byte>, size: u32, offs: seq<nat>)
    requires AllIn(b, offs)
    ensures IsFurthest(Fold(f, b, size, offs).maxExtent, f.maxExtent, AllEnds(b, offs))
    decreases |offs|
  {
    hide ApplyCommand, NamesEnd, IsFurthest;
    if offs == [] {
      FurthestOfNone(f.maxExtent, AllEnds(b, []));
    } else {
      var f1 := ApplyCommand(f, b, size, offs[0]);
      CommandMoves(f, b, size, offs[0]);
      LoopMoves(f1, b, size, offs[1..]);
      FurthestJoins(Fold(f, b, size, offs).maxExtent, f1.maxExtent, f.maxExtent, EndsAt(b, offs[0]),
                    AllEnds(b, offs[1..]));
      assert offs == [offs[0]] + offs[1..];
      assert AllEnds(b, offs) == EndsAt(b, offs[0]) + AllEnds(b, offs[1..]);
    }
  }
}
