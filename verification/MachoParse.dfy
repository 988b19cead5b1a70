/** What the parser's loops accumulate, in terms of the layout: the walk is a fold over the unique
    tiling, and the fold's facts are those of the segments, sections and entry commands in it. */
module MachoParse {
  import opened Words
  import opened Masks
  import opened MachoFormat
  import opened MachoSpec
  import opened MachoLayout

  // ----- one section table -----

  lemma SectionStep(f: Facts, b: seq<byte>, size: u32, g: Segment, o: nat)
    requires o + 68 <= |b|
    ensures var r := RecordSection(f, size, g, SectionAt(b, o));
            && r.cmds == f.cmds && r.segs == f.segs && r.valid == f.valid
            && (r.fail == 0 <==> f.fail == 0 && SectionSound(b, g, o, size))
            && r.sects.mask == Raise(f.sects.mask, SectionMask(SectionAt(b, o)))
  {
    hide Raise, Has, SectionMask, SectionAt;
    RaiseNothing(f.fail, Flag(SectionFaulty(g, SectionAt(b, o), size), FAIL_SECTION_BOUNDS));
  }

  lemma {:induction false} SectionsEffect(f: Facts, b: seq<byte>, size: u32, g: Segment, o: nat, n: nat)
    requires o + n * 68 <= |b|
    ensures var r := RecordSections(f, b, size, g, o, n);
            && r.cmds == f.cmds && r.segs == f.segs && r.valid == f.valid
            && (r.fail == 0 <==> f.fail == 0 && TableSound(b, g, o, n, size))
    decreases n
  {
    hide Raise, Has, RecordSection, SectionSound, TableSound;
    TableStep(b, g, o, n, size);
    if n > 0 {
      SectionStep(f, b, size, g, o);
      SectionsEffect(RecordSection(f, size, g, SectionAt(b, o)), b, size, g, o + 68, n - 1);
    }
  }

  lemma TableStep(b: seq<byte>, g: Segment, o: nat, n: nat, size: u32)
    ensures TableSound(b, g, o, n, size) <==>
            n == 0 || (SectionSound(b, g, o, size) && TableSound(b, g, o + 68, n - 1, size))
  {
    hide SectionSound;
    if n == 0 {
    } else if TableSound(b, g, o, n, size) {
      assert SectionSound(b, g, o + 0 * 68, size);
      forall i: nat | i < n - 1
        ensures SectionSound(b, g, o + 68 + i * 68, size)
      {
        assert SectionSound(b, g, o + (i + 1) * 68, size);
      }
    } else {
      var i: nat :| i < n && !SectionSound(b, g, o + i * 68, size);
      if i > 0 {
        assert !SectionSound(b, g, o + 68 + (i - 1) * 68, size);
      }
    }
  }

  ghost predicate TableHas(b: seq<byte>, o: nat, n: nat, bit: bv32)
    requires o + n * 68 <= |b|
  {
    exists i: nat :: i < n && Has(SectionMask(SectionAt(b, o + i * 68)), bit)
  }

  lemma TableHasStep(b: seq<byte>, o: nat, n: nat, bit: bv32)
    requires o + n * 68 <= |b| && n > 0
    ensures TableHas(b, o, n, bit) <==> Has(SectionMask(SectionAt(b, o)), bit) || TableHas(b, o + 68, n - 1, bit)
  {
    hide Has, SectionMask, SectionAt;
    if TableHas(b, o, n, bit) {
      var i: nat :| i < n && Has(SectionMask(SectionAt(b, o + i * 68)), bit);
      if i > 0 {
        assert Has(SectionMask(SectionAt(b, o + 68 + (i - 1) * 68)), bit);
      }
    }
    if Has(SectionMask(SectionAt(b, o)), bit) {
      assert Has(SectionMask(SectionAt(b, o + 0 * 68)), bit);
    }
    if TableHas(b, o + 68, n - 1, bit) {
      var i: nat :| i < n - 1 && Has(SectionMask(SectionAt(b, o + 68 + i * 68)), bit);
      assert Has(SectionMask(SectionAt(b, o + (i + 1) * 68)), bit);
    }
  }

  lemma {:induction false} SectionsMask(f: Facts, b: seq<byte>, size: u32, g: Segment, o: nat, n: nat, bit: bv32)
    requires o + n * 68 <= |b|
    ensures Has(RecordSections(f, b, size, g, o, n).sects.mask, bit) <==>
            Has(f.sects.mask, bit) || TableHas(b, o, n, bit)
    decreases n
  {
    hide Raise, Has, RecordSection, SectionMask, SectionAt, TableHas;
    if n == 0 {
      EmptyTable(b, o, bit);
    } else {
      SectionStep(f, b, size, g, o);
      TableHasStep(b, o, n, bit);
      RaiseHas(f.sects.mask, SectionMask(SectionAt(b, o)), bit);
      SectionsMask(RecordSection(f, size, g, SectionAt(b, o)), b, size, g, o + 68, n - 1, bit);
    }
  }

  lemma EmptyTable(b: seq<byte>, o: nat, bit: bv32)
    requires o <= |b|
    ensures !TableHas(b, o, 0, bit)
  {
  }

  // ----- one command -----

  predicate Overfills(plan: seq<PlanEntry>, b: seq<byte>, o: nat)
    requires CommandIn(b, o)
  {
    IsSegment(b, o) && PlanFull(plan, SegmentAt(b, o))
  }

  lemma SegmentFaultMeaning(fail: bv32, plan: seq<PlanEntry>, g: Segment, size: u32)
    ensures RaiseSegmentFaults(fail, plan, g, size) == 0 <==>
            && fail == 0
            && g.vmaddr + g.vmsize < TWO32 && g.fileoff + g.filesize <= size && !PlanFull(plan, g)
  {
    hide Raise, PlanFull;
    var x := Flag(RangeEscapes(g.fileoff, g.filesize, size), FAIL_SEGMENT_EXTENT);
    RaiseNothing(fail, FAIL_SEGMENT_BOUNDS);
    RaiseNothing(fail, x);
    RaiseNothing(Raise(fail, x), Flag(PlanFull(plan, g), FAIL_LOAD_PLAN_FULL));
  }

  lemma ApplySegmentEffect(f: Facts, b: seq<byte>, size: u32, o: nat)
    requires CommandIn(b, o) && IsSegment(b, o)
    ensures var r := ApplySegment(f, b, size, o);
            && r.cmds == f.cmds
            && r.segs == CountSegment(f.segs, SegmentAt(b, o))
            && (r.fail == 0 <==> f.fail == 0 && SegmentSound(b, o, size) && !Overfills(f.segs.plan, b, o))
            && r.valid == Raise(f.valid, VALID_SEGMENT_COMMAND)
  {
    hide Raise, Has, CountSegment, RaiseSegmentFaults, TableSound;
    var g := SegmentAt(b, o);
    SegmentFaultMeaning(f.fail, f.segs.plan, g, size);
    if SectionTableFits(g.nsects, CmdSize(b, o)) {
      SectionsEffect(RecordSegment(f, size, g), b, size, g, o + 56, g.nsects);
    } else {
      RaiseNothing(RecordSegment(f, size, g).fail, FAIL_SECTION_BOUNDS);
    }
  }

  lemma ApplyEffect(f: Facts, b: seq<byte>, size: u32, o: nat)
    requires CommandIn(b, o)
    ensures var r := ApplyCommand(f, b, size, o);
            && r.cmds == CountCommand(f.cmds, b, o)
            && r.segs == (if IsSegment(b, o) then CountSegment(f.segs, SegmentAt(b, o)) else f.segs)
            && (r.fail == 0 <==> f.fail == 0 && CommandSound(b, o, size) && !Overfills(f.segs.plan, b, o))
            && r.valid == (if IsSegment(b, o) then Raise(f.valid, VALID_SEGMENT_COMMAND) else f.valid)
  {
    hide Raise, Has, CountSegment, SegmentSound, ApplySegment, CountCommand;
    if IsSegment(b, o) {
      ApplySegmentEffect(f.(cmds := CountCommand(f.cmds, b, o)), b, size, o);
    } else {
      RaiseNothing(f.fail, CommandFault(b, o, size));
    }
  }

  lemma ApplySectionMask(f: Facts, b: seq<byte>, size: u32, o: nat, bit: bv32)
    requires CommandIn(b, o)
    ensures Has(ApplyCommand(f, b, size, o).sects.mask, bit) <==>
            Has(f.sects.mask, bit) || exists i: nat :: SectionNamed(b, o, i, bit)
  {
    hide Raise, Has, CountSegment, RaiseSegmentFaults, CountCommand, SectionMask, SymtabFaulty;
    var f1 := f.(cmds := CountCommand(f.cmds, b, o));
    if IsSegment(b, o) {
      var g := SegmentAt(b, o);
      if SectionTableFits(g.nsects, CmdSize(b, o)) {
        SectionsMask(RecordSegment(f1, size, g), b, size, g, o + 56, g.nsects, bit);
        if TableHas(b, o + 56, g.nsects, bit) {
          var i: nat :| i < g.nsects && Has(SectionMask(SectionAt(b, o + 56 + i * 68)), bit);
          assert SectionNamed(b, o, i, bit);
        }
      }
    }
  }

  // ----- the walk is a fold over the tiling -----

  function Fold(f: Facts, b: seq<byte>, size: u32, offs: seq<nat>): Facts
    requires AllIn(b, offs)
    decreases |offs|
  {
    if offs == [] then f else Fold(ApplyCommand(f, b, size, offs[0]), b, size, offs[1..])
  }

  lemma {:induction false} WalkTiled(f: Facts, b: seq<byte>, size: u32, o: nat, end: u32, n: nat, offs: seq<nat>)
    requires o <= end <= |b| && Tiling(b, offs, o, end) && |offs| <= n
    ensures AllIn(b, offs)
    ensures Walk(f, b, size, o, end, n) == (Fold(f, b, size, offs), end)
    decreases |offs|
  {
    hide Raise, Has, ApplyCommand;
    TilingIn(b, offs, o, end);
    if offs != [] {
      WalkTiled(ApplyCommand(f, b, size, o), b, size, o + CmdSize(b, o), end, n - 1, offs[1..]);
    }
  }

  /** A walk that raises nothing and reaches the end has read a tiling. */
  lemma {:induction false} WalkFindsTiling(f: Facts, b: seq<byte>, size: u32, o: nat, end: u32, n: nat)
    returns (offs: seq<nat>)
    requires o <= end <= |b|
    requires Walk(f, b, size, o, end, n).0.fail == 0 && Walk(f, b, size, o, end, n).1 == end
    ensures Tiling(b, offs, o, end) && |offs| <= n
    decreases n
  {
    hide Raise, Has, ApplyCommand;
    if n == 0 || o >= end {
      offs := [];
    } else {
      RaiseNothing(f.fail, FAIL_COMMAND_BOUNDS);
      RaiseNothing(f.fail, FAIL_COMMAND_SIZE);
      var rest := WalkFindsTiling(ApplyCommand(f, b, size, o), b, size, o + CmdSize(b, o), end, n - 1);
      offs := [o] + rest;
      assert offs[1..] == rest;
    }
  }

  // ----- what the fold knows -----

  function FoldSegments(t: SegmentFacts, gs: seq<Segment>): SegmentFacts
    requires forall g :: g in gs ==> |g.name| == 16
    decreases |gs|
  {
    if gs == [] then t else FoldSegments(CountSegment(t, gs[0]), gs[1..])
  }

  lemma {:induction false} FoldsSegments(f: Facts, b: seq<byte>, size: u32, offs: seq<nat>)
    requires AllIn(b, offs)
    ensures Fold(f, b, size, offs).segs == FoldSegments(f.segs, Segments(b, offs))
    decreases |offs|
  {
    hide Raise, Has, ApplyCommand, CountSegment, CommandSound, SegmentAt;
    if offs != [] {
      ApplyEffect(f, b, size, offs[0]);
      FoldsSegments(ApplyCommand(f, b, size, offs[0]), b, size, offs[1..]);
      var rest := Segments(b, offs[1..]);
      if IsSegment(b, offs[0]) {
        assert ([SegmentAt(b, offs[0])] + rest)[1..] == rest;
      } else {
        assert [] + rest == rest;
      }
    }
  }

  lemma {:induction false} FoldCounts(f: Facts, b: seq<byte>, size: u32, offs: seq<nat>)
    requires AllIn(b, offs)
    ensures Fold(f, b, size, offs).cmds.count == Wrap(f.cmds.count + |offs|)
    decreases |offs|
  {
    hide Raise, Has, ApplyCommand, CountSegment, CommandSound, IsSegment, SegmentAt, CountCommand, Wrap;
    if offs == [] {
      WordWraps(f.cmds.count);
    } else {
      ApplyEffect(f, b, size, offs[0]);
      CountsOne(f.cmds, b, offs[0]);
      FoldCounts(ApplyCommand(f, b, size, offs[0]), b, size, offs[1..]);
      WrapSum(f.cmds.count + 1, |offs| - 1);
    }
  }

  lemma WordWraps(n: u32)
    ensures Wrap(n) == n
  {
  }

  lemma CountsOne(c: CommandFacts, b: seq<byte>, o: nat)
    requires CommandIn(b, o)
    ensures CountCommand(c, b, o).count == Wrap(c.count + 1)
  {
    hide Raise, Le32;
  }

  lemma CountEntry(c: CommandFacts, b: seq<byte>, o: nat)
    requires CommandIn(b, o)
    ensures Has(CountCommand(c, b, o).entryKind, ENTRY_ANY) <==>
            Has(c.entryKind, ENTRY_ANY) || IsEntryCommand(b, o)
  {
    hide Raise;
    assert Has(ENTRY_UNIXTHREAD, ENTRY_ANY) && Has(ENTRY_MAIN, ENTRY_ANY);
    RaiseHas(c.entryKind, ENTRY_UNIXTHREAD, ENTRY_ANY);
    RaiseHas(c.entryKind, ENTRY_MAIN, ENTRY_ANY);
  }

  lemma {:induction false} FoldEntry(f: Facts, b: seq<byte>, size: u32, offs: seq<nat>)
    requires AllIn(b, offs)
    ensures HasEntry(Fold(f, b, size, offs)) <==> HasEntry(f) || HasEntryCommand(b, offs)
    decreases |offs|
  {
    hide Raise, Has, ApplyCommand, CountCommand, CountSegment, CommandSound, SegmentAt, IsEntryCommand;
    if offs != [] {
      ApplyEffect(f, b, size, offs[0]);
      CountEntry(f.cmds, b, offs[0]);
      FoldEntry(ApplyCommand(f, b, size, offs[0]), b, size, offs[1..]);
      assert offs == [offs[0]] + offs[1..];
      assert forall o :: o in offs <==> o == offs[0] || o in offs[1..];
    }
  }

  lemma {:induction false} FoldSectionMask(f: Facts, b: seq<byte>, size: u32, offs: seq<nat>, bit: bv32)
    requires AllIn(b, offs)
    ensures Has(Fold(f, b, size, offs).sects.mask, bit) <==>
            Has(f.sects.mask, bit) || HasSection(b, offs, bit)
    decreases |offs|
  {
    hide Raise, Has, ApplyCommand, SectionNamed;
    if offs != [] {
      ApplySectionMask(f, b, size, offs[0], bit);
      FoldSectionMask(ApplyCommand(f, b, size, offs[0]), b, size, offs[1..], bit);
      assert offs == [offs[0]] + offs[1..];
      assert forall o :: o in offs <==> o == offs[0] || o in offs[1..];
    }
  }

  lemma {:induction false} FoldFail(f: Facts, b: seq<byte>, size: u32, offs: seq<nat>)
    requires AllIn(b, offs) && |f.segs.plan| <= 8
    ensures Fold(f, b, size, offs).fail == 0 <==>
            f.fail == 0 && AllSound(b, offs, size) && |f.segs.plan| + |Loadable(Segments(b, offs))| <= 8
    decreases |offs|
  {
    hide Raise, Has, ApplyCommand, CommandSound, SegmentAt;
    if offs != [] {
      var o := offs[0];
      ApplyEffect(f, b, size, o);
      assert offs == [o] + offs[1..];
      var f1 := ApplyCommand(f, b, size, o);
      FoldFail(f1, b, size, offs[1..]);
      var rest := Segments(b, offs[1..]);
      if IsSegment(b, o) {
        assert ([SegmentAt(b, o)] + rest)[1..] == rest;
        if CommandSound(b, o, size) {
          SoundDoesNotWrap(b, o, size);
        }
      } else {
        assert [] + rest == rest;
      }
    }
  }

  lemma SoundDoesNotWrap(b: seq<byte>, o: nat, size: u32)
    requires CommandIn(b, o) && IsSegment(b, o) && CommandSound(b, o, size)
    ensures SegmentAt(b, o).vmaddr + SegmentAt(b, o).vmsize < TWO32
  {
  }

  // ----- the segments, summed up -----

  predicate Named(gs: seq<Segment>) {
    forall g :: g in gs ==> |g.name| == 16
  }

  predicate NoneWraps(gs: seq<Segment>) {
    forall g :: g in gs ==> g.vmaddr + g.vmsize < TWO32
  }

  lemma CountStep(t: SegmentFacts, g: Segment)
    requires |g.name| == 16
    ensures CountSegment(t, g).count == Wrap(t.count + 1)
    ensures g.vmaddr + g.vmsize < TWO32 ==>
              && CountSegment(t, g).minVm ==
                 (if Wrap(t.count + 1) == 1 || g.vmaddr < t.minVm then g.vmaddr else t.minVm)
              && CountSegment(t, g).maxVm == (if g.vmaddr + g.vmsize > t.maxVm then g.vmaddr + g.vmsize else t.maxVm)
  {
    hide Raise, Has, KeepSegment, SegmentMask, AddPlanEntry;
  }

  lemma {:induction false} SumCount(t: SegmentFacts, gs: seq<Segment>)
    requires Named(gs)
    ensures FoldSegments(t, gs).count == Wrap(t.count + |gs|)
    decreases |gs|
  {
    hide CountSegment;
    if gs != [] {
      CountStep(t, gs[0]);
      SumCount(CountSegment(t, gs[0]), gs[1..]);
    }
  }

  lemma {:induction false} SumMask(t: SegmentFacts, gs: seq<Segment>, bit: bv32)
    requires Named(gs) && NoneWraps(gs)
    ensures Has(FoldSegments(t, gs).mask, bit) <==> Has(t.mask, bit) || HasSegment(gs, bit)
    decreases |gs|
  {
    hide Raise, Has, KeepSegment, SegmentMask, AddPlanEntry;
    if gs != [] {
      assert gs == [gs[0]] + gs[1..];
      RaiseHas(t.mask, SegmentMask(gs[0].name), bit);
      SumMask(CountSegment(t, gs[0]), gs[1..], bit);
    }
  }

  /** The first segment sets the minimum, the others lower it. */
  lemma {:induction false} SumMin(t: SegmentFacts, gs: seq<Segment>)
    requires Named(gs) && NoneWraps(gs) && t.count + |gs| < TWO32
    ensures var m := FoldSegments(t, gs).minVm;
            && (forall g :: g in gs ==> m <= g.vmaddr)
            && (t.count > 0 ==> m <= t.minVm)
            && ((exists g :: g in gs && g.vmaddr == m) || (m == t.minVm && (t.count > 0 || gs == [])))
    decreases |gs|
  {
    hide CountSegment;
    if gs != [] {
      CountStep(t, gs[0]);
      assert gs == [gs[0]] + gs[1..];
      SumMin(CountSegment(t, gs[0]), gs[1..]);
    }
  }

  lemma {:induction false} SumMax(t: SegmentFacts, gs: seq<Segment>)
    requires Named(gs) && NoneWraps(gs)
    ensures var m := FoldSegments(t, gs).maxVm;
            && m >= t.maxVm
            && (forall g :: g in gs ==> g.vmaddr + g.vmsize <= m)
            && ((exists g :: g in gs && g.vmaddr + g.vmsize == m) || m == t.maxVm)
    decreases |gs|
  {
    hide CountSegment;
    if gs != [] {
      CountStep(t, gs[0]);
      assert gs == [gs[0]] + gs[1..];
      SumMax(CountSegment(t, gs[0]), gs[1..]);
    }
  }

  /** The entries made for a list of loadable segments, numbered from k. */
  function Planned(k: nat, gs: seq<Segment>): (r: seq<PlanEntry>)
    requires Named(gs) && k + |gs| <= 8
    ensures |r| == |gs|
    ensures forall i :: 0 <= i < |r| ==> r[i] == NewEntry(k + i, gs[i], SegmentMask(gs[i].name))
    decreases |gs|
  {
    if gs == [] then [] else [NewEntry(k, gs[0], SegmentMask(gs[0].name))] + Planned(k + 1, gs[1..])
  }

  lemma LoadableNamed(gs: seq<Segment>)
    requires Named(gs)
    ensures Named(Loadable(gs))
  {
    forall g | g in Loadable(gs)
      ensures |g.name| == 16
    {
      LoadableAre(gs, g);
    }
  }

  lemma CountsPlan(t: SegmentFacts, g: Segment)
    requires |g.name| == 16 && g.vmaddr + g.vmsize < TWO32
    ensures CountSegment(t, g).plan == AddPlanEntry(t.plan, g, SegmentMask(g.name))
  {
    hide SegmentMask, AddPlanEntry;
  }

  lemma LoadableStep(gs: seq<Segment>)
    requires gs != []
    ensures Loadable(gs) == if gs[0].vmsize != 0 then [gs[0]] + Loadable(gs[1..]) else Loadable(gs[1..])
    ensures gs[0].vmsize != 0 ==>
              Loadable(gs) != [] && Loadable(gs)[0] == gs[0] && Loadable(gs)[1..] == Loadable(gs[1..])
  {
  }

  lemma PlannedStep(plan: seq<PlanEntry>, gs: seq<Segment>)
    requires Named(gs) && gs != [] && |plan| + |gs| <= 8
    ensures Named(gs[1..]) && |gs[0].name| == 16
    ensures plan + Planned(|plan|, gs) ==
            plan + [NewEntry(|plan|, gs[0], SegmentMask(gs[0].name))] + Planned(|plan| + 1, gs[1..])
  {
    hide SegmentMask, NewEntry;
    assert gs[0] in gs && forall g :: g in gs[1..] ==> g in gs;
    Regroup(plan, Planned(|plan|, gs), [NewEntry(|plan|, gs[0], SegmentMask(gs[0].name))],
            Planned(|plan| + 1, gs[1..]));
  }

  lemma Regroup(x: seq<PlanEntry>, p: seq<PlanEntry>, y: seq<PlanEntry>, z: seq<PlanEntry>)
    requires p == y + z
    ensures x + p == x + y + z
  {
  }

  lemma {:induction false} SumPlan(t: SegmentFacts, gs: seq<Segment>)
    requires Named(gs) && NoneWraps(gs) && |t.plan| + |Loadable(gs)| <= 8
    ensures Named(Loadable(gs))
    ensures FoldSegments(t, gs).plan == t.plan + Planned(|t.plan|, Loadable(gs))
    decreases |gs|
  {
    hide CountSegment, SegmentMask, NewEntry, Planned, Loadable, FoldSegments;
    LoadableNamed(gs);
    FoldsFirst(t, gs);
    if gs == [] {
      PlannedNone(t.plan, Loadable(gs));
    } else {
      LoadableStep(gs);
      LoadableNamed(gs[1..]);
      CountsPlan(t, gs[0]);
      SumPlan(CountSegment(t, gs[0]), gs[1..]);
      if gs[0].vmsize != 0 {
        PlannedStep(t.plan, Loadable(gs));
      }
    }
  }

  lemma FoldsFirst(t: SegmentFacts, gs: seq<Segment>)
    requires Named(gs)
    ensures FoldSegments(t, gs) == if gs == [] then t else FoldSegments(CountSegment(t, gs[0]), gs[1..])
    ensures gs == [] ==> Loadable(gs) == []
  {
    hide CountSegment;
  }

  lemma PlannedNone(plan: seq<PlanEntry>, gs: seq<Segment>)
    requires Named(gs) && gs == [] && |plan| <= 8
    ensures plan == plan + Planned(|plan|, gs)
  {
  }
}
