/** What the prober's totals hold after any list of commands, sound or not: names seen, the extents and
    spans kept for the key names, address bounds, and the furthest end of a file range. */
module MachoSums {
  import opened Words
  import opened Masks
  import opened MachoFormat
  import opened MachoSpec
  import opened MachoLayout
  import opened MachoParse
  import opened MachoNames

  // ----- segments -----

  /** A segment whose address range wraps is counted and otherwise ignored. */
  predicate Keeps(g: Segment) {
    g.vmaddr + g.vmsize < TWO32
  }

  predicate Spells(g: Segment, name: string) {
    |g.name| == 16 && Keeps(g) && NameIs(g.name, name)
  }

  lemma CountedAs(t: SegmentFacts, g: Segment)
    requires |g.name| == 16
    ensures var r, bit := CountSegment(t, g), SegmentMask(g.name);
            && r.count == Wrap(t.count + 1)
            && (!Keeps(g) ==> r == t.(count := r.count))
            && (Keeps(g) ==>
                  && r.mask == Raise(t.mask, bit) && r.key == KeepSegment(t.key, g, bit)
                  && r.prelinkMask == (if Has(bit, SEG_PRELINK_MASK) then Raise(t.prelinkMask, bit) else t.prelinkMask)
                  && r.minVm == (if r.count == 1 || g.vmaddr < t.minVm then g.vmaddr else t.minVm)
                  && r.maxVm == (if g.vmaddr + g.vmsize > t.maxVm then g.vmaddr + g.vmsize else t.maxVm)
                  && r.plan == AddPlanEntry(t.plan, g, bit))
  {
    hide SegmentMask, KeepSegment, Raise, Has, AddPlanEntry;
  }

  ghost predicate Shows(gs: seq<Segment>, k: bv32)
    requires Named(gs)
  {
    exists g :: g in gs && Keeps(g) && Has(SegmentMask(g.name), k)
  }

  ghost predicate ShowsPrelink(gs: seq<Segment>, k: bv32)
    requires Named(gs)
  {
    exists g :: g in gs && Keeps(g) && Has(SegmentMask(g.name), SEG_PRELINK_MASK) && Has(SegmentMask(g.name), k)
  }

  lemma {:induction false} MasksShow(t: SegmentFacts, gs: seq<Segment>, k: bv32)
    requires Named(gs)
    ensures Has(FoldSegments(t, gs).mask, k) <==> Has(t.mask, k) || Shows(gs, k)
    ensures Has(FoldSegments(t, gs).prelinkMask, k) <==> Has(t.prelinkMask, k) || ShowsPrelink(gs, k)
    decreases |gs|
  {
    hide CountSegment, SegmentMask, Has, Raise, Keeps;
    if gs != [] {
      var g := gs[0];
      assert gs == [g] + gs[1..];
      CountedAs(t, g);
      RaiseHas(t.mask, SegmentMask(g.name), k);
      RaiseHas(t.prelinkMask, SegmentMask(g.name), k);
      MasksShow(CountSegment(t, g), gs[1..], k);
    }
  }

  /** The names whose segments are kept. */
  predicate KeyName(i: nat) {
    i in {0, 1, 2, 5, 6, 7}
  }

  function KeyOf(k: KeySegments, i: nat): Extent
    requires KeyName(i)
  {
    if i == 0 then k.text else if i == 1 then k.data else if i == 2 then k.linkedit
    else if i == 5 then k.prelinkText else if i == 6 then k.prelinkInfo else k.prelinkState
  }

  predicate ExtentOf(x: Extent, g: Segment) {
    x.vmaddr == g.vmaddr && x.vmsize == g.vmsize && x.fileoff == g.fileoff && x.filesize == g.filesize
  }

  lemma KeepStep(k: KeySegments, g: Segment, bit: bv32, i: nat)
    requires KeyName(i)
    ensures if bit == SEGMENT_NAMES[i].1 then ExtentOf(KeyOf(KeepSegment(k, g, bit), i), g)
            else KeyOf(KeepSegment(k, g, bit), i) == KeyOf(k, i)
  {
  }

  predicate LastSpelling(gs: seq<Segment>, p: nat, name: string) {
    p < |gs| && Spells(gs[p], name) && forall q :: p < q < |gs| ==> !Spells(gs[q], name)
  }

  predicate NoneSpells(gs: seq<Segment>, name: string) {
    forall p :: 0 <= p < |gs| ==> !Spells(gs[p], name)
  }

  /** The extent is that of the last segment with the name, or `before` when there is none. */
  predicate IsLastExtent(x: Extent, before: Extent, gs: seq<Segment>, name: string) {
    && (forall p: nat :: p < |gs| && LastSpelling(gs, p, name) ==> ExtentOf(x, gs[p]))
    && (NoneSpells(gs, name) ==> x == before)
  }

  lemma ExtentStep(x: Extent, before: Extent, mid: Extent, g: Segment, gs: seq<Segment>, name: string)
    requires if Spells(g, name) then ExtentOf(mid, g) else mid == before
    requires IsLastExtent(x, mid, gs, name)
    ensures IsLastExtent(x, before, [g] + gs, name)
  {
    hide Spells;
    var all := [g] + gs;
    assert forall q :: 0 < q < |all| ==> all[q] == gs[q - 1];
    forall p: nat | LastSpelling(all, p, name)
      ensures ExtentOf(x, all[p])
    {
      if p > 0 {
        forall q | p - 1 < q < |gs|
          ensures !Spells(gs[q], name)
        {
          assert gs[q] == all[q + 1];
        }
        assert LastSpelling(gs, p - 1, name);
      } else {
        forall q | 0 <= q < |gs|
          ensures !Spells(gs[q], name)
        {
          assert gs[q] == all[q + 1];
        }
      }
    }
    if NoneSpells(all, name) {
      assert !Spells(all[0], name);
      forall q | 0 <= q < |gs|
        ensures !Spells(gs[q], name)
      {
        assert gs[q] == all[q + 1];
      }
    }
  }

  /** Each key extent is that of the last segment with its name. */
  lemma {:induction false} KeysAreLast(t: SegmentFacts, gs: seq<Segment>, i: nat)
    requires Named(gs) && KeyName(i)
    ensures IsLastExtent(KeyOf(FoldSegments(t, gs).key, i), KeyOf(t.key, i), gs, SEGMENT_NAMES[i].0)
    decreases |gs|
  {
    hide CountSegment, SegmentMask, KeepSegment, KeyOf, NameIs, IsLastExtent, ExtentOf, Has, Raise;
    if gs == [] {
      NothingSpelled(KeyOf(t.key, i), SEGMENT_NAMES[i].0);
    } else {
      var g := gs[0];
      assert gs == [g] + gs[1..];
      CountedAs(t, g);
      SegmentBit(g.name, i);
      if Keeps(g) {
        KeepStep(t.key, g, SegmentMask(g.name), i);
      }
      var t1 := CountSegment(t, g);
      KeysAreLast(t1, gs[1..], i);
      ExtentStep(KeyOf(FoldSegments(t, gs).key, i), KeyOf(t.key, i), KeyOf(t1.key, i), g, gs[1..], SEGMENT_NAMES[i].0);
    }
  }

  lemma NothingSpelled(x: Extent, name: string)
    ensures IsLastExtent(x, x, [], name)
  {
  }

  lemma MinStep(t: SegmentFacts, g: Segment)
    requires |g.name| == 16 && t.count + 1 < TWO32
    ensures var r := CountSegment(t, g);
            && r.count == t.count + 1
            && r.minVm == if Keeps(g) && (t.count == 0 || g.vmaddr < t.minVm) then g.vmaddr else t.minVm
  {
    hide CountSegment, Keeps, Wrap, KeepSegment, AddPlanEntry, SegmentMask, Raise, Has;
    NextCount(t.count);
    CountedAs(t, g);
  }

  lemma NextCount(n: u32)
    ensures n + 1 < TWO32 ==> Wrap(n + 1) == n + 1
  {
  }

  /** The lowest start: zero when the first segment is one that is ignored. */
  lemma {:induction false} LaterMin(t: SegmentFacts, gs: seq<Segment>)
    requires Named(gs) && 0 < t.count && t.count + |gs| < TWO32
    ensures var m := FoldSegments(t, gs).minVm;
            && m <= t.minVm && (forall g :: g in gs && Keeps(g) ==> m <= g.vmaddr)
            && (m == t.minVm || exists g :: g in gs && Keeps(g) && g.vmaddr == m)
    decreases |gs|
  {
    hide CountSegment, Keeps;
    if gs != [] {
      MinStep(t, gs[0]);
      assert gs == [gs[0]] + gs[1..];
      LaterMin(CountSegment(t, gs[0]), gs[1..]);
    }
  }

  ghost predicate IsLowest(m: u32, gs: seq<Segment>) {
    if gs == [] || !Keeps(gs[0]) then m == 0
    else && (forall g :: g in gs && Keeps(g) ==> m <= g.vmaddr)
         && exists g :: g in gs && Keeps(g) && g.vmaddr == m
  }

  lemma LowestStart(t: SegmentFacts, gs: seq<Segment>)
    requires Named(gs) && t.count == 0 && t.minVm == 0 && |gs| < TWO32
    ensures IsLowest(FoldSegments(t, gs).minVm, gs)
  {
    hide CountSegment, Keeps, FoldSegments, IsLowest;
    FoldsFirst(t, gs);
    if gs == [] {
      LowestOfNone();
    } else {
      var t1 := CountSegment(t, gs[0]);
      MinStep(t, gs[0]);
      LaterMin(t1, gs[1..]);
      LowestFrom(FoldSegments(t, gs).minVm, t1.minVm, gs);
    }
  }

  lemma LowestOfNone()
    ensures IsLowest(0, [])
  {
  }

  lemma LowestFrom(m: u32, first: u32, gs: seq<Segment>)
    requires gs != [] && first == if Keeps(gs[0]) then gs[0].vmaddr else 0
    requires m <= first && forall g :: g in gs[1..] && Keeps(g) ==> m <= g.vmaddr
    requires m == first || exists g :: g in gs[1..] && Keeps(g) && g.vmaddr == m
    ensures IsLowest(m, gs)
  {
    hide Keeps;
    assert gs == [gs[0]] + gs[1..];
  }

  lemma {:induction false} HighestEnd(t: SegmentFacts, gs: seq<Segment>)
    requires Named(gs)
    ensures var m := FoldSegments(t, gs).maxVm;
            && m >= t.maxVm && (forall g :: g in gs && Keeps(g) ==> g.vmaddr + g.vmsize <= m)
            && (m == t.maxVm || exists g :: g in gs && Keeps(g) && g.vmaddr + g.vmsize == m)
    decreases |gs|
  {
    hide CountSegment;
    if gs != [] {
      CountedAs(t, gs[0]);
      assert gs == [gs[0]] + gs[1..];
      HighestEnd(CountSegment(t, gs[0]), gs[1..]);
    }
  }

  /** The segments that go into the plan. */
  function Plannable(gs: seq<Segment>): (r: seq<Segment>)
    ensures forall g :: g in r <==> g in gs && Keeps(g) && g.vmsize != 0
    ensures |r| <= |gs|
  {
    if gs == [] then []
    else (if Keeps(gs[0]) && gs[0].vmsize != 0 then [gs[0]] else []) + Plannable(gs[1..])
  }

  /** What an entry of the plan says of its segment. */
  predicate Describes(e: PlanEntry, k: nat, g: Segment)
    requires |g.name| == 16
  {
    && e.index == k && e.segmentMask == SegmentMask(g.name)
    && e.vmaddr == g.vmaddr && e.vmsize == g.vmsize && e.fileoff == g.fileoff && e.filesize == g.filesize
    && (Has(e.flags, 0x1) <==> g.filesize > 0) && (Has(e.flags, 0x4) <==> g.vmsize > g.filesize)
    && (Has(e.flags, 0x2) <==> Has(SegmentMask(g.name), SEG_PRELINK_MASK)) && Without(e.flags, 0x7) == 0
  }

  lemma EntryDescribes(k: u32, g: Segment)
    requires |g.name| == 16
    ensures var e := NewEntry(k, g, SegmentMask(g.name)); Describes(e, k, g) && e.physaddr == 0 && e.physsize == 0
  {
    hide SegmentMask, Has, Without;
    FlagBits(g.filesize != 0, Has(SegmentMask(g.name), SEG_PRELINK_MASK), g.vmsize > g.filesize);
  }

  lemma FlagBits(a: bool, b: bool, c: bool)
    ensures var x := Flag(a, PLAN_FILE_BACKED) | Flag(b, PLAN_PRELINK) | Flag(c, PLAN_ZERO_FILL);
            (Has(x, 0x1) <==> a) && (Has(x, 0x2) <==> b) && (Has(x, 0x4) <==> c) && Without(x, 0x7) == 0
  {
  }

  /** After the entries of `before`, the plan describes these segments in order, as far as there is room
      for eight. */
  predicate PlanFollows(plan: seq<PlanEntry>, before: seq<PlanEntry>, ps: seq<Segment>)
    requires Named(ps)
  {
    && before <= plan && |plan| == (if |before| + |ps| <= 8 then |before| + |ps| else 8)
    && forall k :: |before| <= k < |plan| ==> Describes(plan[k], k, ps[k - |before|])
  }

  lemma PlanStep(plan: seq<PlanEntry>, before: seq<PlanEntry>, e: PlanEntry, g: Segment, ps: seq<Segment>)
    requires Named(ps) && |g.name| == 16 && |before| < 8 && Describes(e, |before|, g)
    requires PlanFollows(plan, before + [e], ps)
    ensures Named([g] + ps) && PlanFollows(plan, before, [g] + ps)
  {
    hide Describes;
    var mid := before + [e];
    assert plan[|before|] == mid[|before|] == e;
    assert before <= plan by { assert before == mid[..|before|]; }
    forall k | |before| <= k < |plan|
      ensures Describes(plan[k], k, ([g] + ps)[k - |before|])
    {
      if k > |before| {
        assert ([g] + ps)[k - |before|] == ps[k - |mid|];
      }
    }
  }

  /** The plan describes the plannable segments, in order. */
  lemma {:induction false} PlanDescribes(t: SegmentFacts, gs: seq<Segment>)
    requires Named(gs) && |t.plan| <= 8
    ensures PlanFollows(FoldSegments(t, gs).plan, t.plan, Plannable(gs))
    decreases |gs|
  {
    hide CountSegment, SegmentMask, NewEntry, Describes, Keeps, PlanFollows;
    if gs == [] {
      PlanStays(t.plan, []);
    } else {
      var g, t1 := gs[0], CountSegment(t, gs[0]);
      CountedAs(t, g);
      PlanDescribes(t1, gs[1..]);
      if Keeps(g) && g.vmsize != 0 {
        if |t.plan| < 8 {
          EntryDescribes(|t.plan|, g);
          PlanStep(FoldSegments(t, gs).plan, t.plan, NewEntry(|t.plan|, g, SegmentMask(g.name)), g, Plannable(gs[1..]));
        } else {
          PlanIsFull(FoldSegments(t, gs).plan, t.plan, Plannable(gs[1..]), Plannable(gs));
        }
      } else {
        assert Plannable(gs) == Plannable(gs[1..]);
      }
    }
  }

  lemma PlanStays(plan: seq<PlanEntry>, ps: seq<Segment>)
    requires ps == [] && |plan| <= 8
    ensures Named(ps) && PlanFollows(plan, plan, ps)
  {
  }

  lemma PlanIsFull(plan: seq<PlanEntry>, before: seq<PlanEntry>, ps: seq<Segment>, more: seq<Segment>)
    requires Named(ps) && Named(more) && |before| == 8 && PlanFollows(plan, before, ps)
    ensures PlanFollows(plan, before, more)
  {
  }

  // ----- sections -----

  /** The sections of a table, in order. */
  function Table(b: seq<byte>, o: nat, n: nat): (r: seq<Section>)
    requires o + n * 68 <= |b|
    ensures |r| == n && forall i :: 0 <= i < n ==> r[i] == SectionAt(b, o + i * 68)
    decreases n
  {
    if n == 0 then [] else [SectionAt(b, o)] + Table(b, o + 68, n - 1)
  }

  /** The sections of a command: those of its table when the table fits it. */
  function SectionsOf(b: seq<byte>, o: nat): (r: seq<Section>)
    requires CommandIn(b, o)
    ensures forall s :: s in r ==> |s.name| == |s.segment| == 16
  {
    if IsSegment(b, o) && 56 + SegmentAt(b, o).nsects * 68 <= CmdSize(b, o)
    then Table(b, o + 56, SegmentAt(b, o).nsects) else []
  }

  function Sections(b: seq<byte>, offs: seq<nat>): (r: seq<Section>)
    requires AllIn(b, offs)
    ensures forall s :: s in r ==> |s.name| == |s.segment| == 16
  {
    if offs == [] then [] else SectionsOf(b, offs[0]) + Sections(b, offs[1..])
  }

  predicate Paired(ss: seq<Section>) {
    forall s :: s in ss ==> |s.name| == |s.segment| == 16
  }

  function FoldSections(t: SectionFacts, ss: seq<Section>): SectionFacts
    requires Paired(ss)
    decreases |ss|
  {
    if ss == [] then t else FoldSections(CountSection(t, ss[0]), ss[1..])
  }

  lemma {:induction false} FoldsJoin(t: SectionFacts, xs: seq<Section>, ys: seq<Section>)
    requires Paired(xs) && Paired(ys)
    ensures FoldSections(t, xs + ys) == FoldSections(FoldSections(t, xs), ys)
    decreases |xs|
  {
    hide CountSection;
    if xs == [] {
      assert xs + ys == ys;
    } else {
      assert (xs + ys)[1..] == xs[1..] + ys;
      FoldsJoin(CountSection(t, xs[0]), xs[1..], ys);
    }
  }

  lemma {:induction false} TableFolds(f: Facts, b: seq<byte>, size: u32, g: Segment, o: nat, n: nat)
    requires o + n * 68 <= |b|
    ensures RecordSections(f, b, size, g, o, n).sects == FoldSections(f.sects, Table(b, o, n))
    decreases n
  {
    hide CountSection, SectionAt, SectionFaulty, Raise;
    if n > 0 {
      TableFolds(RecordSection(f, size, g, SectionAt(b, o)), b, size, g, o + 68, n - 1);
      assert Table(b, o, n)[1..] == Table(b, o + 68, n - 1);
    }
  }

  lemma CommandSections(f: Facts, b: seq<byte>, size: u32, o: nat)
    requires CommandIn(b, o)
    ensures ApplyCommand(f, b, size, o).sects == FoldSections(f.sects, SectionsOf(b, o))
  {
    hide Raise, CountCommand, CountSegment, RaiseSegmentFaults, SegmentAt, FoldSections, Table, SymtabFaulty;
    assert FoldSections(f.sects, []) == f.sects by { FoldsNone(f.sects); }
    if IsSegment(b, o) {
      var g := SegmentAt(b, o);
      var f1 := RecordSegment(f.(cmds := CountCommand(f.cmds, b, o)), size, g);
      if SectionTableFits(g.nsects, CmdSize(b, o)) {
        TableFolds(f1, b, size, g, o + 56, g.nsects);
      }
    }
  }

  lemma FoldsNone(t: SectionFacts)
    ensures FoldSections(t, []) == t
  {
  }

  lemma {:induction false} FoldsSections(f: Facts, b: seq<byte>, size: u32, offs: seq<nat>)
    requires AllIn(b, offs)
    ensures Fold(f, b, size, offs).sects == FoldSections(f.sects, Sections(b, offs))
    decreases |offs|
  {
    hide ApplyCommand, SectionsOf, FoldSections;
    if offs == [] {
      FoldsNone(f.sects);
    } else {
      CommandSections(f, b, size, offs[0]);
      FoldsSections(ApplyCommand(f, b, size, offs[0]), b, size, offs[1..]);
      FoldsJoin(f.sects, SectionsOf(b, offs[0]), Sections(b, offs[1..]));
    }
  }

  lemma SectionCountedAs(t: SectionFacts, s: Section)
    requires |s.name| == |s.segment| == 16
    ensures var r, bit := CountSection(t, s), SectionMask(s);
            && r.count == Wrap(t.count + 1) && r.mask == Raise(t.mask, bit) && r.key == KeepSection(t.key, s, bit)
            && r.prelinkMask == (if Has(bit, SECT_PRELINK_MASK) then Raise(t.prelinkMask, bit) else t.prelinkMask)
  {
    hide SectionMask, KeepSection, Raise, Has;
  }

  ghost predicate ShowsSection(ss: seq<Section>, k: bv32)
    requires Paired(ss)
  {
    exists s :: s in ss && Has(SectionMask(s), k)
  }

  ghost predicate ShowsPrelinkSection(ss: seq<Section>, k: bv32)
    requires Paired(ss)
  {
    exists s :: s in ss && Has(SectionMask(s), SECT_PRELINK_MASK) && Has(SectionMask(s), k)
  }

  lemma {:induction false} SectionMasksShow(t: SectionFacts, ss: seq<Section>, k: bv32)
    requires Paired(ss)
    ensures var r := FoldSections(t, ss);
            && r.count == Wrap(t.count + |ss|)
            && (Has(r.mask, k) <==> Has(t.mask, k) || ShowsSection(ss, k))
            && (Has(r.prelinkMask, k) <==> Has(t.prelinkMask, k) || ShowsPrelinkSection(ss, k))
    decreases |ss|
  {
    hide CountSection, SectionMask, Has, Raise;
    if ss != [] {
      var s := ss[0];
      assert ss == [s] + ss[1..];
      SectionCountedAs(t, s);
      RaiseHas(t.mask, SectionMask(s), k);
      RaiseHas(t.prelinkMask, SectionMask(s), k);
      SectionMasksShow(CountSection(t, s), ss[1..], k);
      WrapSum(t.count + 1, |ss| - 1);
    }
  }

  function SpanOf(k: KeySections, i: nat): Span
    requires i < 4
  {
    if i == 0 then k.text else if i == 1 then k.dataConst else if i == 2 then k.prelinkText else k.prelinkInfo
  }

  predicate SpanIs(x: Span, s: Section) {
    x.addr == s.addr && x.size == s.size
  }

  lemma KeepSectionStep(k: KeySections, s: Section, bit: bv32, i: nat)
    requires i < 4
    ensures if bit == SECTION_NAMES[i].2 then SpanIs(SpanOf(KeepSection(k, s, bit), i), s)
            else SpanOf(KeepSection(k, s, bit), i) == SpanOf(k, i)
  {
  }

  predicate LastPair(ss: seq<Section>, p: nat, i: nat)
    requires Paired(ss) && i < 9
  {
    p < |ss| && PairIs(ss[p], i) && forall q :: p < q < |ss| ==> !PairIs(ss[q], i)
  }

  predicate NoPair(ss: seq<Section>, i: nat)
    requires Paired(ss) && i < 9
  {
    forall p :: 0 <= p < |ss| ==> !PairIs(ss[p], i)
  }

  /** The span is that of the last section with the name pair, or `before` when there is none. */
  predicate IsLastSpan(x: Span, before: Span, ss: seq<Section>, i: nat)
    requires Paired(ss) && i < 9
  {
    && (forall p: nat :: p < |ss| && LastPair(ss, p, i) ==> SpanIs(x, ss[p]))
    && (NoPair(ss, i) ==> x == before)
  }

  lemma SpanStep(x: Span, before: Span, mid: Span, s: Section, ss: seq<Section>, i: nat)
    requires Paired([s] + ss) && Paired(ss) && |s.name| == |s.segment| == 16 && i < 9
    requires if PairIs(s, i) then SpanIs(mid, s) else mid == before
    requires IsLastSpan(x, mid, ss, i)
    ensures IsLastSpan(x, before, [s] + ss, i)
  {
    hide PairIs;
    var all := [s] + ss;
    assert all[0] == s && forall q :: 0 < q < |all| ==> all[q] == ss[q - 1];
    forall p: nat | LastPair(all, p, i)
      ensures SpanIs(x, all[p])
    {
      forall q | p <= q < |ss|
        ensures !PairIs(ss[q], i)
      {
        assert !PairIs(all[q + 1], i);
      }
      if p > 0 {
        assert LastPair(ss, p - 1, i);
      }
    }
    if NoPair(all, i) {
      assert !PairIs(all[0], i);
      forall q | 0 <= q < |ss|
        ensures !PairIs(ss[q], i)
      {
        assert !PairIs(all[q + 1], i);
      }
    }
  }

  /** Each key span is that of the last section with its pair of names. */
  lemma {:induction false} SpansAreLast(t: SectionFacts, ss: seq<Section>, i: nat)
    requires Paired(ss) && i < 4
    ensures IsLastSpan(SpanOf(FoldSections(t, ss).key, i), SpanOf(t.key, i), ss, i)
    decreases |ss|
  {
    hide CountSection, SectionMask, KeepSection, SpanOf, PairIs, IsLastSpan, SpanIs, Has, Raise;
    if ss == [] {
      NoSections(SpanOf(t.key, i), i);
    } else {
      var s := ss[0];
      assert ss == [s] + ss[1..];
      SectionCountedAs(t, s);
      SectionBit(s, i);
      KeepSectionStep(t.key, s, SectionMask(s), i);
      var t1 := CountSection(t, s);
      SpansAreLast(t1, ss[1..], i);
      SpanStep(SpanOf(FoldSections(t, ss).key, i), SpanOf(t.key, i), SpanOf(t1.key, i), s, ss[1..], i);
    }
  }

  lemma NoSections(x: Span, i: nat)
    requires i < 9
    ensures IsLastSpan(x, x, [], i)
  {
  }
}
