/** What the materializer raises, bit by bit, for any artifact, report and placement. */
module StagingFaults {
  import opened Words
  import opened Bits
  import opened Runtime
  import opened Masks
  import opened MachoFormat
  import opened MachoSpec
  import opened MachoLayout
  import opened MachoPlan
  import opened MachoAccept
  import opened MachoFrame
  import opened StagingSpec
  import opened StagingImage
  import opened StagingTheorems

  // ----- where the arena may lie -----

  /** An address that is not the arena's to use. */
  predicate Forbidden(x: nat, artifactBase: u32, artifactSize: u32, load: Load) {
    || artifactBase <= x < artifactBase + artifactSize
    || 0xde50_0000 <= x < 0xde70_0000
    || load.physBase <= x < load.physEnd
    || x >= 0xf000_0000
  }

  predicate InArena(x: nat, arenaBase: u32) {
    arenaBase <= x < arenaBase + 0x1_0000
  }

  /** The comparisons refuse a placement exactly when some address of the arena is forbidden, or the
      artifact itself wraps. */
  lemma AliasMeans(arenaBase: u32, artifactBase: u32, artifactSize: u32, load: Load)
    requires arenaBase + ARENA_CAP < TWO32 && artifactSize > 0
    requires load.physBase < load.physEnd || load.physEnd == 0
    ensures ArenaAliases(arenaBase, artifactBase, artifactSize, load) <==>
            || artifactBase + artifactSize >= TWO32
            || exists x :: InArena(x, arenaBase) && Forbidden(x, artifactBase, artifactSize, load)
  {
    Meet(arenaBase, arenaBase + ARENA_CAP, artifactBase, artifactBase + artifactSize);
    Meet(arenaBase, arenaBase + ARENA_CAP, 0xde50_0000, 0xde70_0000);
    Meet(arenaBase, arenaBase + ARENA_CAP, load.physBase, load.physEnd);
    Meet(arenaBase, arenaBase + ARENA_CAP, 0xf000_0000, TWO32);
    if ArenaAliases(arenaBase, artifactBase, artifactSize, load) && artifactBase + artifactSize < TWO32 {
      var x := ForbiddenAt(arenaBase, artifactBase, artifactSize, load);
    }
  }

  predicate InRange(x: int, lo: int, hi: int) {
    lo <= x < hi
  }

  lemma Meet(a: nat, a': nat, b: nat, b': nat)
    requires a < a'
    ensures b < b' ==> (a < b' && b < a' <==> exists x :: InRange(x, a, a') && InRange(x, b, b'))
  {
    if a < b' && b < a' && b < b' {
      assert InRange(if a < b then b else a, a, a') && InRange(if a < b then b else a, b, b');
    }
  }

  lemma ForbiddenAt(arenaBase: u32, artifactBase: u32, artifactSize: u32, load: Load) returns (x: nat)
    requires arenaBase + ARENA_CAP < TWO32 && artifactSize > 0 && artifactBase + artifactSize < TWO32
    requires load.physBase < load.physEnd || load.physEnd == 0
    requires ArenaAliases(arenaBase, artifactBase, artifactSize, load)
    ensures InArena(x, arenaBase) && Forbidden(x, artifactBase, artifactSize, load)
  {
    var arenaEnd := arenaBase + ARENA_CAP;
    if arenaBase < artifactBase + artifactSize && artifactBase < arenaEnd {
      x := if arenaBase < artifactBase then artifactBase else arenaBase;
    } else if arenaBase < 0xde70_0000 && 0xde50_0000 < arenaEnd {
      x := if arenaBase < 0xde50_0000 then 0xde50_0000 else arenaBase;
    } else if arenaBase < load.physEnd && load.physBase < arenaEnd {
      x := if arenaBase < load.physBase then load.physBase else arenaBase;
    } else {
      x := if arenaBase < 0xf000_0000 then 0xf000_0000 else arenaBase;
    }
  }

  /** The segments span at least one byte and at most the arena. */
  lemma SpanMeans(minVm: u32, maxVm: u32, arenaBase: u32)
    ensures SpanFits(minVm, maxVm, arenaBase) <==>
            0 < minVm < maxVm <= minVm + 0x1_0000 && arenaBase + 0x1_0000 < TWO32
    ensures SpanFits(minVm, maxVm, arenaBase) ==>
              ArenaSize(minVm, maxVm, arenaBase) == (maxVm - minVm + 0xfff) / 0x1000 * 0x1000
  {
    hide AlignUpChecked;
    if minVm < maxVm {
      RoundPageAligns(maxVm - minVm);
    }
  }

  // ----- the copying -----

  /** The destination is outside the arena, or the file bytes are more than the memory. */
  predicate DestinationFaulty(e: PlanEntry, fileSize: u32, vmBase: u32, arenaSize: u32) {
    || e.vmaddr < vmBase || e.filesize > e.vmsize
    || (e.fileoff + e.filesize <= fileSize && e.vmaddr + e.vmsize > vmBase + arenaSize)
  }

  /** The file bytes are not in the file. */
  predicate SourceFaulty(e: PlanEntry, fileSize: u32, vmBase: u32) {
    vmBase <= e.vmaddr && e.filesize <= e.vmsize && e.fileoff + e.filesize > fileSize
  }

  lemma StageOneBits(s: Staged, e: PlanEntry, src: seq<byte>, vmBase: u32, arenaBase: u32, arenaSize: u32)
    requires |src| < TWO32 && arenaSize <= |s.arena| && |s.entries| < 8
    ensures var r, dst, source := StageOne(s, e, src, vmBase, arenaBase, arenaSize),
                                  DestinationFaulty(e, |src|, vmBase, arenaSize), SourceFaulty(e, |src|, vmBase);
            && r.fail == Raise(Raise(s.fail, Flag(dst, FAIL_STAGE_DST_BOUNDS)), Flag(source, FAIL_STAGE_SRC_BOUNDS))
            && |r.entries| == |s.entries| + (if dst || source then 0 else 1)
  {
    hide Raise, WriteEntry;
    RaiseNone(s.fail);
    RaiseNone(Raise(s.fail, FAIL_STAGE_DST_BOUNDS));
  }

  predicate SomeDestination(plan: seq<PlanEntry>, fileSize: u32, vmBase: u32, arenaSize: u32) {
    exists e :: e in plan && DestinationFaulty(e, fileSize, vmBase, arenaSize)
  }

  predicate SomeSource(plan: seq<PlanEntry>, fileSize: u32, vmBase: u32) {
    exists e :: e in plan && SourceFaulty(e, fileSize, vmBase)
  }

  lemma {:induction false} StageAllBits(s: Staged, plan: seq<PlanEntry>, src: seq<byte>, vmBase: u32, arenaBase: u32,
                                        arenaSize: u32)
    requires |src| < TWO32 && arenaSize <= |s.arena| && |s.entries| + |plan| <= 8
    ensures var r, dst, source := StageAll(s, plan, src, vmBase, arenaBase, arenaSize),
                                  SomeDestination(plan, |src|, vmBase, arenaSize), SomeSource(plan, |src|, vmBase);
            && r.fail == Raise(Raise(s.fail, Flag(dst, FAIL_STAGE_DST_BOUNDS)), Flag(source, FAIL_STAGE_SRC_BOUNDS))
            && |r.entries| <= |s.entries| + |plan|
            && (|r.entries| == |s.entries| + |plan| <==> !dst && !source)
    decreases |plan|
  {
    hide StageOne, Raise, DestinationFaulty, SourceFaulty;
    if plan == [] {
      RaiseNone(s.fail);
    } else {
      var e, rest := plan[0], plan[1..];
      assert plan == [e] + rest;
      StageOneBits(s, e, src, vmBase, arenaBase, arenaSize);
      var s1 := StageOne(s, e, src, vmBase, arenaBase, arenaSize);
      StageAllBits(s1, rest, src, vmBase, arenaBase, arenaSize);
      TwoByTwo(s.fail, DestinationFaulty(e, |src|, vmBase, arenaSize), SourceFaulty(e, |src|, vmBase),
               SomeDestination(rest, |src|, vmBase, arenaSize), SomeSource(rest, |src|, vmBase));
    }
  }

  lemma TwoByTwo(m: bv32, a: bool, b: bool, c: bool, d: bool)
    ensures Raise(Raise(Raise(Raise(m, Flag(a, FAIL_STAGE_DST_BOUNDS)), Flag(b, FAIL_STAGE_SRC_BOUNDS)),
                        Flag(c, FAIL_STAGE_DST_BOUNDS)), Flag(d, FAIL_STAGE_SRC_BOUNDS)) ==
            Raise(Raise(m, Flag(a || c, FAIL_STAGE_DST_BOUNDS)), Flag(b || d, FAIL_STAGE_SRC_BOUNDS))
  {
    hide Raise, Flag;
    var x := Raise(m, Flag(a, FAIL_STAGE_DST_BOUNDS));
    RaiseSwaps(x, Flag(b, FAIL_STAGE_SRC_BOUNDS), Flag(c, FAIL_STAGE_DST_BOUNDS));
    FlagsJoin(m, a, c, FAIL_STAGE_DST_BOUNDS);
    FlagsJoin(Raise(x, Flag(c, FAIL_STAGE_DST_BOUNDS)), b, d, FAIL_STAGE_SRC_BOUNDS);
  }

  // ----- the three checks -----

  /** The zero-fill check is that of every byte after the file bytes of every staged segment. */
  lemma ZeroFillMeans(entries: seq<StageEntry>, arena: seq<byte>, src: seq<byte>, arenaSize: u32)
    requires arenaSize <= |arena| && AllInside(entries, src, arenaSize)
    ensures ZeroFillHolds(entries, arena, arenaSize) <==>
            forall i, x: nat :: 0 <= i < |entries| && x < |arena| && Covers(entries[i], x) && !CopiesTo(entries[i], x)
                                ==> arena[x] == 0
  {
    forall i | 0 <= i < |entries|
      ensures entries[i] in entries && EntryInside(entries[i], src, arenaSize)
    {
    }
  }

  /** The text stands in the arena, byte by byte, where its section starts. */
  predicate TextInArena(arena: seq<byte>, arenaSize: u32, vmBase: u32, addr: u32, text: string) {
    && vmBase <= addr < vmBase + arenaSize
    && forall i :: 0 <= i < |text| ==> addr - vmBase + i < |arena| && arena[addr - vmBase + i] == text[i] as int
  }

  lemma MarkerMeans(arena: seq<byte>, arenaSize: u32, vmBase: u32, addr: u32, text: string)
    requires arenaSize <= |arena| && text != [] && forall i :: 0 <= i < |text| ==> text[i] as int < 256
    ensures MarkerHolds(arena, arenaSize, vmBase, addr, text) <==> TextInArena(arena, arenaSize, vmBase, addr, text)
  {
    if MarkerHolds(arena, arenaSize, vmBase, addr, text) {
      forall i | 0 <= i < |text|
        ensures arena[addr - vmBase + i] == text[i] as int
      {
        assert arena[addr - vmBase..addr - vmBase + |text|][i] == arena[addr - vmBase + i];
      }
    }
    if TextInArena(arena, arenaSize, vmBase, addr, text) {
      assert text[|text| - 1] as int < 256 && addr - vmBase + (|text| - 1) < |arena|;
      assert arena[addr - vmBase..addr - vmBase + |text|] == Ascii(text);
    }
  }

  lemma MarkersMeanTexts(arena: seq<byte>, arenaSize: u32, vmBase: u32, key: KeySections)
    requires arenaSize <= |arena|
    ensures MarkersHold(arena, arenaSize, vmBase, key) <==>
            && TextInArena(arena, arenaSize, vmBase, key.text.addr, "ST90-TEXT")
            && TextInArena(arena, arenaSize, vmBase, key.dataConst.addr, "ST90-DATA")
            && TextInArena(arena, arenaSize, vmBase, key.prelinkText.addr, "ST90-PRELINK-TEXT")
  {
    hide MarkerHolds, TextInArena;
    MarkerMeans(arena, arenaSize, vmBase, key.text.addr, "ST90-TEXT");
    MarkerMeans(arena, arenaSize, vmBase, key.dataConst.addr, "ST90-DATA");
    MarkerMeans(arena, arenaSize, vmBase, key.prelinkText.addr, "ST90-PRELINK-TEXT");
  }

  /** The second parse of an accepted artifact's arena agrees exactly when it accepts, too, and reports the
      same identification, command count, names and bounds, the highest loaded end being the upper one. */
  lemma ReparseMeans(b: seq<byte>, arena: seq<byte>, arenaSize: u32)
    requires |b| < TWO32 && Accepts(b) && arenaSize <= |arena|
    ensures var r, m := Probe(b), Probe(arena[..arenaSize]);
            ReparseAgrees(arena, arenaSize, r) <==>
            && Accepts(arena[..arenaSize])
            && m.header.magic == r.header.magic && m.header.ncmds == r.header.ncmds
            && m.header.cputype == r.header.cputype && m.header.cpusubtype == r.header.cpusubtype
            && m.header.filetype == r.header.filetype
            && m.facts.segs.mask == r.facts.segs.mask && m.facts.sects.mask == r.facts.sects.mask
            && m.facts.segs.minVm == r.facts.segs.minVm && m.facts.segs.maxVm == r.facts.segs.maxVm
            && LastAddr(m.facts.segs.plan) == LastAddr(r.facts.segs.plan) == r.facts.segs.maxVm
  {
    hide Probe, Accepts, LastAddr;
    BoundsOfLoad(b);
    if Accepts(arena[..arenaSize]) {
      BoundsOfLoad(arena[..arenaSize]);
    }
  }

  lemma BoundsOfLoad(b: seq<byte>)
    requires |b| < TWO32 && Accepts(b)
    ensures Probe(b).load.vmBase == Probe(b).facts.segs.minVm && Probe(b).load.vmEnd == Probe(b).facts.segs.maxVm
  {
    hide *;
    var offs := AcceptedHasTiling(b);
    AcceptedReport(b, offs);
  }

  // ----- the whole failure and validity words -----

  lemma CopyBits(dst: bool, source: bool)
    ensures var f := Raise(Raise(0, Flag(dst, FAIL_STAGE_DST_BOUNDS)), Flag(source, FAIL_STAGE_SRC_BOUNDS));
            var x := if dst || source then Raise(f, FAIL_STAGE_COPY) else f;
            && (Has(x, FAIL_STAGE_DST_BOUNDS) <==> dst) && (Has(x, FAIL_STAGE_SRC_BOUNDS) <==> source)
            && (Has(x, FAIL_STAGE_COPY) <==> dst || source)
            && Without(x, 0x70_0000) == 0 && (x == 0 <==> !dst && !source)
  {
  }

  lemma CheckBits(reparsed: bool, marked: bool, zeroed: bool)
    ensures var x, v := VerdictFail(reparsed, marked, zeroed), VerdictValid(reparsed, marked, zeroed);
            && (Has(x, FAIL_STAGE_REPARSE) <==> !reparsed) && (Has(x, FAIL_STAGE_MARKERS) <==> !marked)
            && (Has(x, FAIL_STAGE_ZERO_FILL) <==> !zeroed) && Without(x, 0x380_0000) == 0
            && Has(v, VALID_STAGING) && (Has(v, VALID_MATERIALIZED_PARSE) <==> reparsed)
            && (Has(v, VALID_MARKERS) <==> marked) && (Has(v, VALID_ZERO_FILL) <==> zeroed) && Without(v, 0x3_c000) == 0
  {
  }

  /** Once the placement is good: which entry could not be copied, or which check of the copy failed. */
  lemma CopyAndCheckFaults(src: seq<byte>, r: Outcome, arenaBase: u32, artifactBase: u32)
    requires |src| < TWO32 && |r.facts.segs.plan| <= 8
    requires SpanFits(r.facts.segs.minVm, r.facts.segs.maxVm, arenaBase)
    requires !ArenaAliases(arenaBase, artifactBase, |src|, r.load)
    ensures var m, t, s := Materialize(src, r, arenaBase, artifactBase), r.facts.segs, Stage(src, r, arenaBase);
            var size := ArenaSize(t.minVm, t.maxVm, arenaBase);
            var dst, source := SomeDestination(t.plan, |src|, t.minVm, size), SomeSource(t.plan, |src|, t.minVm);
            && m.staged == s && m.vmBase == t.minVm && m.vmEnd == t.maxVm && m.arenaSize == size
            && (Has(m.fail, FAIL_STAGE_DST_BOUNDS) <==> dst) && (Has(m.fail, FAIL_STAGE_SRC_BOUNDS) <==> source)
            && (Has(m.fail, FAIL_STAGE_COPY) <==> dst || source)
            && (dst || source ==> m.valid == 0 && Without(m.fail, 0x70_0000) == 0)
            && (!dst && !source ==>
                  var reparsed := ReparseAgrees(s.arena, size, r);
                  var marked := MarkersHold(s.arena, size, t.minVm, r.facts.sects.key);
                  var zeroed := ZeroFillHolds(s.entries, s.arena, size);
                  && (Has(m.fail, FAIL_STAGE_REPARSE) <==> !reparsed) && (Has(m.fail, FAIL_STAGE_MARKERS) <==> !marked)
                  && (Has(m.fail, FAIL_STAGE_ZERO_FILL) <==> !zeroed) && Without(m.fail, 0x380_0000) == 0
                  && Has(m.valid, VALID_STAGING) && (Has(m.valid, VALID_MATERIALIZED_PARSE) <==> reparsed)
                  && (Has(m.valid, VALID_MARKERS) <==> marked) && (Has(m.valid, VALID_ZERO_FILL) <==> zeroed)
                  && Without(m.valid, 0x3_c000) == 0)
  {
    hide SpanFits, ArenaSize, ArenaAliases, StageAll, VerdictFail, VerdictValid, MarkersHold, ZeroFillHolds,
         ReparseAgrees, Has, Raise, Without, SomeDestination, SomeSource, EMPTY_STAGED;
    var t, s := r.facts.segs, Stage(src, r, arenaBase);
    var size := ArenaSize(t.minVm, t.maxVm, arenaBase);
    StageBits(src, r, arenaBase);
    CopyBits(SomeDestination(t.plan, |src|, t.minVm, size), SomeSource(t.plan, |src|, t.minVm));
    CheckBits(ReparseAgrees(s.arena, size, r), MarkersHold(s.arena, size, t.minVm, r.facts.sects.key),
              ZeroFillHolds(s.entries, s.arena, size));
    CheckedHasNone(VerdictFail(ReparseAgrees(s.arena, size, r), MarkersHold(s.arena, size, t.minVm, r.facts.sects.key),
                               ZeroFillHolds(s.entries, s.arena, size)));
  }

  lemma CheckedHasNone(m: bv32)
    ensures Without(m, 0x380_0000) == 0 ==> !Has(m, FAIL_STAGE_DST_BOUNDS) && !Has(m, FAIL_STAGE_SRC_BOUNDS)
                                            && !Has(m, FAIL_STAGE_COPY) && !Has(m, FAIL_STAGE_SPAN)
                                            && !Has(m, FAIL_STAGE_ARENA_ALIAS)
    ensures Without(m, 0x70_0000) == 0 ==> !Has(m, FAIL_STAGE_SPAN) && !Has(m, FAIL_STAGE_ARENA_ALIAS)
  {
  }

  lemma StageBits(src: seq<byte>, r: Outcome, arenaBase: u32)
    requires |src| < TWO32 && |r.facts.segs.plan| <= 8
    requires SpanFits(r.facts.segs.minVm, r.facts.segs.maxVm, arenaBase)
    ensures var t, s := r.facts.segs, Stage(src, r, arenaBase);
            var size := ArenaSize(t.minVm, t.maxVm, arenaBase);
            var dst, source := SomeDestination(t.plan, |src|, t.minVm, size), SomeSource(t.plan, |src|, t.minVm);
            && s.fail == Raise(Raise(0, Flag(dst, FAIL_STAGE_DST_BOUNDS)), Flag(source, FAIL_STAGE_SRC_BOUNDS))
            && (|s.entries| == |t.plan| <==> !dst && !source)
            && CopyFault(s, t.plan) == if dst || source then Raise(s.fail, FAIL_STAGE_COPY) else s.fail
  {
    hide SpanFits, ArenaSize, StageAll, Raise, SomeDestination, SomeSource, Zeros;
    var t := r.facts.segs;
    StageAllBits(EMPTY_STAGED, t.plan, src, t.minVm, arenaBase, ArenaSize(t.minVm, t.maxVm, arenaBase));
  }

  /** A placement that is refused, and why. */
  lemma PlacementFaults(src: seq<byte>, r: Outcome, arenaBase: u32, artifactBase: u32)
    requires 0 < |src| < TWO32 && |r.facts.segs.plan| <= 8 && (r.load.physBase < r.load.physEnd || r.load.physEnd == 0)
    ensures var m, t := Materialize(src, r, arenaBase, artifactBase), r.facts.segs;
            var spans := 0 < t.minVm < t.maxVm <= t.minVm + 0x1_0000 && arenaBase + 0x1_0000 < TWO32;
            var aliases := artifactBase + |src| >= TWO32 ||
                           exists x :: InArena(x, arenaBase) && Forbidden(x, artifactBase, |src|, r.load);
            && (!spans ==> m == Staging(EMPTY_STAGED, 0, 0, 0, 0, FAIL_STAGE_SPAN))
            && (spans && aliases ==>
                  m == Staging(EMPTY_STAGED, t.minVm, t.maxVm, (t.maxVm - t.minVm + 0xfff) / 0x1000 * 0x1000, 0,
                               FAIL_STAGE_ARENA_ALIAS))
            && (Has(m.fail, FAIL_STAGE_SPAN) <==> !spans)
            && (Has(m.fail, FAIL_STAGE_ARENA_ALIAS) <==> spans && aliases)
  {
    hide SpanFits, ArenaSize, ArenaAliases, Stage, VerdictFail, VerdictValid, MarkersHold, ZeroFillHolds,
         ReparseAgrees, InArena, Forbidden, Has, Raise, EMPTY_STAGED;
    var t := r.facts.segs;
    SpanMeans(t.minVm, t.maxVm, arenaBase);
    if SpanFits(t.minVm, t.maxVm, arenaBase) {
      AliasMeans(arenaBase, artifactBase, |src|, r.load);
    }
    OwnBits();
    if SpanFits(t.minVm, t.maxVm, arenaBase) && !ArenaAliases(arenaBase, artifactBase, |src|, r.load) {
      LaterBits(src, r, arenaBase, artifactBase);
    }
  }

  lemma LaterBits(src: seq<byte>, r: Outcome, arenaBase: u32, artifactBase: u32)
    requires |src| < TWO32 && |r.facts.segs.plan| <= 8
    requires SpanFits(r.facts.segs.minVm, r.facts.segs.maxVm, arenaBase)
    requires !ArenaAliases(arenaBase, artifactBase, |src|, r.load)
    ensures var m := Materialize(src, r, arenaBase, artifactBase);
            !Has(m.fail, FAIL_STAGE_SPAN) && !Has(m.fail, FAIL_STAGE_ARENA_ALIAS)
  {
    hide *;
    CopyAndCheckFaults(src, r, arenaBase, artifactBase);
    CheckedHasNone(Materialize(src, r, arenaBase, artifactBase).fail);
  }

  /** Every descriptor of a clean staging: copied and zeroed bytes follow each other at the segment's place
      in the arena, and nothing of it wraps. */
  lemma DescriptorsFollow(src: seq<byte>, r: Outcome, arenaBase: u32, i: nat)
    requires |src| < TWO32 && |r.facts.segs.plan| <= 8 && i < |r.facts.segs.plan|
    requires SpanFits(r.facts.segs.minVm, r.facts.segs.maxVm, arenaBase)
    requires Stage(src, r, arenaBase).fail == 0
    ensures var t, s := r.facts.segs, Stage(src, r, arenaBase);
            |s.entries| == |t.plan| &&
            var d, e := s.entries[i], t.plan[i];
            && d.index == i && d.segmentMask == e.segmentMask && d.flags == e.flags
            && d.vmaddr == e.vmaddr && d.vmsize == e.vmsize && d.srcOff == e.fileoff && d.copySize == e.filesize
            && d.arenaOffset + t.minVm == e.vmaddr && d.copyDst == arenaBase + d.arenaOffset
            && d.zeroDst == d.copyDst + d.copySize && d.copySize + d.zeroSize == e.vmsize
            && d.zeroDst + d.zeroSize <= arenaBase + 0x1_0000 < TWO32
  {
    hide Stage, SpanFits, ArenaSize, Stageable;
    var t := r.facts.segs;
    StagedIsPlan(src, r, arenaBase);
    SpanMeans(t.minVm, t.maxVm, arenaBase);
    assert t.plan[i] in t.plan;
    EntryFits(t.plan[i], |src|, t.minVm, ArenaSize(t.minVm, t.maxVm, arenaBase), arenaBase, i);
  }

  lemma EntryFits(e: PlanEntry, fileSize: u32, vmBase: u32, arenaSize: u32, arenaBase: u32, i: u32)
    requires Stageable(e, fileSize, vmBase, arenaSize) && arenaSize <= ARENA_CAP && arenaBase + 0x1_0000 < TWO32
    ensures var d := StageEntryFor(i, e, vmBase, arenaBase);
            && d.copyDst == arenaBase + d.arenaOffset && d.zeroDst == d.copyDst + d.copySize
            && d.zeroDst + d.zeroSize <= arenaBase + 0x1_0000
  {
  }

  /** A failing status carries the failure word in its low bits. */
  lemma StatusCarries(valid: bv32, fail: bv32)
    requires Without(fail, 0xfff_ffff) == 0
    ensures StagingStatus(valid, fail) == STATUS_OK ||
            (StagingStatus(valid, fail) & 0xfff_ffff == fail && Has(StagingStatus(valid, fail), 0x4000_0000))
  {
    hide StatusFail, HasAll, Without, Has;
    FailIsCarried(fail);
  }

  lemma OwnBits()
    ensures Has(FAIL_STAGE_SPAN, FAIL_STAGE_SPAN) && Has(FAIL_STAGE_ARENA_ALIAS, FAIL_STAGE_ARENA_ALIAS)
    ensures !Has(FAIL_STAGE_SPAN, FAIL_STAGE_ARENA_ALIAS) && !Has(FAIL_STAGE_ARENA_ALIAS, FAIL_STAGE_SPAN)
  {
  }
}
