/** Materialization: what the arena holds, when the zero-fill check passes, and when the second
    parse reproduces the first. */
module StagingTheorems {
  import opened Words
  import opened Bits
  import opened Runtime
  import opened Masks
  import opened MachoFormat
  import opened MachoSpec
  import opened MachoLayout
  import opened MachoParse
  import opened MachoPlan
  import opened MachoAccept
  import opened MachoFrame
  import opened StagingSpec
  import opened StagingImage

  // ----- the arena -----

  /** Whatever the plan, the arena is the image of the entries that were staged, and the two byte
      counters together are their memory sizes. */
  lemma ArenaIsImage(src: seq<byte>, r: Outcome, arenaBase: u32)
    requires |src| < TWO32 && SpanFits(r.facts.segs.minVm, r.facts.segs.maxVm, arenaBase)
    ensures var t, s := r.facts.segs, Stage(src, r, arenaBase);
            var size := ArenaSize(t.minVm, t.maxVm, arenaBase);
            && AllInside(s.entries, src, size)
            && IsImage(s.arena, s.entries, src, size)
            && s.fileBytes + s.zeroBytes == MemoryBytes(s.entries)
  {
    hide StageAll, Zeros, ArenaSize, SpanFits;
    var t := r.facts.segs;
    var size := ArenaSize(t.minVm, t.maxVm, arenaBase);
    assert StageInv(EMPTY_STAGED, src, size);
    StageAllKeeps(EMPTY_STAGED, t.plan, src, t.minVm, arenaBase, size);
    BytesBounded(Stage(src, r, arenaBase).entries, src, size);
  }

  /** With nothing raised, the staged entries are the plan's, in order. */
  lemma StagedIsPlan(src: seq<byte>, r: Outcome, arenaBase: u32)
    requires |src| < TWO32 && SpanFits(r.facts.segs.minVm, r.facts.segs.maxVm, arenaBase)
    requires |r.facts.segs.plan| <= 8
    ensures var t, s := r.facts.segs, Stage(src, r, arenaBase);
            var size := ArenaSize(t.minVm, t.maxVm, arenaBase);
            && (s.fail == 0 <==> AllStageable(t.plan, |src|, t.minVm, size))
            && (s.fail == 0 ==>
                  && (forall e :: e in t.plan ==> !DestinationWrong(e, t.minVm))
                  && s.entries == StagedEntries(0, t.plan, t.minVm, arenaBase))
  {
    hide StageAll, Zeros, ArenaSize, SpanFits, Stageable, StagedEntries;
    var t := r.facts.segs;
    var size := ArenaSize(t.minVm, t.maxVm, arenaBase);
    StageAllFails(EMPTY_STAGED, t.plan, src, t.minVm, arenaBase, size);
    if AllStageable(t.plan, |src|, t.minVm, size) {
      StageAllEntries(EMPTY_STAGED, t.plan, src, t.minVm, arenaBase, size);
      assert [] + StagedEntries(0, t.plan, t.minVm, arenaBase) == StagedEntries(0, t.plan, t.minVm, arenaBase);
    }
  }

  /** No entry after the k-th covers the byte. */
  predicate UntouchedAfter(entries: seq<StageEntry>, k: nat, x: nat) {
    forall j :: k < j < |entries| ==> !Covers(entries[j], x)
  }

  /** An entry's own bytes survive when no later entry covers them. */
  lemma {:induction false} OwnByte(entries: seq<StageEntry>, src: seq<byte>, k: nat, x: nat, arenaSize: u32)
    requires AllInside(entries, src, arenaSize) && k < |entries|
    requires Covers(entries[k], x) && UntouchedAfter(entries, k, x)
    ensures EntryInside(entries[k], src, arenaSize)
    ensures ImageByte(entries, src, x, arenaSize) ==
            if CopiesTo(entries[k], x) then src[entries[k].srcOff + (x - entries[k].arenaOffset)] else 0
    decreases |entries|
  {
    var last := |entries| - 1;
    assert entries[last] in entries && entries[k] in entries;
    if k < last {
      assert !Covers(entries[last], x);
      OwnByte(entries[..last], src, k, x, arenaSize);
    }
  }

  // ----- zero fill -----

  /** No later entry writes into the memory of an earlier one. */
  predicate LaterApart(entries: seq<StageEntry>) {
    forall i, j :: 0 <= i < j < |entries| ==> Apart(entries[i], entries[j])
  }

  predicate Apart(a: StageEntry, b: StageEntry) {
    || a.arenaOffset + a.copySize + a.zeroSize <= b.arenaOffset
    || b.arenaOffset + b.copySize + b.zeroSize <= a.arenaOffset
  }

  /** Disjoint entries leave every zero-filled tail zero. */
  lemma ApartMeansZeroFilled(entries: seq<StageEntry>, arena: seq<byte>, src: seq<byte>, arenaSize: u32)
    requires arenaSize <= |arena| && AllInside(entries, src, arenaSize) && IsImage(arena, entries, src, arenaSize)
    requires LaterApart(entries)
    ensures ZeroFillHolds(entries, arena, arenaSize)
  {
    hide LaterApart, TailChecked, IsImage, AllInside;
    forall i | 0 <= i < |entries|
      ensures TailChecked(entries[i], arena, arenaSize)
    {
      TailIsZero(entries, arena, src, arenaSize, i);
    }
  }

  lemma TailIsZero(entries: seq<StageEntry>, arena: seq<byte>, src: seq<byte>, arenaSize: u32, i: nat)
    requires arenaSize <= |arena| && AllInside(entries, src, arenaSize) && IsImage(arena, entries, src, arenaSize)
    requires LaterApart(entries) && i < |entries|
    ensures TailChecked(entries[i], arena, arenaSize)
  {
    hide ImageByte, LaterApart, UntouchedAfter;
    var e := entries[i];
    assert e in entries && EntryInside(e, src, arenaSize);
    forall x | e.arenaOffset + e.copySize <= x < e.arenaOffset + e.copySize + e.zeroSize
      ensures arena[x] == 0
    {
      ApartUntouched(entries, i, x);
      OwnByte(entries, src, i, x, arenaSize);
    }
  }

  lemma ApartUntouched(entries: seq<StageEntry>, i: nat, x: nat)
    requires LaterApart(entries) && i < |entries| && Covers(entries[i], x)
    ensures UntouchedAfter(entries, i, x)
  {
    forall j | i < j < |entries|
      ensures !Covers(entries[j], x)
    {
      assert Apart(entries[i], entries[j]);
    }
  }

  // ----- the second parse -----

  /** The top of the highest planned segment. */
  lemma {:induction false} LastAddrIsMax(plan: seq<PlanEntry>)
    ensures forall e :: e in plan && e.vmaddr + e.vmsize < TWO32 ==> e.vmaddr + e.vmsize <= LastAddr(plan)
    ensures LastAddr(plan) == 0 ||
            exists e :: e in plan && e.vmaddr + e.vmsize < TWO32 && e.vmaddr + e.vmsize == LastAddr(plan)
  {
    if plan != [] {
      var n := |plan| - 1;
      assert plan == plan[..n] + [plan[n]];
      LastAddrIsMax(plan[..n]);
    }
  }

  /** A loadable segment reaches the top of the address range. */
  ghost predicate TopIsLoaded(gs: seq<Segment>, top: u32) {
    exists g :: g in gs && g.vmsize != 0 && g.vmaddr + g.vmsize == top
  }

  /** For an accepted artifact, the highest planned end is the highest segment end exactly when a
      non-empty segment reaches it. */
  lemma LastAddrReachesTop(b: seq<byte>, offs: seq<nat>)
    requires |b| < TWO32 && Accepts(b) && CommandsAt(b, offs)
    ensures AllIn(b, offs)
    ensures LastAddr(Probe(b).facts.segs.plan) == Probe(b).facts.segs.maxVm <==>
            TopIsLoaded(Segments(b, offs), Probe(b).facts.segs.maxVm)
  {
    hide *;
    AcceptedReport(b, offs);
    var gs, t := Segments(b, offs), Probe(b).facts.segs;
    PlanMirrors(Loadable(gs), t.plan, t.minVm);
    LoadableBelow(gs, t.maxVm);
    LastAddrOf(Loadable(gs), t.plan, t.maxVm);
  }

  lemma LoadableBelow(gs: seq<Segment>, top: u32)
    requires IsMaxEnd(gs, top)
    ensures forall g :: g in Loadable(gs) ==> g.vmaddr + g.vmsize <= top
    ensures TopIsLoaded(gs, top) <==> exists g :: g in Loadable(gs) && g.vmaddr + g.vmsize == top
  {
    hide Loadable;
    forall g
      ensures g in Loadable(gs) <==> g in gs && g.vmsize != 0
    {
      LoadableAre(gs, g);
    }
  }

  predicate Mirrors(plan: seq<PlanEntry>, loaded: seq<Segment>) {
    |plan| == |loaded| &&
    forall i :: 0 <= i < |plan| ==>
                  && plan[i].vmaddr == loaded[i].vmaddr && plan[i].vmsize == loaded[i].vmsize
                  && plan[i].fileoff == loaded[i].fileoff && plan[i].filesize == loaded[i].filesize
  }

  /** The highest end in the plan is a given bound exactly when a planned segment reaches it. */
  lemma LastAddrOf(loaded: seq<Segment>, plan: seq<PlanEntry>, top: u32)
    requires Mirrors(plan, loaded) && top > 0
    requires forall g :: g in loaded ==> g.vmaddr + g.vmsize <= top
    ensures LastAddr(plan) == top <==> exists g :: g in loaded && g.vmaddr + g.vmsize == top
  {
    hide LastAddr;
    LastAddrIsMax(plan);
    if g :| g in loaded && g.vmaddr + g.vmsize == top {
      var i :| 0 <= i < |loaded| && loaded[i] == g;
      assert plan[i] in plan;
    }
    LastAddrBelow(loaded, plan, top);
  }

  lemma LastAddrBelow(loaded: seq<Segment>, plan: seq<PlanEntry>, top: u32)
    requires Mirrors(plan, loaded) && top > 0
    requires forall g :: g in loaded ==> g.vmaddr + g.vmsize <= top
    ensures LastAddr(plan) <= top
    ensures LastAddr(plan) == top ==> exists g :: g in loaded && g.vmaddr + g.vmsize == top
  {
    hide LastAddr;
    if LastAddr(plan) != 0 {
      var j := LastAddrAttained(plan);
      assert loaded[j] in loaded;
    }
  }

  lemma LastAddrAttained(plan: seq<PlanEntry>) returns (j: nat)
    requires LastAddr(plan) != 0
    ensures j < |plan| && plan[j].vmaddr + plan[j].vmsize == LastAddr(plan)
  {
    hide LastAddr;
    LastAddrIsMax(plan);
    var e :| e in plan && e.vmaddr + e.vmsize < TWO32 && e.vmaddr + e.vmsize == LastAddr(plan);
    j :| 0 <= j < |plan| && plan[j] == e;
  }

  lemma PlanMirrors(loaded: seq<Segment>, plan: seq<PlanEntry>, base: u32)
    requires Named(loaded) && |loaded| <= 8 && AllFit(Planned(0, loaded), base)
    requires plan == PlacedEntries(Planned(0, loaded), base)
    ensures Mirrors(plan, loaded)
  {
    hide Planned, PlacedEntries, RoundPage;
    forall i | 0 <= i < |plan|
      ensures && plan[i].vmaddr == loaded[i].vmaddr && plan[i].vmsize == loaded[i].vmsize
              && plan[i].fileoff == loaded[i].fileoff && plan[i].filesize == loaded[i].filesize
    {
      assert Planned(0, loaded)[i] in Planned(0, loaded);
    }
  }

  /** Entry k puts the first `n` bytes of the file at the start of the arena and nothing after it
      covers them. */
  predicate HeaderStaged(entries: seq<StageEntry>, k: nat, n: nat) {
    && k < |entries|
    && entries[k].arenaOffset == 0 && entries[k].srcOff == 0 && n <= entries[k].copySize
    && forall j :: k < j < |entries| ==> !CoversBelow(entries[j], n)
  }

  predicate CoversBelow(e: StageEntry, n: nat) {
    e.arenaOffset < n && e.copySize + e.zeroSize > 0
  }

  lemma StagedHeaderSurvives(entries: seq<StageEntry>, arena: seq<byte>, src: seq<byte>, arenaSize: u32, k: nat, n: nat)
    requires arenaSize <= |arena| && AllInside(entries, src, arenaSize) && IsImage(arena, entries, src, arenaSize)
    requires HeaderStaged(entries, k, n)
    ensures n <= arenaSize && SamePrefix(src, arena[..arenaSize], n)
  {
    hide ImageByte;
    assert entries[k] in entries && EntryInside(entries[k], src, arenaSize);
    forall x | 0 <= x < n
      ensures arena[x] == src[x]
    {
      forall j | k < j < |entries|
        ensures !Covers(entries[j], x)
      {
        assert !CoversBelow(entries[j], n);
      }
      OwnByte(entries, src, k, x, arenaSize);
    }
    assert src[..n] == arena[..arenaSize][..n];
  }

  /** Materialization reproduces the report of an accepted artifact exactly when the arena is as long
      as every file range the commands name, and a non-empty segment reaches the top. The header and
      commands must be in a segment that starts the arena and is not overwritten. */
  lemma ReparseExactly(b: seq<byte>, offs: seq<nat>, arenaBase: u32, k: nat)
    requires |b| < TWO32 && Accepts(b) && CommandsAt(b, offs) && AllIn(b, offs)
    requires SpanFits(Probe(b).facts.segs.minVm, Probe(b).facts.segs.maxVm, arenaBase)
    requires HeaderStaged(Stage(b, Probe(b), arenaBase).entries, k, RegionEnd(b))
    ensures var r := Probe(b);
            var size := ArenaSize(r.facts.segs.minVm, r.facts.segs.maxVm, arenaBase);
            ReparseAgrees(Stage(b, r, arenaBase).arena, size, r) <==>
            AllExtentsFit(b, offs, size) && TopIsLoaded(Segments(b, offs), r.facts.segs.maxVm)
  {
    hide Probe, Segments, CommandsAt, Stage, ArenaSize, SpanFits, HeaderStaged, AllExtentsFit, TopIsLoaded, LastAddr,
         SamePrefix, AllInside, IsImage, AllIn, HasRegion;
    var r := Probe(b);
    var size := ArenaSize(r.facts.segs.minVm, r.facts.segs.maxVm, arenaBase);
    var s := Stage(b, r, arenaBase);
    ArenaIsImage(b, r, arenaBase);
    assert HasRegion(b) by { RegionOfCommands(b, offs); }
    StagedHeaderSurvives(s.entries, s.arena, b, size, k, RegionEnd(b));
    ProbeFrame(b, s.arena[..size], offs);
    LastAddrReachesTop(b, offs);
  }

  lemma RegionOfCommands(b: seq<byte>, offs: seq<nat>)
    requires CommandsAt(b, offs)
    ensures HasRegion(b)
  {
  }

  // ----- the whole materialization, from the artifact's segments -----

  predicate FileWithinMemory(loaded: seq<Segment>) {
    forall g :: g in loaded ==> g.filesize <= g.vmsize
  }

  /** The prober lets a segment's file bytes exceed its memory; the copier does not. For an accepted
      artifact that is the only way copying can fail. */
  lemma AcceptedCopies(b: seq<byte>, offs: seq<nat>, arenaBase: u32)
    requires |b| < TWO32 && Accepts(b) && CommandsAt(b, offs) && AllIn(b, offs)
    requires SpanFits(Probe(b).facts.segs.minVm, Probe(b).facts.segs.maxVm, arenaBase)
    ensures CopiedAll(Stage(b, Probe(b), arenaBase), Probe(b).facts.segs.plan) <==>
            FileWithinMemory(Loadable(Segments(b, offs)))
    ensures FileWithinMemory(Loadable(Segments(b, offs))) ==>
              EntriesMirror(Stage(b, Probe(b), arenaBase).entries, Loadable(Segments(b, offs)),
                            Probe(b).facts.segs.minVm)
  {
    hide *;
    SizeIsWord(b);
    AcceptedReport(b, offs);
    var gs, t := Segments(b, offs), Probe(b).facts.segs;
    var size := ArenaSize(t.minVm, t.maxVm, arenaBase);
    PlanMirrors(Loadable(gs), t.plan, t.minVm);
    AcceptedExtents(b, offs, t.minVm, t.maxVm);
    SpanCovers(t.minVm, t.maxVm, arenaBase);
    StageableMirror(t.plan, Loadable(gs), |b|, t.minVm, t.maxVm, size);
    MirrorsLength(t.plan, Loadable(gs));
    StagedIsPlan(b, Probe(b), arenaBase);
    CopiedMeaning(Stage(b, Probe(b), arenaBase), t.plan, t.minVm, arenaBase);
    if FileWithinMemory(Loadable(gs)) {
      EntriesFollow(t.plan, Loadable(gs), t.minVm, arenaBase);
    }
  }

  lemma SizeIsWord(b: seq<byte>)
    requires |b| < TWO32
    ensures |b| < 0x1_0000_0000
  {
  }

  lemma MirrorsLength(plan: seq<PlanEntry>, loaded: seq<Segment>)
    ensures Mirrors(plan, loaded) ==> |plan| == |loaded|
  {
  }

  lemma CopiedMeaning(s: Staged, plan: seq<PlanEntry>, base: u32, arenaBase: u32)
    requires |plan| <= 8
    requires s.fail == 0 ==>
               && (forall e :: e in plan ==> !DestinationWrong(e, base))
               && s.entries == StagedEntries(0, plan, base, arenaBase)
    ensures CopiedAll(s, plan) <==> s.fail == 0
  {
  }

  /** Each loadable segment starts at or above the base, ends at or below the top, and has its bytes
      in the file. */
  predicate InBounds(loaded: seq<Segment>, fileSize: u32, base: u32, top: u32) {
    forall g :: g in loaded ==> base <= g.vmaddr && g.vmaddr + g.vmsize <= top && g.fileoff + g.filesize <= fileSize
  }

  lemma AcceptedExtents(b: seq<byte>, offs: seq<nat>, base: u32, top: u32)
    requires |b| < TWO32 && AllIn(b, offs) && ContentsGood(b, offs)
    requires IsMinStart(Segments(b, offs), base) && IsMaxEnd(Segments(b, offs), top)
    ensures InBounds(Loadable(Segments(b, offs)), |b|, base, top)
  {
    hide Segments, SegmentAt, HasSegment, HasSection, HasEntryCommand, PlanSound, Loadable;
    var gs := Segments(b, offs);
    forall g | g in Loadable(gs)
      ensures base <= g.vmaddr && g.vmaddr + g.vmsize <= top && g.fileoff + g.filesize <= |b|
    {
      LoadableAre(gs, g);
      SegmentsFromCommands(b, offs, g);
      var o :| o in offs && IsSegment(b, o) && SegmentAt(b, o) == g;
      assert CommandSound(b, o, |b|);
    }
  }

  lemma SpanCovers(minVm: u32, maxVm: u32, arenaBase: u32)
    requires SpanFits(minVm, maxVm, arenaBase)
    ensures minVm < maxVm && maxVm - minVm <= ArenaSize(minVm, maxVm, arenaBase)
  {
    hide RoundPage;
    RoundPageAligns(maxVm - minVm);
  }

  lemma StageableMirror(plan: seq<PlanEntry>, loaded: seq<Segment>, fileSize: u32, base: u32, top: u32, size: u32)
    requires Mirrors(plan, loaded) && InBounds(loaded, fileSize, base, top) && base < top && top - base <= size
    ensures AllStageable(plan, fileSize, base, size) <==> FileWithinMemory(loaded)
  {
    hide Stageable;
    forall i | 0 <= i < |plan|
      ensures plan[i] in plan && loaded[i] in loaded
      ensures Stageable(plan[i], fileSize, base, size) <==> loaded[i].filesize <= loaded[i].vmsize
    {
      StageableMeans(plan[i], loaded[i], fileSize, base, top, size);
    }
    if AllStageable(plan, fileSize, base, size) {
      forall g | g in loaded
        ensures g.filesize <= g.vmsize
      {
        var i :| 0 <= i < |loaded| && loaded[i] == g;
        assert plan[i] in plan;
      }
    }
  }

  lemma StageableMeans(e: PlanEntry, g: Segment, fileSize: u32, base: u32, top: u32, size: u32)
    requires e.vmaddr == g.vmaddr && e.vmsize == g.vmsize && e.fileoff == g.fileoff && e.filesize == g.filesize
    requires base <= g.vmaddr && g.vmaddr + g.vmsize <= top && g.fileoff + g.filesize <= fileSize
    requires base < top && top - base <= size
    ensures Stageable(e, fileSize, base, size) <==> g.filesize <= g.vmsize
  {
  }

  /** The staged entries describe the loadable segments, in order, relative to the base. */
  predicate EntriesMirror(entries: seq<StageEntry>, loaded: seq<Segment>, base: u32) {
    |entries| == |loaded| &&
    forall i :: 0 <= i < |entries| ==>
                  && entries[i].arenaOffset + base == loaded[i].vmaddr
                  && entries[i].srcOff == loaded[i].fileoff && entries[i].copySize == loaded[i].filesize
                  && entries[i].copySize + entries[i].zeroSize == loaded[i].vmsize
  }

  lemma EntriesFollow(plan: seq<PlanEntry>, loaded: seq<Segment>, base: u32, arenaBase: u32)
    requires Mirrors(plan, loaded) && |plan| <= 8
    requires forall e :: e in plan ==> !DestinationWrong(e, base)
    ensures EntriesMirror(StagedEntries(0, plan, base, arenaBase), loaded, base)
  {
    hide StagedEntries;
    forall i | 0 <= i < |plan|
      ensures plan[i] in plan
    {
    }
  }

  predicate VmDisjoint(loaded: seq<Segment>) {
    forall i, j :: 0 <= i < j < |loaded| ==> VmApart(loaded[i], loaded[j])
  }

  predicate VmApart(g: Segment, h: Segment) {
    g.vmaddr + g.vmsize <= h.vmaddr || h.vmaddr + h.vmsize <= g.vmaddr
  }

  /** Segment k carries the header and the commands: file offset 0, lowest address, long enough. */
  predicate HeaderSegment(loaded: seq<Segment>, k: nat, base: u32, n: nat) {
    k < |loaded| && loaded[k].vmaddr == base && loaded[k].fileoff == 0 && n <= loaded[k].filesize
  }

  lemma DisjointStaging(entries: seq<StageEntry>, loaded: seq<Segment>, base: u32, k: nat, n: nat)
    requires EntriesMirror(entries, loaded, base) && VmDisjoint(loaded) && HeaderSegment(loaded, k, base, n)
    ensures LaterApart(entries) && HeaderStaged(entries, k, n)
  {
    forall i, j | 0 <= i < j < |entries|
      ensures Apart(entries[i], entries[j])
    {
      assert VmApart(loaded[i], loaded[j]);
    }
    forall j | k < j < |entries|
      ensures !CoversBelow(entries[j], n)
    {
      assert Apart(entries[k], entries[j]);
    }
  }

  // ----- the markers, from the bytes of the file -----

  /** A loaded segment brings this byte of the file to this address. */
  predicate BringsByte(b: seq<byte>, g: Segment, addr: nat, c: byte) {
    && g.vmaddr <= addr < g.vmaddr + g.filesize
    && g.fileoff + (addr - g.vmaddr) < |b| && b[g.fileoff + (addr - g.vmaddr)] == c
  }

  predicate ByteInFile(b: seq<byte>, loaded: seq<Segment>, addr: nat, c: byte) {
    exists g :: g in loaded && BringsByte(b, g, addr, c)
  }

  predicate TextInFile(b: seq<byte>, loaded: seq<Segment>, addr: nat, text: string) {
    forall i :: 0 <= i < |text| ==> ByteInFile(b, loaded, addr + i, Ascii(text)[i])
  }

  /** The file holds the three markers where the segments put the recorded sections. */
  predicate MarkersInFile(b: seq<byte>, loaded: seq<Segment>, key: KeySections) {
    && TextInFile(b, loaded, key.text.addr, TEXT_MARKER)
    && TextInFile(b, loaded, key.dataConst.addr, DATA_MARKER)
    && TextInFile(b, loaded, key.prelinkText.addr, PRELINK_MARKER)
  }

  /** A byte that is not zero has been copied by some entry. */
  lemma {:induction false} CopiedByte(entries: seq<StageEntry>, src: seq<byte>, x: nat, arenaSize: u32) returns (k: nat)
    requires AllInside(entries, src, arenaSize) && ImageByte(entries, src, x, arenaSize) != 0
    ensures k < |entries| && CopiesTo(entries[k], x) && EntryInside(entries[k], src, arenaSize)
    ensures src[entries[k].srcOff + (x - entries[k].arenaOffset)] == ImageByte(entries, src, x, arenaSize)
    decreases |entries|
  {
    var last := |entries| - 1;
    assert entries[last] in entries;
    if CopiesTo(entries[last], x) {
      k := last;
    } else {
      k := CopiedByte(entries[..last], src, x, arenaSize);
    }
  }

  lemma ImageIsFile(entries: seq<StageEntry>, loaded: seq<Segment>, base: u32, src: seq<byte>, arenaSize: u32,
                    x: nat, c: byte)
    requires AllInside(entries, src, arenaSize) && LaterApart(entries) && EntriesMirror(entries, loaded, base)
    requires c != 0
    ensures ImageByte(entries, src, x, arenaSize) == c <==> ByteInFile(src, loaded, base + x, c)
  {
    hide ImageByte, LaterApart, UntouchedAfter, AllInside;
    if ImageByte(entries, src, x, arenaSize) == c {
      var k := CopiedByte(entries, src, x, arenaSize);
      assert BringsByte(src, loaded[k], base + x, c);
    }
    if g :| g in loaded && BringsByte(src, g, base + x, c) {
      var k :| 0 <= k < |loaded| && loaded[k] == g;
      ApartUntouched(entries, k, x);
      OwnByte(entries, src, k, x, arenaSize);
    }
  }

  /** What a segment brings lies in the arena. */
  lemma BroughtInside(entries: seq<StageEntry>, loaded: seq<Segment>, base: u32, src: seq<byte>, arenaSize: u32,
                     addr: nat, c: byte)
    requires AllInside(entries, src, arenaSize) && EntriesMirror(entries, loaded, base)
    requires ByteInFile(src, loaded, addr, c)
    ensures base <= addr < base + arenaSize
  {
    var g :| g in loaded && BringsByte(src, g, addr, c);
    var k :| 0 <= k < |loaded| && loaded[k] == g;
    assert entries[k] in entries && EntryInside(entries[k], src, arenaSize);
  }

  predicate IsText(text: string) {
    text != [] && forall i :: 0 <= i < |text| ==> Ascii(text)[i] != 0
  }

  lemma TextStands(entries: seq<StageEntry>, loaded: seq<Segment>, base: u32, src: seq<byte>, arena: seq<byte>,
                   arenaSize: u32, addr: u32, text: string)
    requires AllInside(entries, src, arenaSize) && LaterApart(entries) && EntriesMirror(entries, loaded, base)
    requires arenaSize <= |arena| && IsImage(arena, entries, src, arenaSize) && IsText(text)
    ensures MarkerHolds(arena, arenaSize, base, addr, text) <==> TextInFile(src, loaded, addr, text)
  {
    hide ImageByte, LaterApart, AllInside, EntriesMirror, ByteInFile, Ascii;
    if MarkerHolds(arena, arenaSize, base, addr, text) {
      forall i | 0 <= i < |text|
        ensures ByteInFile(src, loaded, addr + i, Ascii(text)[i])
      {
        assert arena[addr - base..addr - base + |text|][i] == arena[addr - base + i];
        ImageIsFile(entries, loaded, base, src, arenaSize, addr - base + i, Ascii(text)[i]);
      }
    }
    if TextInFile(src, loaded, addr, text) {
      BroughtInside(entries, loaded, base, src, arenaSize, addr + 0, Ascii(text)[0]);
      BroughtInside(entries, loaded, base, src, arenaSize, addr + (|text| - 1), Ascii(text)[|text| - 1]);
      forall i | 0 <= i < |text|
        ensures arena[addr - base + i] == Ascii(text)[i]
      {
        ImageIsFile(entries, loaded, base, src, arenaSize, addr - base + i, Ascii(text)[i]);
      }
      assert arena[addr - base..addr - base + |text|] == Ascii(text);
    }
  }

  lemma MarkersAreTexts()
    ensures IsText(TEXT_MARKER) && IsText(DATA_MARKER) && IsText(PRELINK_MARKER)
  {
  }

  /** With disjoint segments the markers stand in the arena exactly when the file holds them. */
  lemma MarkersStand(entries: seq<StageEntry>, loaded: seq<Segment>, base: u32, src: seq<byte>, arena: seq<byte>,
                     arenaSize: u32, key: KeySections)
    requires AllInside(entries, src, arenaSize) && LaterApart(entries) && EntriesMirror(entries, loaded, base)
    requires arenaSize <= |arena| && IsImage(arena, entries, src, arenaSize)
    ensures MarkersHold(arena, arenaSize, base, key) <==> MarkersInFile(src, loaded, key)
  {
    hide AllInside, LaterApart, EntriesMirror, IsImage, MarkerHolds, TextInFile, IsText;
    MarkersAreTexts();
    TextStands(entries, loaded, base, src, arena, arenaSize, key.text.addr, TEXT_MARKER);
    TextStands(entries, loaded, base, src, arena, arenaSize, key.dataConst.addr, DATA_MARKER);
    TextStands(entries, loaded, base, src, arena, arenaSize, key.prelinkText.addr, PRELINK_MARKER);
  }

  lemma FlagsOfOutcome(reparsed: bool, marked: bool, zeroed: bool)
    ensures VerdictFail(reparsed, marked, zeroed) == 0 <==> reparsed && marked && zeroed
    ensures reparsed && marked && zeroed ==> HasAll(VerdictValid(reparsed, marked, zeroed), VALID_STAGED)
  {
    hide Raise, HasAll;
    var x := Raise(0, Flag(!reparsed, FAIL_STAGE_REPARSE));
    RaiseNothing(0, Flag(!reparsed, FAIL_STAGE_REPARSE));
    RaiseNothing(x, Flag(!marked, FAIL_STAGE_MARKERS));
    RaiseNothing(Raise(x, Flag(!marked, FAIL_STAGE_MARKERS)), Flag(!zeroed, FAIL_STAGE_ZERO_FILL));
    AllStaged();
  }

  lemma AllStaged()
    ensures HasAll(Raise(Raise(Raise(VALID_STAGING, VALID_MATERIALIZED_PARSE), VALID_MARKERS), VALID_ZERO_FILL),
                   VALID_STAGED)
  {
  }

  lemma CopyFaultMeaning(s: Staged, plan: seq<PlanEntry>)
    ensures CopyFault(s, plan) == 0 <==> CopiedAll(s, plan)
  {
    hide Raise;
    RaiseNothing(s.fail, FAIL_STAGE_COPY);
  }

  /** Materialization of an accepted artifact with disjoint segments, one of which starts the arena
      with the header and the commands: it succeeds exactly when no segment has more file bytes than
      memory, every file range the commands name ends within the arena size, a non-empty segment reaches
      the top address, and the file holds the three markers where the segments put their sections. */
  lemma MaterializeExactly(b: seq<byte>, offs: seq<nat>, arenaBase: u32, artifactBase: u32, k: nat)
    requires |b| < TWO32 && Accepts(b) && CommandsAt(b, offs) && AllIn(b, offs)
    requires SpanFits(Probe(b).facts.segs.minVm, Probe(b).facts.segs.maxVm, arenaBase)
    requires !ArenaAliases(arenaBase, artifactBase, |b|, Probe(b).load)
    requires VmDisjoint(Loadable(Segments(b, offs)))
    requires HeaderSegment(Loadable(Segments(b, offs)), k, Probe(b).facts.segs.minVm, RegionEnd(b))
    ensures var r, m := Probe(b), Materialize(b, Probe(b), arenaBase, artifactBase);
            var size := ArenaSize(r.facts.segs.minVm, r.facts.segs.maxVm, arenaBase);
            StagingStatus(m.valid, m.fail) == STATUS_OK <==>
            && FileWithinMemory(Loadable(Segments(b, offs)))
            && AllExtentsFit(b, offs, size)
            && TopIsLoaded(Segments(b, offs), r.facts.segs.maxVm)
            && MarkersInFile(b, Loadable(Segments(b, offs)), r.facts.sects.key)
  {
    hide *;
    RegionOfCommands(b, offs);
    var r, loaded := Probe(b), Loadable(Segments(b, offs));
    var size := ArenaSize(r.facts.segs.minVm, r.facts.segs.maxVm, arenaBase);
    var s := Stage(b, r, arenaBase);
    AcceptedCopies(b, offs, arenaBase);
    if FileWithinMemory(loaded) {
      ArenaIsImage(b, r, arenaBase);
      DisjointStaging(s.entries, loaded, r.facts.segs.minVm, k, RegionEnd(b));
      ApartMeansZeroFilled(s.entries, s.arena, b, size);
      ReparseExactly(b, offs, arenaBase, k);
      MarkersStand(s.entries, loaded, r.facts.segs.minVm, b, s.arena, size, r.facts.sects.key);
    }
    MaterializeMeaning(b, r, arenaBase, artifactBase);
  }

  /** Success is a clean failure mask, and that is success of the copying and of all three checks. */
  lemma MaterializeMeaning(b: seq<byte>, r: Outcome, arenaBase: u32, artifactBase: u32)
    requires |b| < TWO32 && SpanFits(r.facts.segs.minVm, r.facts.segs.maxVm, arenaBase)
    requires !ArenaAliases(arenaBase, artifactBase, |b|, r.load)
    ensures var s, size := Stage(b, r, arenaBase), ArenaSize(r.facts.segs.minVm, r.facts.segs.maxVm, arenaBase);
            var m := Materialize(b, r, arenaBase, artifactBase);
            && (m.fail == 0 <==>
                  && CopiedAll(s, r.facts.segs.plan) && ReparseAgrees(s.arena, size, r)
                  && MarkersHold(s.arena, size, r.facts.segs.minVm, r.facts.sects.key)
                  && ZeroFillHolds(s.entries, s.arena, size))
            && (m.fail == 0 <==> StagingStatus(m.valid, m.fail) == STATUS_OK)
  {
    hide *;
    var s, size := Stage(b, r, arenaBase), ArenaSize(r.facts.segs.minVm, r.facts.segs.maxVm, arenaBase);
    var m := Materialize(b, r, arenaBase, artifactBase);
    CopyFaultMeaning(s, r.facts.segs.plan);
    MaterializeUnfolds(b, r, arenaBase, artifactBase);
    FlagsOfOutcome(ReparseAgrees(s.arena, size, r), MarkersHold(s.arena, size, r.facts.segs.minVm, r.facts.sects.key),
                   ZeroFillHolds(s.entries, s.arena, size));
    StatusMeans(m.valid, m.fail);
  }

  lemma StatusMeans(valid: bv32, fail: bv32)
    ensures StagingStatus(valid, fail) == STATUS_OK <==> fail == 0 && HasAll(valid, VALID_STAGED)
  {
    hide HasAll, StatusFail;
    StatusFailIsNotOk(fail);
  }

  lemma MaterializeUnfolds(b: seq<byte>, r: Outcome, arenaBase: u32, artifactBase: u32)
    requires |b| < TWO32 && SpanFits(r.facts.segs.minVm, r.facts.segs.maxVm, arenaBase)
    requires !ArenaAliases(arenaBase, artifactBase, |b|, r.load)
    ensures var s, size := Stage(b, r, arenaBase), ArenaSize(r.facts.segs.minVm, r.facts.segs.maxVm, arenaBase);
            var m := Materialize(b, r, arenaBase, artifactBase);
            var reparsed, zeroed := ReparseAgrees(s.arena, size, r), ZeroFillHolds(s.entries, s.arena, size);
            var marked := MarkersHold(s.arena, size, r.facts.segs.minVm, r.facts.sects.key);
            if CopyFault(s, r.facts.segs.plan) != 0 then m.fail != 0
            else && m.fail == VerdictFail(reparsed, marked, zeroed)
                 && m.valid == VerdictValid(reparsed, marked, zeroed)
  {
    hide Stage, ArenaSize, SpanFits, ArenaAliases, ReparseAgrees, ZeroFillHolds, CopyFault, MarkersHold,
         VerdictValid, VerdictFail;
  }
}
