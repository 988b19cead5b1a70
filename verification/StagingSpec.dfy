/** Copying the planned segments into the staging arena, as functions on values. */
module StagingSpec {
  import opened Words
  import opened Runtime
  import opened Masks
  import opened MachoFormat
  import opened MachoSpec

  const ARENA_CAP: u32 := 0x1_0000
  const STAGE_MAX: nat := 8

  datatype StageEntry = StageEntry(index: u32, segmentMask: bv32, vmaddr: u32, vmsize: u32,
                                   srcOff: u32, copyDst: u32, copySize: u32, zeroDst: u32, zeroSize: u32,
                                   arenaOffset: u32, flags: bv32)

  /** The entries staged so far, the arena they were written to, the byte counts, the bits raised. */
  datatype Staged = Staged(entries: seq<StageEntry>, arena: seq<byte>,
                           fileBytes: u32, zeroBytes: u32, fail: bv32)

  predicate DestinationWrong(e: PlanEntry, vmBase: u32) {
    e.vmaddr < vmBase || e.filesize > e.vmsize
  }

  predicate DestinationEscapes(e: PlanEntry, vmBase: u32, arenaSize: u32)
    requires vmBase <= e.vmaddr
  {
    RangeEscapes(e.vmaddr - vmBase, e.vmsize, arenaSize) || RangeEscapes(e.vmaddr - vmBase, e.filesize, arenaSize)
  }

  function StageEntryFor(index: u32, e: PlanEntry, vmBase: u32, arenaBase: u32): StageEntry
    requires !DestinationWrong(e, vmBase)
  {
    var offset := e.vmaddr - vmBase;
    StageEntry(index, e.segmentMask, e.vmaddr, e.vmsize, e.fileoff, Add32(arenaBase, offset), e.filesize,
               Add32(Add32(arenaBase, offset), e.filesize), e.vmsize - e.filesize, offset, e.flags)
  }

  /** The entry passes every bounds check of the staging loop. */
  predicate Stageable(e: PlanEntry, fileSize: u32, vmBase: u32, arenaSize: u32) {
    && !DestinationWrong(e, vmBase)
    && !RangeEscapes(e.fileoff, e.filesize, fileSize)
    && !DestinationEscapes(e, vmBase, arenaSize)
  }

  /** File bytes first, zeros up to the memory size after them. */
  function WriteEntry(arena: seq<byte>, src: seq<byte>, e: PlanEntry, vmBase: u32): (r: seq<byte>)
    requires vmBase <= e.vmaddr && e.filesize <= e.vmsize && e.vmaddr - vmBase + e.vmsize <= |arena|
    requires e.fileoff + e.filesize <= |src|
    ensures |r| == |arena|
  {
    var offset := e.vmaddr - vmBase;
    Blit(Blit(arena, offset, src[e.fileoff..e.fileoff + e.filesize]),
         offset + e.filesize, Zeros(e.vmsize - e.filesize))
  }

  function StageOne(s: Staged, e: PlanEntry, src: seq<byte>, vmBase: u32, arenaBase: u32, arenaSize: u32): (r: Staged)
    requires |src| < TWO32 && arenaSize <= |s.arena| && |s.entries| < 8
    ensures |r.arena| == |s.arena| && |r.entries| <= |s.entries| + 1
  {
    if DestinationWrong(e, vmBase) then s.(fail := Raise(s.fail, FAIL_STAGE_DST_BOUNDS))
    else if RangeEscapes(e.fileoff, e.filesize, |src|) then s.(fail := Raise(s.fail, FAIL_STAGE_SRC_BOUNDS))
    else if DestinationEscapes(e, vmBase, arenaSize) then s.(fail := Raise(s.fail, FAIL_STAGE_DST_BOUNDS))
    else Staged(s.entries + [StageEntryFor(|s.entries|, e, vmBase, arenaBase)],
                WriteEntry(s.arena, src, e, vmBase),
                Add32(s.fileBytes, e.filesize), Add32(s.zeroBytes, e.vmsize - e.filesize), s.fail)
  }

  function StageAll(s: Staged, plan: seq<PlanEntry>, src: seq<byte>, vmBase: u32, arenaBase: u32, arenaSize: u32)
    : (r: Staged)
    requires |src| < TWO32 && arenaSize <= |s.arena|
    ensures |r.arena| == |s.arena|
    decreases |plan|
  {
    if plan == [] then s
    else if |s.entries| >= STAGE_MAX then s.(fail := Raise(s.fail, FAIL_STAGE_PLAN_FULL))
    else StageAll(StageOne(s, plan[0], src, vmBase, arenaBase, arenaSize),
                  plan[1..], src, vmBase, arenaBase, arenaSize)
  }

  // ----- before the loop -----

  /** The end of the arena as it is recorded: zero when it would wrap. */
  function ArenaEnd(arenaBase: u32): (r: u32)
    ensures r == if arenaBase + ARENA_CAP < TWO32 then arenaBase + ARENA_CAP else 0
  {
    if AddOverflow(arenaBase, ARENA_CAP) then 0 else Add32(arenaBase, ARENA_CAP)
  }

  /** The addresses the arena must stay away from, compared as the source compares them. */
  predicate ArenaAliases(arenaBase: u32, artifactBase: u32, artifactSize: u32, load: Load)
    requires arenaBase + ARENA_CAP < TWO32
  {
    var arenaEnd := arenaBase + ARENA_CAP;
    || AddOverflow(artifactBase, artifactSize)
    || (arenaBase < Add32(artifactBase, artifactSize) && artifactBase < arenaEnd)
    || (arenaBase < RAM_CONSOLE_BASE + RAM_CONSOLE_SIZE && RAM_CONSOLE_BASE < arenaEnd)
    || (load.physEnd != 0 && arenaBase < load.physEnd && load.physBase < arenaEnd)
    || arenaBase >= 0xf000_0000 || arenaEnd > 0xf000_0000
  }

  /** The span of the segments, rounded to pages, must fit the arena. */
  predicate SpanFits(minVm: u32, maxVm: u32, arenaBase: u32) {
    && !AddOverflow(arenaBase, ARENA_CAP)
    && minVm != 0 && minVm < maxVm
    && AlignUpChecked(maxVm - minVm, PAGE_SIZE).Aligned?
    && AlignUpChecked(maxVm - minVm, PAGE_SIZE).value <= ARENA_CAP
  }

  function ArenaSize(minVm: u32, maxVm: u32, arenaBase: u32): (r: u32)
    requires SpanFits(minVm, maxVm, arenaBase)
    ensures r <= ARENA_CAP
  {
    AlignUpChecked(maxVm - minVm, PAGE_SIZE).value
  }

  // ----- after the loop -----

  /** The second parse agrees with the first. */
  predicate Agrees(m: Outcome, r: Outcome) {
    && m.header.magic == r.header.magic
    && m.header.cputype == r.header.cputype
    && m.header.cpusubtype == r.header.cpusubtype
    && m.header.filetype == r.header.filetype
    && m.header.ncmds == r.header.ncmds
    && m.facts.segs.mask == r.facts.segs.mask
    && m.facts.sects.mask == r.facts.sects.mask
    && m.facts.segs.minVm == r.facts.segs.minVm
    && m.facts.segs.maxVm == r.facts.segs.maxVm
    && m.load.vmBase == r.load.vmBase
    && m.load.vmEnd == r.load.vmEnd
    && LastAddr(m.facts.segs.plan) == LastAddr(r.facts.segs.plan)
    && LastAddr(m.facts.segs.plan) == r.facts.segs.maxVm
  }

  /** Probing the arena reproduces the report. */
  predicate ReparseAgrees(arena: seq<byte>, arenaSize: u32, r: Outcome)
    requires arenaSize <= |arena|
  {
    Accepts(arena[..arenaSize]) && Agrees(Probe(arena[..arenaSize]), r)
  }

  predicate ZeroFrom(arena: seq<byte>, lo: nat, n: nat) {
    forall x :: lo <= x < lo + n && x < |arena| ==> arena[x] == 0
  }

  predicate TailChecked(e: StageEntry, arena: seq<byte>, arenaSize: u32) {
    && Add32(Add32(e.arenaOffset, e.copySize), e.zeroSize) <= arenaSize
    && ZeroFrom(arena, Add32(e.arenaOffset, e.copySize), e.zeroSize)
  }

  /** Every zero-filled tail of the staged entries reads back as zeros. */
  predicate ZeroFillHolds(entries: seq<StageEntry>, arena: seq<byte>, arenaSize: u32) {
    forall i :: 0 <= i < |entries| && entries[i].zeroSize != 0 ==> TailChecked(entries[i], arena, arenaSize)
  }

  /** The bytes at a section's place in the arena start with a text. */
  predicate MarkerHolds(arena: seq<byte>, arenaSize: u32, vmBase: u32, vmaddr: u32, text: string) {
    && vmBase <= vmaddr && vmaddr - vmBase < arenaSize
    && vmaddr - vmBase + |text| <= |arena|
    && arena[vmaddr - vmBase..vmaddr - vmBase + |text|] == Ascii(text)
  }

  const TEXT_MARKER := "ST90-TEXT"
  const DATA_MARKER := "ST90-DATA"
  const PRELINK_MARKER := "ST90-PRELINK-TEXT"

  /** All three markers stand at the sections the prober recorded. */
  predicate MarkersHold(arena: seq<byte>, arenaSize: u32, vmBase: u32, key: KeySections) {
    && MarkerHolds(arena, arenaSize, vmBase, key.text.addr, TEXT_MARKER)
    && MarkerHolds(arena, arenaSize, vmBase, key.dataConst.addr, DATA_MARKER)
    && MarkerHolds(arena, arenaSize, vmBase, key.prelinkText.addr, PRELINK_MARKER)
  }

  datatype Staging = Staging(staged: Staged, vmBase: u32, vmEnd: u32, arenaSize: u32, valid: bv32, fail: bv32)

  /** Success takes a clean failure mask and all four staging bits. */
  function StagingStatus(valid: bv32, fail: bv32): bv32 {
    if fail == 0 && HasAll(valid, VALID_STAGED) then STATUS_OK else StatusFail(fail)
  }

  const EMPTY_STAGED := Staged([], Zeros(ARENA_CAP), 0, 0, 0)

  function Stage(src: seq<byte>, r: Outcome, arenaBase: u32): (s: Staged)
    requires |src| < TWO32
    requires SpanFits(r.facts.segs.minVm, r.facts.segs.maxVm, arenaBase)
    ensures |s.arena| == ARENA_CAP
  {
    StageAll(EMPTY_STAGED, r.facts.segs.plan, src, r.facts.segs.minVm, arenaBase,
             ArenaSize(r.facts.segs.minVm, r.facts.segs.maxVm, arenaBase))
  }

  /** Copying has succeeded: nothing raised and every planned entry staged. */
  predicate CopiedAll(s: Staged, plan: seq<PlanEntry>) {
    s.fail == 0 && |s.entries| == |plan|
  }

  function CopyFault(s: Staged, plan: seq<PlanEntry>): bv32 {
    if |s.entries| != |plan| then Raise(s.fail, FAIL_STAGE_COPY) else s.fail
  }

  /** The masks once the three checks of the staged arena have been made. */
  function VerdictValid(reparsed: bool, marked: bool, zeroed: bool): bv32 {
    Raise(Raise(Raise(VALID_STAGING, Flag(reparsed, VALID_MATERIALIZED_PARSE)), Flag(marked, VALID_MARKERS)),
          Flag(zeroed, VALID_ZERO_FILL))
  }

  function VerdictFail(reparsed: bool, marked: bool, zeroed: bool): bv32 {
    Raise(Raise(Raise(0, Flag(!reparsed, FAIL_STAGE_REPARSE)), Flag(!marked, FAIL_STAGE_MARKERS)),
          Flag(!zeroed, FAIL_STAGE_ZERO_FILL))
  }

  /** The whole materialization: plan, arena and masks. */
  function Materialize(src: seq<byte>, r: Outcome, arenaBase: u32, artifactBase: u32): Staging
    requires |src| < TWO32
  {
    var t := r.facts.segs;
    if !SpanFits(t.minVm, t.maxVm, arenaBase) then Staging(EMPTY_STAGED, 0, 0, 0, 0, FAIL_STAGE_SPAN)
    else
      var size := ArenaSize(t.minVm, t.maxVm, arenaBase);
      if ArenaAliases(arenaBase, artifactBase, |src|, r.load)
      then Staging(EMPTY_STAGED, t.minVm, t.maxVm, size, 0, FAIL_STAGE_ARENA_ALIAS)
      else
        var s := Stage(src, r, arenaBase);
        if CopyFault(s, t.plan) != 0 then Staging(s, t.minVm, t.maxVm, size, 0, CopyFault(s, t.plan))
        else
          var reparsed := ReparseAgrees(s.arena, size, r);
          var marked := MarkersHold(s.arena, size, t.minVm, r.facts.sects.key);
          var zeroed := ZeroFillHolds(s.entries, s.arena, size);
          Staging(s, t.minVm, t.maxVm, size,
                  VerdictValid(reparsed, marked, zeroed), VerdictFail(reparsed, marked, zeroed))
  }
}
