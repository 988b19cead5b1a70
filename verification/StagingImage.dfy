/** The arena after staging is the memory image the plan describes: the last entry covering a byte
    decides it, file bytes first and zeros after them. */
module StagingImage {
  import opened Words
  import opened Runtime
  import opened Masks
  import opened MachoFormat
  import opened MachoSpec
  import opened StagingSpec

  /** The entry lies inside the arena and its file bytes inside the source. */
  predicate EntryInside(e: StageEntry, src: seq<byte>, arenaSize: u32) {
    e.srcOff + e.copySize <= |src| && e.arenaOffset + e.copySize + e.zeroSize <= arenaSize
  }

  predicate AllInside(entries: seq<StageEntry>, src: seq<byte>, arenaSize: u32) {
    forall e :: e in entries ==> EntryInside(e, src, arenaSize)
  }

  predicate CopiesTo(e: StageEntry, x: nat) {
    e.arenaOffset <= x < e.arenaOffset + e.copySize
  }

  predicate Covers(e: StageEntry, x: nat) {
    e.arenaOffset <= x < e.arenaOffset + e.copySize + e.zeroSize
  }

  /** What memory holds at arena offset x. */
  function ImageByte(entries: seq<StageEntry>, src: seq<byte>, x: nat, arenaSize: u32): byte
    requires AllInside(entries, src, arenaSize)
    decreases |entries|
  {
    if entries == [] then 0
    else
      var e := entries[|entries| - 1];
      assert e in entries;
      if CopiesTo(e, x) then src[e.srcOff + (x - e.arenaOffset)]
      else if Covers(e, x) then 0
      else ImageByte(entries[..|entries| - 1], src, x, arenaSize)
  }

  function CopiedBytes(entries: seq<StageEntry>): nat {
    if entries == [] then 0 else CopiedBytes(entries[..|entries| - 1]) + entries[|entries| - 1].copySize
  }

  function ZeroedBytes(entries: seq<StageEntry>): nat {
    if entries == [] then 0 else ZeroedBytes(entries[..|entries| - 1]) + entries[|entries| - 1].zeroSize
  }

  function MemoryBytes(entries: seq<StageEntry>): nat {
    if entries == [] then 0 else MemoryBytes(entries[..|entries| - 1]) + entries[|entries| - 1].vmsize
  }

  /** The arena agrees with the image at every byte. */
  predicate IsImage(arena: seq<byte>, entries: seq<StageEntry>, src: seq<byte>, arenaSize: u32)
    requires AllInside(entries, src, arenaSize)
  {
    forall x :: 0 <= x < |arena| ==> arena[x] == ImageByte(entries, src, x, arenaSize)
  }

  /** Each entry's memory is its file bytes and its zeros. */
  predicate SizesAdd(entries: seq<StageEntry>) {
    forall e :: e in entries ==> e.vmsize == e.copySize + e.zeroSize
  }

  /** What every iteration of the staging loop keeps. */
  predicate StageInv(s: Staged, src: seq<byte>, arenaSize: u32) {
    && arenaSize <= |s.arena| && arenaSize <= ARENA_CAP
    && |s.entries| <= 8
    && AllInside(s.entries, src, arenaSize) && SizesAdd(s.entries)
    && IsImage(s.arena, s.entries, src, arenaSize)
    && s.fileBytes == CopiedBytes(s.entries) && s.zeroBytes == ZeroedBytes(s.entries)
  }

  lemma {:induction false} BytesBounded(entries: seq<StageEntry>, src: seq<byte>, arenaSize: u32)
    requires AllInside(entries, src, arenaSize) && arenaSize <= ARENA_CAP
    ensures CopiedBytes(entries) + ZeroedBytes(entries) <= |entries| * 0x1_0000
    ensures SizesAdd(entries) ==>
              CopiedBytes(entries) + ZeroedBytes(entries) == MemoryBytes(entries)
  {
    if entries != [] {
      var e := entries[|entries| - 1];
      assert e in entries;
      BytesBounded(entries[..|entries| - 1], src, arenaSize);
    }
  }

  lemma WriteEntryByte(arena: seq<byte>, src: seq<byte>, e: PlanEntry, vmBase: u32, x: nat)
    requires vmBase <= e.vmaddr && e.filesize <= e.vmsize && e.vmaddr - vmBase + e.vmsize <= |arena|
    requires e.fileoff + e.filesize <= |src| && x < |arena|
    ensures var offset := e.vmaddr - vmBase;
            WriteEntry(arena, src, e, vmBase)[x] ==
            if offset <= x < offset + e.filesize then src[e.fileoff + (x - offset)]
            else if offset <= x < offset + e.vmsize then 0
            else arena[x]
  {
    var offset := e.vmaddr - vmBase;
    var copied := Blit(arena, offset, src[e.fileoff..e.fileoff + e.filesize]);
    assert copied[x] == if offset <= x < offset + e.filesize then src[e.fileoff + (x - offset)] else arena[x];
  }

  lemma WriteKeepsImage(arena: seq<byte>, entries: seq<StageEntry>, src: seq<byte>, e: PlanEntry, index: u32,
                        vmBase: u32, arenaBase: u32, arenaSize: u32)
    requires |src| < TWO32 && arenaSize <= |arena| && Stageable(e, |src|, vmBase, arenaSize)
    requires AllInside(entries, src, arenaSize) && IsImage(arena, entries, src, arenaSize)
    ensures var entries' := entries + [StageEntryFor(index, e, vmBase, arenaBase)];
            && AllInside(entries', src, arenaSize)
            && IsImage(WriteEntry(arena, src, e, vmBase), entries', src, arenaSize)
  {
    hide WriteEntry;
    var added := StageEntryFor(index, e, vmBase, arenaBase);
    var entries' := entries + [added];
    assert entries'[..|entries'| - 1] == entries;
    assert EntryInside(added, src, arenaSize);
    forall x | 0 <= x < |arena|
      ensures WriteEntry(arena, src, e, vmBase)[x] == ImageByte(entries', src, x, arenaSize)
    {
      WriteEntryByte(arena, src, e, vmBase, x);
    }
  }

  lemma StageOneKeeps(s: Staged, e: PlanEntry, src: seq<byte>, vmBase: u32, arenaBase: u32, arenaSize: u32)
    requires |src| < TWO32 && StageInv(s, src, arenaSize) && |s.entries| < 8
    ensures StageInv(StageOne(s, e, src, vmBase, arenaBase, arenaSize), src, arenaSize)
  {
    hide WriteEntry, IsImage, Raise, Stageable, StageEntryFor, EntryInside, CopiedBytes, ZeroedBytes;
    if Stageable(e, |src|, vmBase, arenaSize) {
      WriteKeepsImage(s.arena, s.entries, src, e, |s.entries|, vmBase, arenaBase, arenaSize);
      BytesBounded(s.entries, src, arenaSize);
      StageOneDone(s, e, src, vmBase, arenaBase, arenaSize);
    } else {
      StageOneSkips(s, e, src, vmBase, arenaBase, arenaSize);
    }
  }

  lemma StageOneSkips(s: Staged, e: PlanEntry, src: seq<byte>, vmBase: u32, arenaBase: u32, arenaSize: u32)
    requires |src| < TWO32 && arenaSize <= |s.arena| && |s.entries| < 8
    requires !Stageable(e, |src|, vmBase, arenaSize)
    ensures exists x :: StageOne(s, e, src, vmBase, arenaBase, arenaSize) == s.(fail := x)
  {
    hide Raise;
  }

  lemma StageOneDone(s: Staged, e: PlanEntry, src: seq<byte>, vmBase: u32, arenaBase: u32, arenaSize: u32)
    requires |src| < TWO32 && arenaSize <= |s.arena| && arenaSize <= ARENA_CAP && |s.entries| < 8
    requires Stageable(e, |src|, vmBase, arenaSize)
    requires SizesAdd(s.entries)
    requires s.fileBytes == CopiedBytes(s.entries) && s.zeroBytes == ZeroedBytes(s.entries)
    requires CopiedBytes(s.entries) + ZeroedBytes(s.entries) <= |s.entries| * 0x1_0000
    ensures var added := StageEntryFor(|s.entries|, e, vmBase, arenaBase);
            var entries' := s.entries + [added];
            && SizesAdd(entries')
            && CopiedBytes(entries') + ZeroedBytes(entries') < TWO32
            && StageOne(s, e, src, vmBase, arenaBase, arenaSize) ==
               Staged(entries', WriteEntry(s.arena, src, e, vmBase),
                      CopiedBytes(entries'), ZeroedBytes(entries'), s.fail)
  {
    hide WriteEntry, SizesAdd, CopiedBytes, ZeroedBytes, StageOne, StageEntryFor, Stageable, Add32;
    StageOneIs(s, e, src, vmBase, arenaBase, arenaSize);
    AddedSizes(|s.entries|, e, |src|, vmBase, arenaBase, arenaSize);
    assert !DestinationWrong(e, vmBase) by { StageableHasDestination(e, |src|, vmBase, arenaSize); }
    CountsAppend(s.entries, StageEntryFor(|s.entries|, e, vmBase, arenaBase));
    ExactSum(s.fileBytes, e.filesize);
    ExactSum(s.zeroBytes, e.vmsize - e.filesize);
  }

  lemma StageOneIs(s: Staged, e: PlanEntry, src: seq<byte>, vmBase: u32, arenaBase: u32, arenaSize: u32)
    requires |src| < TWO32 && arenaSize <= |s.arena| && |s.entries| < 8
    requires Stageable(e, |src|, vmBase, arenaSize)
    ensures StageOne(s, e, src, vmBase, arenaBase, arenaSize) ==
            Staged(s.entries + [StageEntryFor(|s.entries|, e, vmBase, arenaBase)], WriteEntry(s.arena, src, e, vmBase),
                   Add32(s.fileBytes, e.filesize), Add32(s.zeroBytes, e.vmsize - e.filesize), s.fail)
  {
    hide WriteEntry, StageEntryFor, Add32;
  }

  lemma AddedSizes(index: u32, e: PlanEntry, fileSize: u32, vmBase: u32, arenaBase: u32, arenaSize: u32)
    requires Stageable(e, fileSize, vmBase, arenaSize) && arenaSize <= ARENA_CAP
    ensures e.filesize <= e.vmsize <= 0x1_0000
    ensures var added := StageEntryFor(index, e, vmBase, arenaBase);
            added.vmsize == e.vmsize && added.copySize == e.filesize && added.zeroSize == e.vmsize - e.filesize
  {
  }

  lemma StageableHasDestination(e: PlanEntry, fileSize: u32, vmBase: u32, arenaSize: u32)
    requires Stageable(e, fileSize, vmBase, arenaSize)
    ensures !DestinationWrong(e, vmBase)
  {
  }

  lemma ExactSum(a: u32, b: u32)
    ensures a + b < TWO32 ==> Add32(a, b) == a + b
  {
  }

  lemma CountsAppend(entries: seq<StageEntry>, e: StageEntry)
    ensures CopiedBytes(entries + [e]) == CopiedBytes(entries) + e.copySize
    ensures ZeroedBytes(entries + [e]) == ZeroedBytes(entries) + e.zeroSize
    ensures SizesAdd(entries) && e.vmsize == e.copySize + e.zeroSize ==> SizesAdd(entries + [e])
  {
    assert (entries + [e])[..|entries|] == entries;
  }

  lemma FailKeepsInv(s: Staged, src: seq<byte>, arenaSize: u32, x: bv32)
    requires StageInv(s, src, arenaSize)
    ensures StageInv(s.(fail := Raise(s.fail, x)), src, arenaSize)
  {
    hide Raise;
  }

  lemma {:induction false} StageAllKeeps(s: Staged, plan: seq<PlanEntry>, src: seq<byte>, vmBase: u32, arenaBase: u32,
                                         arenaSize: u32)
    requires |src| < TWO32 && arenaSize <= |s.arena| && StageInv(s, src, arenaSize)
    ensures StageInv(StageAll(s, plan, src, vmBase, arenaBase, arenaSize), src, arenaSize)
    decreases |plan|
  {
    hide StageOne, StageInv, Raise;
    FailKeepsInv(s, src, arenaSize, FAIL_STAGE_PLAN_FULL);
    if plan != [] && |s.entries| < STAGE_MAX {
      StageOneKeeps(s, plan[0], src, vmBase, arenaBase, arenaSize);
      StageAllKeeps(StageOne(s, plan[0], src, vmBase, arenaBase, arenaSize), plan[1..], src, vmBase,
                    arenaBase, arenaSize);
    }
  }

  /** The staged entries of a plan, numbered from k. */
  function StagedEntries(k: nat, plan: seq<PlanEntry>, vmBase: u32, arenaBase: u32): (r: seq<StageEntry>)
    requires k + |plan| <= 8
    requires forall e :: e in plan ==> !DestinationWrong(e, vmBase)
    ensures |r| == |plan|
    ensures forall i :: 0 <= i < |r| ==> r[i] == StageEntryFor(k + i, plan[i], vmBase, arenaBase)
    decreases |plan|
  {
    if plan == [] then [] else [StageEntryFor(k, plan[0], vmBase, arenaBase)] +
                                StagedEntries(k + 1, plan[1..], vmBase, arenaBase)
  }

  predicate AllStageable(plan: seq<PlanEntry>, fileSize: u32, vmBase: u32, arenaSize: u32) {
    forall e :: e in plan ==> Stageable(e, fileSize, vmBase, arenaSize)
  }

  lemma StageOneFails(s: Staged, e: PlanEntry, src: seq<byte>, vmBase: u32, arenaBase: u32, arenaSize: u32)
    requires |src| < TWO32 && arenaSize <= |s.arena| && |s.entries| < 8
    ensures var r := StageOne(s, e, src, vmBase, arenaBase, arenaSize);
            && (r.fail == 0 <==> s.fail == 0 && Stageable(e, |src|, vmBase, arenaSize))
            && (Stageable(e, |src|, vmBase, arenaSize) ==>
                  r.entries == s.entries + [StageEntryFor(|s.entries|, e, vmBase, arenaBase)])
  {
    hide Raise, WriteEntry;
    RaiseNothing(s.fail, FAIL_STAGE_DST_BOUNDS);
    RaiseNothing(s.fail, FAIL_STAGE_SRC_BOUNDS);
  }

  /** Copying raises nothing exactly when every entry passes the bounds checks. */
  lemma {:induction false} StageAllFails(s: Staged, plan: seq<PlanEntry>, src: seq<byte>, vmBase: u32, arenaBase: u32,
                                         arenaSize: u32)
    requires |src| < TWO32 && arenaSize <= |s.arena| && |s.entries| + |plan| <= 8
    ensures StageAll(s, plan, src, vmBase, arenaBase, arenaSize).fail == 0 <==>
            s.fail == 0 && AllStageable(plan, |src|, vmBase, arenaSize)
    decreases |plan|
  {
    hide StageOne, Stageable, StageEntryFor, Raise;
    if plan != [] {
      assert plan == [plan[0]] + plan[1..];
      StageOneFails(s, plan[0], src, vmBase, arenaBase, arenaSize);
      StageAllFails(StageOne(s, plan[0], src, vmBase, arenaBase, arenaSize), plan[1..], src, vmBase,
                    arenaBase, arenaSize);
    }
  }

  lemma StagedStep(done: seq<StageEntry>, plan: seq<PlanEntry>, vmBase: u32, arenaBase: u32)
    requires plan != [] && |done| + |plan| <= 8
    requires forall e :: e in plan ==> !DestinationWrong(e, vmBase)
    ensures !DestinationWrong(plan[0], vmBase) && forall e :: e in plan[1..] ==> !DestinationWrong(e, vmBase)
    ensures done + [StageEntryFor(|done|, plan[0], vmBase, arenaBase)] +
            StagedEntries(|done| + 1, plan[1..], vmBase, arenaBase) ==
            done + StagedEntries(|done|, plan, vmBase, arenaBase)
  {
    hide StageEntryFor, DestinationWrong;
    assert plan[0] in plan && forall e :: e in plan[1..] ==> e in plan;
    Regroup(done, StagedEntries(|done|, plan, vmBase, arenaBase),
            [StageEntryFor(|done|, plan[0], vmBase, arenaBase)],
            StagedEntries(|done| + 1, plan[1..], vmBase, arenaBase));
  }

  lemma Regroup(x: seq<StageEntry>, p: seq<StageEntry>, y: seq<StageEntry>, z: seq<StageEntry>)
    requires p == y + z
    ensures x + y + z == x + p
  {
  }

  lemma StageableHasPlace(plan: seq<PlanEntry>, fileSize: u32, vmBase: u32, arenaSize: u32)
    requires AllStageable(plan, fileSize, vmBase, arenaSize)
    ensures forall e :: e in plan ==> !DestinationWrong(e, vmBase)
  {
    forall e | e in plan
      ensures !DestinationWrong(e, vmBase)
    {
      assert Stageable(e, fileSize, vmBase, arenaSize);
    }
  }

  /** And then the staged entries are those of the plan. */
  lemma {:induction false} StageAllEntries(s: Staged, plan: seq<PlanEntry>, src: seq<byte>, vmBase: u32, arenaBase: u32,
                                           arenaSize: u32)
    requires |src| < TWO32 && arenaSize <= |s.arena| && |s.entries| + |plan| <= 8
    requires AllStageable(plan, |src|, vmBase, arenaSize)
    ensures (forall e :: e in plan ==> !DestinationWrong(e, vmBase))
    ensures StageAll(s, plan, src, vmBase, arenaBase, arenaSize).entries ==
            s.entries + StagedEntries(|s.entries|, plan, vmBase, arenaBase)
    decreases |plan|
  {
    hide StageOne, StageEntryFor, Raise, DestinationWrong, Stageable, StagedEntries;
    StageableHasPlace(plan, |src|, vmBase, arenaSize);
    if plan == [] {
      assert StagedEntries(|s.entries|, plan, vmBase, arenaBase) == [];
    } else {
      assert plan == [plan[0]] + plan[1..];
      StagedStep(s.entries, plan, vmBase, arenaBase);
      StageOneFails(s, plan[0], src, vmBase, arenaBase, arenaSize);
      StageAllEntries(StageOne(s, plan[0], src, vmBase, arenaBase, arenaSize), plan[1..], src, vmBase,
                      arenaBase, arenaSize);
    }
  }
}
