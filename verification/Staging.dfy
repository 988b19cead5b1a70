/** The materializer as the payload runs it: one static arena, filled segment by segment and then
    checked by parsing it again. */
module Staging {
  import opened Words
  import opened Runtime
  import opened Masks
  import opened MachoFormat
  import opened MachoSpec
  import opened MachoProbe
  import opened StagingSpec
  import opened StagingImage

  method GetLastAddr(plan: seq<PlanEntry>) returns (last: u32)
    ensures last == LastAddr(plan)
  {
    last := 0;
    var i := 0;
    while i < |plan|
      invariant 0 <= i <= |plan| && last == LastAddr(plan[..i])
    {
      var e := plan[i];
      assert plan[..i + 1][..i] == plan[..i];
      if !AddOverflow(e.vmaddr, e.vmsize) && Add32(e.vmaddr, e.vmsize) > last {
        last := Add32(e.vmaddr, e.vmsize);
      }
      i := i + 1;
    }
    assert plan[..i] == plan;
  }

  class Stager {
    const arena: array<byte>
    var entries: seq<StageEntry>
    var fileBytes: u32
    var zeroBytes: u32
    var vmBase: u32
    var vmEnd: u32
    var arenaSize: u32
    var valid: bv32
    var fail: bv32
    var markers: bv32
    var status: bv32

    function State(): Staged
      reads this, arena
    {
      Staged(entries, arena[..], fileBytes, zeroBytes, fail)
    }

    ghost predicate Valid()
      reads this
    {
      arena.Length == ARENA_CAP && arenaSize <= ARENA_CAP
    }

    constructor ()
      ensures Valid() && fresh(arena)
    {
      arena := new byte[ARENA_CAP](_ => 0);
      entries, fileBytes, zeroBytes, vmBase, vmEnd, arenaSize, valid, fail := [], 0, 0, 0, 0, 0, 0, 0;
      markers, status := 0, STATUS_BASE;
    }

    /** The copy and the zero fill of one accepted segment. */
    method WriteSegment(load: PlanEntry, source: seq<byte>)
      requires Valid() && |source| < TWO32 && Stageable(load, |source|, vmBase, arenaSize)
      modifies this`fileBytes, this`zeroBytes, arena
      ensures arena[..] == WriteEntry(old(arena[..]), source, load, vmBase)
      ensures fileBytes == Add32(old(fileBytes), load.filesize)
      ensures zeroBytes == Add32(old(zeroBytes), load.vmsize - load.filesize)
    {
      hide Blit;
      var offset, zeroSize := load.vmaddr - vmBase, load.vmsize - load.filesize;
      ghost var bytes := source[load.fileoff..load.fileoff + load.filesize];
      EmptyBlit(arena[..], offset, bytes);
      if load.filesize != 0 {
        MemCpy(arena, offset, source[load.fileoff..load.fileoff + load.filesize]);
        fileBytes := Add32(fileBytes, load.filesize);
      }
      EmptyBlit(arena[..], offset + load.filesize, Zeros(zeroSize));
      if zeroSize != 0 {
        MemSet(arena, offset + load.filesize, 0, zeroSize);
        zeroBytes := Add32(zeroBytes, zeroSize);
      }
    }

    /** The body of the staging loop. */
    method StageSegment(load: PlanEntry, source: seq<byte>, arenaBase: u32)
      requires Valid() && |source| < TWO32 && |entries| < STAGE_MAX
      modifies this`entries, this`fileBytes, this`zeroBytes, this`fail, arena
      ensures State() == StageOne(old(State()), load, source, vmBase, arenaBase, arenaSize)
    {
      hide Raise, WriteEntry;
      if load.vmaddr < vmBase || load.filesize > load.vmsize {
        fail := Raise(fail, FAIL_STAGE_DST_BOUNDS);
        return;
      }
      if RangeEscapes(load.fileoff, load.filesize, |source|) {
        fail := Raise(fail, FAIL_STAGE_SRC_BOUNDS);
        return;
      }
      var offset := load.vmaddr - vmBase;
      if RangeEscapes(offset, load.vmsize, arenaSize) || RangeEscapes(offset, load.filesize, arenaSize) {
        fail := Raise(fail, FAIL_STAGE_DST_BOUNDS);
        return;
      }
      entries := entries + [StageEntryFor(|entries|, load, vmBase, arenaBase)];
      WriteSegment(load, source);
    }

    method StageSegments(plan: seq<PlanEntry>, source: seq<byte>, arenaBase: u32)
      requires Valid() && |source| < TWO32
      modifies this`entries, this`fileBytes, this`zeroBytes, this`fail, arena
      ensures State() == StageAll(old(State()), plan, source, vmBase, arenaBase, arenaSize)
    {
      hide Raise, StageOne;
      var i := 0;
      assert plan[0..] == plan;
      while i < |plan|
        invariant 0 <= i <= |plan|
        invariant StageAll(State(), plan[i..], source, vmBase, arenaBase, arenaSize) ==
                  StageAll(old(State()), plan, source, vmBase, arenaBase, arenaSize)
      {
        if |entries| >= STAGE_MAX {
          fail := Raise(fail, FAIL_STAGE_PLAN_FULL);
          return;
        }
        assert plan[i..][1..] == plan[i + 1..];
        StageSegment(plan[i], source, arenaBase);
        i := i + 1;
      }
    }

    /** One zero-filled tail, byte by byte. */
    method CheckTail(e: StageEntry) returns (ok: bool)
      requires Valid() && e.arenaOffset + e.copySize + e.zeroSize < TWO32
      ensures ok == TailChecked(e, arena[..], arenaSize)
    {
      if Add32(Add32(e.arenaOffset, e.copySize), e.zeroSize) > arenaSize {
        return false;
      }
      var from := Add32(e.arenaOffset, e.copySize);
      var j := 0;
      while j < e.zeroSize
        invariant 0 <= j <= e.zeroSize
        invariant forall x :: from <= x < from + j ==> arena[x] == 0
      {
        if arena[from + j] != 0 {
          assert arena[..][from + j] != 0;
          return false;
        }
        j := j + 1;
      }
      return true;
    }

    /** The indices that must be checked against the indices that passed. */
    method VerifyZeroFill()
      requires Valid() && forall e :: e in entries ==> e.arenaOffset + e.copySize + e.zeroSize < TWO32
      modifies this`valid, this`fail
      ensures var ok := ZeroFillHolds(entries, arena[..], arenaSize);
              && valid == Raise(old(valid), Flag(ok, VALID_ZERO_FILL))
              && fail == Raise(old(fail), Flag(!ok, FAIL_STAGE_ZERO_FILL))
    {
      hide Raise, TailChecked;
      RaiseNone(valid);
      RaiseNone(fail);
      RaiseTwice(fail, FAIL_STAGE_ZERO_FILL);
      var required: set<nat>, checked: set<nat> := {}, {};
      var i := 0;
      while i < |entries|
        invariant 0 <= i <= |entries|
        invariant valid == old(valid)
        invariant forall k :: k in required <==> 0 <= k < i && entries[k].zeroSize != 0
        invariant forall k :: k in checked <==> k in required && TailChecked(entries[k], arena[..], arenaSize)
        invariant fail == if required <= checked then old(fail) else Raise(old(fail), FAIL_STAGE_ZERO_FILL)
      {
        if entries[i].zeroSize != 0 {
          required := required + {i};
          var ok := CheckTail(entries[i]);
          if ok {
            checked := checked + {i};
          } else {
            assert i in required && i !in checked;
            fail := Raise(fail, FAIL_STAGE_ZERO_FILL);
          }
        }
        i := i + 1;
      }
      if required <= checked {
        valid := Raise(valid, VALID_ZERO_FILL);
      } else {
        var k :| k in required && k !in checked;
        fail := Raise(fail, FAIL_STAGE_ZERO_FILL);
      }
    }

    /** The same parser is run on the arena and its report compared with the first. */
    method VerifyReparse(result: ProbeResult)
      requires Valid() && vmEnd == result.segs.maxVm
      modifies this`valid, this`fail
      ensures var ok := ReparseAgrees(arena[..], arenaSize, result.Report());
              && valid == Raise(old(valid), Flag(ok, VALID_MATERIALIZED_PARSE))
              && fail == Raise(old(fail), Flag(!ok, FAIL_STAGE_REPARSE))
    {
      hide Raise, Probe, LastAddr;
      RaiseNone(valid);
      RaiseNone(fail);
      var originalLast := GetLastAddr(result.segs.plan);
      var materialized := new ProbeResult();
      var parsed := materialized.Run(arena, arenaSize);
      assert arena[..arenaSize] == arena[..][..arenaSize];
      if !parsed {
        fail := Raise(fail, FAIL_STAGE_REPARSE);
        return;
      }
      var materializedLast := GetLastAddr(materialized.segs.plan);
      if materialized.header.magic == result.header.magic &&
         materialized.header.cputype == result.header.cputype &&
         materialized.header.cpusubtype == result.header.cpusubtype &&
         materialized.header.filetype == result.header.filetype &&
         materialized.header.ncmds == result.header.ncmds &&
         materialized.segs.mask == result.segs.mask &&
         materialized.sects.mask == result.sects.mask &&
         materialized.segs.minVm == result.segs.minVm &&
         materialized.segs.maxVm == result.segs.maxVm &&
         materialized.load.vmBase == result.load.vmBase &&
         materialized.load.vmEnd == result.load.vmEnd &&
         materializedLast == originalLast && materializedLast == vmEnd {
        valid := Raise(valid, VALID_MATERIALIZED_PARSE);
      } else {
        fail := Raise(fail, FAIL_STAGE_REPARSE);
      }
    }

    function Summary(): StagingSpec.Staging
      reads this, arena
    {
      StagingSpec.Staging(Staged(entries, arena[..], fileBytes, zeroBytes, 0), vmBase, vmEnd, arenaSize, valid, fail)
    }

    method Clear()
      requires Valid()
      modifies this, arena
      ensures Valid() && State() == EMPTY_STAGED && valid == 0 && markers == 0
      ensures vmBase == vmEnd == arenaSize == 0
    {
      hide Blit, Zeros;
      BlitAll(arena[..]);
      MemSet(arena, 0, 0, ARENA_CAP);
      entries, fileBytes, zeroBytes, vmBase, vmEnd, arenaSize, valid, fail := [], 0, 0, 0, 0, 0, 0, 0;
      markers, status := 0, STATUS_BASE;
    }

    /** Clears the arena and the plan, and decides whether the segments may be staged at all. */
    method Prepare(size: u32, artifactBase: u32, arenaBase: u32, result: ProbeResult) returns (ready: bool)
      requires Valid()
      modifies this, arena
      ensures Valid() && State() == EMPTY_STAGED.(fail := fail) && valid == 0 && markers == 0
      ensures var t := result.segs;
              if !SpanFits(t.minVm, t.maxVm, arenaBase)
              then !ready && fail == FAIL_STAGE_SPAN && vmBase == vmEnd == arenaSize == 0
              else && vmBase == t.minVm && vmEnd == t.maxVm
                   && arenaSize == ArenaSize(t.minVm, t.maxVm, arenaBase)
                   && ready == !ArenaAliases(arenaBase, artifactBase, size, result.load)
                   && fail == if ready then 0 else FAIL_STAGE_ARENA_ALIAS
    {
      hide ArenaAliases, AlignUpChecked, Zeros, Blit;
      Clear();
      var minVm, maxVm := result.segs.minVm, result.segs.maxVm;
      if AddOverflow(arenaBase, ARENA_CAP) || minVm == 0 || maxVm <= minVm {
        fail := FAIL_STAGE_SPAN;
        return false;
      }
      var span := AlignUpChecked(maxVm - minVm, PAGE_SIZE);
      if !span.Aligned? || span.value > ARENA_CAP {
        fail := FAIL_STAGE_SPAN;
        return false;
      }
      vmBase, vmEnd, arenaSize := minVm, maxVm, span.value;
      if ArenaAliases(arenaBase, artifactBase, size, result.load) {
        fail := FAIL_STAGE_ARENA_ALIAS;
        return false;
      }
      return true;
    }

    /** The copying part: true when every planned segment was staged and no bit is set. */
    method CopySegments(source: seq<byte>, arenaBase: u32, result: ProbeResult) returns (copied: bool)
      requires Valid() && |source| < TWO32 && fail == 0 && valid == 0
      modifies this`entries, this`fileBytes, this`zeroBytes, this`fail, this`valid, arena
      ensures var s := StageAll(old(State()), result.segs.plan, source, vmBase, arenaBase, arenaSize);
              && State().(fail := 0) == s.(fail := 0)
              && fail == CopyFault(s, result.segs.plan)
              && copied == (fail == 0) && valid == if copied then VALID_STAGING else 0
    {
      hide Raise, StageAll;
      StageSegments(result.segs.plan, source, arenaBase);
      if |entries| != |result.segs.plan| {
        fail := Raise(fail, FAIL_STAGE_COPY);
      }
      copied := fail == 0;
      if copied {
        valid := VALID_STAGING;
      }
    }

    /** The text at one section's place, compared up to the first difference. */
    method VerifyMarker(vmaddr: u32, text: string, bit: bv32) returns (ghost ok: bool)
      requires Valid() && |text| > 0 && forall i :: 0 <= i < |text| ==> 0 < text[i] as int < 256
      modifies this`markers, this`fail
      ensures && ok == MarkerHolds(arena[..], arenaSize, vmBase, vmaddr, text)
              && markers == Raise(old(markers), Flag(ok, bit))
              && fail == Raise(old(fail), Flag(!ok, FAIL_STAGE_MARKERS))
    {
      hide Raise;
      RaiseNone(markers);
      RaiseNone(fail);
      ok := MarkerHolds(arena[..], arenaSize, vmBase, vmaddr, text);
      if vmaddr < vmBase || vmaddr - vmBase >= arenaSize {
        fail := Raise(fail, FAIL_STAGE_MARKERS);
        return;
      }
      var offset, i := vmaddr - vmBase, 0;
      while i < |text| && offset + i < arena.Length && arena[offset + i] == text[i] as int
        invariant 0 <= i <= |text| && offset + i <= arena.Length
        invariant arena[offset..offset + i] == Ascii(text)[..i]
      {
        i := i + 1;
      }
      if i == |text| {
        markers := Raise(markers, bit);
      } else {
        assert offset + |text| <= arena.Length ==> arena[offset..offset + |text|][i] != Ascii(text)[i];
        fail := Raise(fail, FAIL_STAGE_MARKERS);
      }
    }

    /** The three markers, and the verdict on them. */
    method VerifyMarkers(key: KeySections)
      requires Valid() && markers == 0
      modifies this`markers, this`fail, this`valid
      ensures var ok := MarkersHold(arena[..], arenaSize, vmBase, key);
              && valid == Raise(old(valid), Flag(ok, VALID_MARKERS))
              && fail == Raise(old(fail), Flag(!ok, FAIL_STAGE_MARKERS))
    {
      hide Raise, HasAll, Flag, MarkerHolds;
      ghost var a := VerifyMarker(key.text.addr, TEXT_MARKER, MARKER_TEXT);
      ghost var b := VerifyMarker(key.dataConst.addr, DATA_MARKER, MARKER_DATA);
      ghost var c := VerifyMarker(key.prelinkText.addr, PRELINK_MARKER, MARKER_PRELINK_TEXT);
      MarkersMean(a, b, c);
      FaultsJoin(old(fail), a, b, c);
      RaiseIf(valid, a && b && c, VALID_MARKERS);
      valid, fail := MarkerVerdict(valid, fail, HasAll(markers, MARKER_REQUIRED));
    }

    /** The checks of a staged arena, in order. */
    method VerifyStaged(result: ProbeResult)
      requires Valid() && forall e :: e in entries ==> e.arenaOffset + e.copySize + e.zeroSize < TWO32
      requires vmEnd == result.segs.maxVm && valid == VALID_STAGING && fail == 0
      requires markers == 0
      modifies this`valid, this`fail, this`markers
      ensures var reparsed := ReparseAgrees(arena[..], arenaSize, result.Report());
              var marked := MarkersHold(arena[..], arenaSize, vmBase, result.sects.key);
              var zeroed := ZeroFillHolds(entries, arena[..], arenaSize);
              && valid == VerdictValid(reparsed, marked, zeroed)
              && fail == VerdictFail(reparsed, marked, zeroed)
    {
      hide Raise, Flag, ReparseAgrees, MarkersHold, ZeroFillHolds;
      VerifyReparse(result);
      VerifyMarkers(result.sects.key);
      VerifyZeroFill();
    }

    /** Everything up to the verdict. */
    method StageAndVerify(artifact: array<byte>, size: u32, artifactBase: u32, arenaBase: u32, result: ProbeResult)
      requires Valid() && artifact != arena && size <= artifact.Length
      modifies this, arena
      ensures Valid()
      ensures var m := Materialize(artifact[..size], result.Report(), arenaBase, artifactBase);
              Summary() == m.(staged := m.staged.(fail := 0))
    {
      hide Raise, StageAll, ArenaAliases, SpanFits, ArenaSize, ReparseAgrees, MarkersHold, ZeroFillHolds, Zeros,
           VerdictValid, VerdictFail, CopyFault;
      var source := artifact[..size];
      var ready := Prepare(size, artifactBase, arenaBase, result);
      if ready {
        var copied := CopySegments(source, arenaBase, result);
        if copied {
          EntriesStayInside(source, result.Report(), arenaBase);
          VerifyStaged(result);
        }
      }
    }

    /** `stage90_macho_materialize_to_arena`: staging, checks, status, and what is handed back to the
        probe's result. An arena that would wrap has no end. */
    method MaterializeToArena(artifact: array<byte>, size: u32, artifactBase: u32, arenaBase: u32, result: ProbeResult)
      returns (ok: bool)
      requires Valid() && artifact != arena && size <= artifact.Length
      modifies this, arena, result`valid, result`fail, result`staging
      ensures Valid()
      ensures var m := Materialize(old(artifact[..size]), old(result.Report()), arenaBase, artifactBase);
              && Summary() == m.(staged := m.staged.(fail := 0))
              && status == StagingStatus(m.valid, m.fail) && ok == (status == STATUS_OK)
              && result.valid == Raise(old(result.valid), m.valid)
              && result.fail == Raise(old(result.fail), m.fail)
              && result.staging == StagingCopy(StagingStatus(m.valid, m.fail), m.staged.fileBytes, m.staged.zeroBytes,
                                               arenaBase, ArenaEnd(arenaBase), m.vmBase, m.vmEnd)
    {
      hide Raise, HasAll, StatusFail, Materialize;
      StageAndVerify(artifact, size, artifactBase, arenaBase, result);
      if fail == 0 && HasAll(valid, VALID_STAGED) {
        status := STATUS_OK;
      } else {
        status := StatusFail(fail);
      }
      result.staging := StagingCopy(status, fileBytes, zeroBytes, arenaBase, ArenaEnd(arenaBase), vmBase, vmEnd);
      result.valid := Raise(result.valid, valid);
      result.fail := Raise(result.fail, fail);
      return status == STATUS_OK;
    }
  }

  lemma BlitAll(a: seq<byte>)
    ensures Blit(a, 0, Fill(0, |a|)) == Zeros(|a|)
  {
  }

  lemma EmptyBlit(a: seq<byte>, off: nat, s: seq<byte>)
    requires off + |s| <= |a|
    ensures |s| == 0 ==> Blit(a, off, s) == a
  {
  }

  method MarkerVerdict(v: bv32, x: bv32, all: bool) returns (v': bv32, x': bv32)
    ensures v' == if all then Raise(v, VALID_MARKERS) else v
    ensures x' == if all then x else Raise(x, FAIL_STAGE_MARKERS)
  {
    hide Raise;
    v', x' := v, x;
    if all {
      v' := Raise(v, VALID_MARKERS);
    } else {
      x' := Raise(x, FAIL_STAGE_MARKERS);
    }
  }

  lemma MarkersMean(a: bool, b: bool, c: bool)
    ensures var m := Raise(Raise(Raise(0, Flag(a, MARKER_TEXT)), Flag(b, MARKER_DATA)), Flag(c, MARKER_PRELINK_TEXT));
            HasAll(m, MARKER_REQUIRED) <==> a && b && c
  {
  }

  /** One bit raised for each missing marker and once more for the verdict is one bit. */
  lemma FaultsJoin(m: bv32, a: bool, b: bool, c: bool)
    ensures var x := Raise(Raise(Raise(m, Flag(!a, FAIL_STAGE_MARKERS)), Flag(!b, FAIL_STAGE_MARKERS)),
                           Flag(!c, FAIL_STAGE_MARKERS));
            (if a && b && c then x else Raise(x, FAIL_STAGE_MARKERS)) ==
            Raise(m, Flag(!(a && b && c), FAIL_STAGE_MARKERS))
  {
    hide Raise;
    var f := FAIL_STAGE_MARKERS;
    RaiseNone(m);
    RaiseNone(Raise(m, f));
    RaiseTwice(m, f);
  }

  lemma EntriesStayInside(src: seq<byte>, r: Outcome, arenaBase: u32)
    requires |src| < TWO32 && SpanFits(r.facts.segs.minVm, r.facts.segs.maxVm, arenaBase)
    ensures forall e :: e in Stage(src, r, arenaBase).entries ==>
                          e.arenaOffset + e.copySize + e.zeroSize <=
                          ArenaSize(r.facts.segs.minVm, r.facts.segs.maxVm, arenaBase)
  {
    hide StageAll, Zeros, ArenaSize, SpanFits, IsImage;
    var size := ArenaSize(r.facts.segs.minVm, r.facts.segs.maxVm, arenaBase);
    EmptyImage(src, size);
    StageAllKeeps(EMPTY_STAGED, r.facts.segs.plan, src, r.facts.segs.minVm, arenaBase, size);
  }

  lemma EmptyImage(src: seq<byte>, size: u32)
    requires size <= ARENA_CAP
    ensures StageInv(EMPTY_STAGED, src, size)
  {
  }
}
