/** The dry-run tables: the identity table over low memory, kernel, console and interrupt controller,
    and the table that maps the kernel's virtual range onto its planned physical place. */
module DryrunTable {
  import opened Words
  import opened Bits
  import opened Masks
  import opened MachoFormat
  import opened MachoSpec
  import opened SectionTable
  import opened SectionTheorems
  import opened Workspace

  const GIC_DIST_BASE: u32 := 0xf900_0000
  const GIC_DIST_LAST: u32 := 0xf902_2000
  const WORKSPACE_WORDS: int := 10240

  const FAIL_KERNEL_MAPPING: bv32 := 0x8
  const FAIL_DESCRIPTOR_READBACK: bv32 := 0x200
  const FAIL_DESCRIPTOR_ATTRS: bv32 := 0x400
  const FAIL_TRANSLATION_KERNEL: bv32 := 0x800
  const FAIL_TRANSLATION_LOW_RAM: bv32 := 0x1000
  const FAIL_TRANSLATION_CONSOLE: bv32 := 0x2000
  const FAIL_TRANSLATION_DEVICE: bv32 := 0x4000
  const FAIL_ALL_CHECKS: bv32 := 0x7e00

  /** The four map calls, in the order they are made. */
  function IdentityRanges(physBase: u32, physEnd: u32): (r: seq<Sections>)
    requires physEnd > 0
    ensures |r| == 4
  {
    [Sections(Index(RAM_PHYS_BASE), LastIndex(RAM_CONSOLE_BASE)),
     Sections(Index(physBase), LastIndex(physEnd)),
     Sections(Index(RAM_CONSOLE_BASE), Index(RAM_CONSOLE_BASE)),
     Sections(Index(GIC_DIST_BASE), Index(GIC_DIST_LAST))]
  }

  /** The addresses the identity table is meant to reach. */
  predicate IdentityCovers(physBase: u32, physEnd: u32, va: u32)
    requires physEnd > 0
  {
    || RAM_PHYS_BASE <= va < RAM_CONSOLE_BASE
    || Base(physBase) <= va <= Base(physEnd - 1) + 0xf_ffff
    || RAM_CONSOLE_BASE <= va < RAM_CONSOLE_BASE + 0x10_0000
    || GIC_DIST_BASE <= va < GIC_DIST_BASE + 0x10_0000
  }

  lemma RangesAreCoverage(physBase: u32, physEnd: u32, va: u32)
    requires physEnd > 0
    ensures InRanges(IdentityRanges(physBase, physEnd), Index(va)) <==> IdentityCovers(physBase, physEnd, va)
  {
    var rs := IdentityRanges(physBase, physEnd);
    assert rs[0] in rs && rs[1] in rs && rs[2] in rs && rs[3] in rs;
    assert forall r :: r in rs ==> r == rs[0] || r == rs[1] || r == rs[2] || r == rs[3];
  }

  /** The identity table translates exactly the covered addresses, each to itself. */
  lemma IdentityTableExact(l1: seq<u32>, physBase: u32, physEnd: u32, va: u32)
    requires |l1| == ENTRIES && AllZero(l1) && physEnd > 0
    ensures Translate(MapAll(l1, IdentityRanges(physBase, physEnd), DESC_SECTION_SO), va) ==
            if IdentityCovers(physBase, physEnd, va) then Mapped(va) else Unmapped
  {
    hide MapAll, InRanges, IdentityCovers, IdentityRanges, Translate;
    assert SectionFlags(DESC_SECTION_SO);
    IdentityTranslates(l1, IdentityRanges(physBase, physEnd), DESC_SECTION_SO, va);
    RangesAreCoverage(physBase, physEnd, va);
  }

  /** A byte of the arena, seen through its words. */
  function ByteOf(words: seq<u32>, i: nat): byte
    requires i < 4 * |words|
  {
    Bytes32(words[i / 4])[i % 4]
  }

  /** Everything after the first-level table reads zero. */
  method TailZeroed(arena: array<u32>) returns (zeroed: bool)
    requires arena.Length == WORKSPACE_WORDS
    ensures zeroed <==> forall i :: 4 * ENTRIES <= i < 4 * WORKSPACE_WORDS ==> ByteOf(arena[..], i) == 0
  {
    hide ByteOf;
    var i := 4 * ENTRIES;
    while i < 4 * WORKSPACE_WORDS
      invariant 4 * ENTRIES <= i <= 4 * WORKSPACE_WORDS
      invariant forall k :: 4 * ENTRIES <= k < i ==> ByteOf(arena[..], k) == 0
    {
      if ByteOf(arena[..], i) != 0 {
        return false;
      }
      i := i + 1;
    }
    return true;
  }

  method ExpectTranslation(l1: seq<u32>, va: u32, expected: u32) returns (ok: bool)
    requires |l1| == ENTRIES
    ensures ok <==> Translate(l1, va) == Mapped(expected)
  {
    match Translate(l1, va)
    case Unmapped => return false;
    case Mapped(pa) => return pa == expected;
  }

  /** The four ranges read back, with the words at their boundaries. */
  method ReadBoundaries(table: seq<u32>, physBase: u32, physEnd: u32) returns (ok: bool, seen: seq<u32>)
    requires |table| == ENTRIES && physBase < physEnd
    ensures ok == ReadsBack(table, physBase, physEnd) && seen == Observed(table, physBase, physEnd)
  {
    hide AttrsOk, ReadsBack, SectionWord;
    ReadBackMeaning(table, physBase, physEnd);
    var lowOk, low0, low1 := VerifyRange(table, Index(RAM_PHYS_BASE), LastIndex(RAM_CONSOLE_BASE), DESC_SECTION_SO);
    var kernOk, kern0, kern1 := VerifyRange(table, Index(physBase), LastIndex(physEnd), DESC_SECTION_SO);
    var console := VerifySlot(table, Index(RAM_CONSOLE_BASE), DESC_SECTION_SO);
    var gicOk, gic0, gic1 := VerifyRange(table, Index(GIC_DIST_BASE), Index(GIC_DIST_LAST), DESC_SECTION_SO);
    ok := lowOk && kernOk && console.ok && gicOk;
    seen := [low0, low1, kern0, kern1, console.word, gic0, gic1];
  }

  class Dryrun {
    const arena: array<u32>
    var failure: bv32
    var tailZeroed: bool

    ghost predicate Valid()
      reads this
    {
      arena.Length == WORKSPACE_WORDS
    }

    constructor ()
      ensures Valid() && fresh(arena)
    {
      arena := new u32[WORKSPACE_WORDS](_ => 0);
      failure, tailZeroed := 0, false;
    }

    function Table(): (r: seq<u32>)
      reads this, arena
      requires arena.Length == WORKSPACE_WORDS
      ensures |r| == ENTRIES
    {
      arena[..ENTRIES]
    }

    method Clear()
      requires Valid()
      modifies arena
      ensures AllZero(arena[..])
    {
      var i := 0;
      while i < arena.Length
        invariant 0 <= i <= arena.Length
        invariant forall k :: 0 <= k < i ==> arena[k] == 0
      {
        arena[i] := 0;
        i := i + 1;
      }
    }

    /** The four map calls. */
    method MapIdentity(physBase: u32, physEnd: u32)
      requires Valid() && physEnd > 0
      modifies arena
      ensures Table() == MapAll(old(Table()), IdentityRanges(physBase, physEnd), DESC_SECTION_SO)
      ensures arena[ENTRIES..] == old(arena[ENTRIES..])
    {
      hide IdentityMapped, SectionWord;
      ghost var l1 := Table();
      ghost var rs := IdentityRanges(physBase, physEnd);
      FourSteps(l1, rs, DESC_SECTION_SO);
      MapSectionRange(arena, Index(RAM_PHYS_BASE), LastIndex(RAM_CONSOLE_BASE), DESC_SECTION_SO);
      MapSectionRange(arena, Index(physBase), LastIndex(physEnd), DESC_SECTION_SO);
      MapSectionRange(arena, Index(RAM_CONSOLE_BASE), Index(RAM_CONSOLE_BASE), DESC_SECTION_SO);
      MapSectionRange(arena, Index(GIC_DIST_BASE), Index(GIC_DIST_LAST), DESC_SECTION_SO);
    }

    /** Reading the seven boundary descriptors back, folding what was seen, and translating five
        addresses: the bits raised are exactly those of the checks that fail. */
    method CheckIdentity(physBase: u32, physEnd: u32) returns (fail: bv32)
      requires Valid() && physBase < physEnd
      ensures fail == CheckFault(Table(), physBase, physEnd)
    {
      hide Translate, Raise, Flag, ReadsBack, AttrsSeen, Observed;
      var table := Table();
      var readBack, seen := ReadBoundaries(table, physBase, physEnd);
      fail := RaiseUnless(0, readBack, FAIL_DESCRIPTOR_READBACK);
      fail := RaiseUnless(fail, AttrsSeen(seen), FAIL_DESCRIPTOR_ATTRS);
      var first := ExpectTranslation(table, physBase, physBase);
      var last := ExpectTranslation(table, physEnd - 1, physEnd - 1);
      fail := RaiseUnless(fail, first && last, FAIL_TRANSLATION_KERNEL);
      var lowRam := ExpectTranslation(table, RAM_PHYS_BASE, RAM_PHYS_BASE);
      fail := RaiseUnless(fail, lowRam, FAIL_TRANSLATION_LOW_RAM);
      var ramConsole := ExpectTranslation(table, RAM_CONSOLE_BASE, RAM_CONSOLE_BASE);
      fail := RaiseUnless(fail, ramConsole, FAIL_TRANSLATION_CONSOLE);
      var gic := ExpectTranslation(table, GIC_DIST_BASE, GIC_DIST_BASE);
      fail := RaiseUnless(fail, gic, FAIL_TRANSLATION_DEVICE);
    }

    /** The identity part of the dry run, on the load bounds and the workspace that was proposed for
        them. The layout's own faults are kept; an overflowing layout or an empty kernel range leaves
        everything unmapped with every check bit set, and otherwise no check raises anything and the
        table is the exact identity table. */
    method BuildIdentity(load: Load, proposal: Proposal)
      requires Valid()
      modifies this, arena
      ensures failure == BuildFault(LayOut(proposal, load).fail, load.physBase < load.physEnd)
      ensures MapsIdentity(LayOut(proposal, load).fail, load.physBase < load.physEnd) ==>
                forall va: u32 :: Translate(Table(), va) ==
                                  if IdentityCovers(load.physBase, load.physEnd, va) then Mapped(va) else Unmapped
      ensures !MapsIdentity(LayOut(proposal, load).fail, load.physBase < load.physEnd) ==> AllZero(Table())
      ensures forall i :: 0 <= i < ENTRIES ==> Table()[i] == 0 || FullAccessStronglyOrdered(Table()[i])
      ensures tailZeroed && AllZero(arena[ENTRIES..])
    {
      hide MapAll, InRanges, IdentityCovers, IdentityRanges, Translate, ByteOf, LayOut, Raise, Flag, Has, CheckFault,
           FullAccessStronglyOrdered;
      Clear();
      ghost var zero := Table();
      var layout := LayOut(proposal, load).fail;
      failure := RaiseUnless(layout, load.physBase < load.physEnd, FAIL_KERNEL_MAPPING);
      MappingBits(layout, load.physBase < load.physEnd);
      if !Has(failure, FAIL_NO_MAPPING) {
        MapIdentity(load.physBase, load.physEnd);
        var checks := CheckIdentity(load.physBase, load.physEnd);
        IdentityIsBuilt(zero, load.physBase, load.physEnd);
        RaiseNone(failure);
        failure := Raise(failure, checks);
      } else {
        failure := Raise(failure, FAIL_ALL_CHECKS);
      }
      TailReadsZero(arena[..]);
      tailZeroed := TailZeroed(arena);
    }
  }

  method RaiseUnless(m: bv32, ok: bool, bit: bv32) returns (r: bv32)
    ensures r == Raise(m, Flag(!ok, bit))
  {
    hide Raise;
    RaiseNone(m);
    r := if ok then m else Raise(m, bit);
  }

  /** The bits that keep the table from being built: layout overflow, and the three mappings, of which
      only the kernel's can fail for these constants. */
  const FAIL_NO_MAPPING: bv32 := 0x3c

  predicate MapsIdentity(layout: bv32, kernel: bool) {
    !Has(layout, FAIL_NO_MAPPING) && kernel
  }

  function BuildFault(layout: bv32, kernel: bool): bv32 {
    var fault := Raise(layout, Flag(!kernel, FAIL_KERNEL_MAPPING));
    if MapsIdentity(layout, kernel) then fault else Raise(fault, FAIL_ALL_CHECKS)
  }

  lemma MappingBits(layout: bv32, kernel: bool)
    ensures Has(Raise(layout, Flag(!kernel, FAIL_KERNEL_MAPPING)), FAIL_NO_MAPPING) <==> !MapsIdentity(layout, kernel)
  {
    hide Raise, Has;
    RaiseHas(layout, Flag(!kernel, FAIL_KERNEL_MAPPING), FAIL_NO_MAPPING);
    KernelBit();
  }

  lemma KernelBit()
    ensures Has(FAIL_KERNEL_MAPPING, FAIL_NO_MAPPING) && !Has(0, FAIL_NO_MAPPING)
  {
  }

  lemma IdentityIsBuilt(zero: seq<u32>, physBase: u32, physEnd: u32)
    requires |zero| == ENTRIES && AllZero(zero) && physBase < physEnd
    ensures var table := MapAll(zero, IdentityRanges(physBase, physEnd), DESC_SECTION_SO);
            && CheckFault(table, physBase, physEnd) == 0
            && (forall va: u32 :: Translate(table, va) ==
                                  if IdentityCovers(physBase, physEnd, va) then Mapped(va) else Unmapped)
            && forall i :: 0 <= i < ENTRIES ==> table[i] == 0 || FullAccessStronglyOrdered(table[i])
  {
    hide MapAll, InRanges, IdentityCovers, IdentityRanges, Translate, CheckFault, ReadsBack, TranslatesBoundaries,
         FullAccessStronglyOrdered;
    forall i | 0 <= i < ENTRIES
      ensures var w := MapAll(zero, IdentityRanges(physBase, physEnd), DESC_SECTION_SO)[i];
              w == 0 || FullAccessStronglyOrdered(w)
    {
      IdentityFields(zero, physBase, physEnd, i);
    }
    var table := MapAll(zero, IdentityRanges(physBase, physEnd), DESC_SECTION_SO);
    ChecksHold(zero, physBase, physEnd);
    NoFault(table, physBase, physEnd);
    forall va: u32
      ensures Translate(table, va) == if IdentityCovers(physBase, physEnd, va) then Mapped(va) else Unmapped
    {
      IdentityTableExact(zero, physBase, physEnd, va);
    }
  }

  /** Every descriptor gives full access to strongly ordered memory of domain 0. */
  lemma IdentityFields(zero: seq<u32>, physBase: u32, physEnd: u32, i: nat)
    requires |zero| == ENTRIES && AllZero(zero) && physBase < physEnd && i < ENTRIES
    ensures var w := MapAll(zero, IdentityRanges(physBase, physEnd), DESC_SECTION_SO)[i];
            w == 0 || FullAccessStronglyOrdered(w)
  {
    hide MapAll, InRanges, IdentityRanges, SectionWord, SectionWordPa, FullAccessStronglyOrdered;
    MapAllIsUnion(zero, IdentityRanges(physBase, physEnd), DESC_SECTION_SO, i);
    IdentityWordIsPaWord(i, DESC_SECTION_SO);
    DescriptorFields(i * 0x10_0000);
  }

  lemma TailReadsZero(words: seq<u32>)
    requires |words| == WORKSPACE_WORDS && AllZero(words[ENTRIES..])
    ensures forall i :: 4 * ENTRIES <= i < 4 * WORKSPACE_WORDS ==> ByteOf(words, i) == 0
  {
    hide ByteOf;
    forall i | 4 * ENTRIES <= i < 4 * WORKSPACE_WORDS
      ensures ByteOf(words, i) == 0
    {
      assert words[ENTRIES..][i / 4 - ENTRIES] == words[i / 4];
      ZeroWordBytes(words, i);
    }
  }

  lemma ZeroWordBytes(words: seq<u32>, i: nat)
    requires i < 4 * |words| && words[i / 4] == 0
    ensures ByteOf(words, i) == 0
  {
  }

  lemma FourSteps(l1: seq<u32>, rs: seq<Sections>, flags: u32)
    requires |l1| == ENTRIES && |rs| == 4 && flags < SECTION
    ensures MapAll(l1, rs, flags) ==
            var a := IdentityMapped(l1, rs[0].first, rs[0].last, flags);
            var b := IdentityMapped(a, rs[1].first, rs[1].last, flags);
            var c := IdentityMapped(b, rs[2].first, rs[2].last, flags);
            IdentityMapped(c, rs[3].first, rs[3].last, flags)
  {
    hide IdentityMapped;
    var a := IdentityMapped(l1, rs[0].first, rs[0].last, flags);
    var b := IdentityMapped(a, rs[1].first, rs[1].last, flags);
    var c := IdentityMapped(b, rs[2].first, rs[2].last, flags);
    assert rs[1..][1..] == rs[2..] && rs[2..][1..] == rs[3..] && rs[3..][1..] == [];
    assert MapAll(a, rs[1..], flags) == MapAll(b, rs[2..], flags);
    assert MapAll(c, rs[3..], flags) == IdentityMapped(c, rs[3].first, rs[3].last, flags);
  }

  /** Every slot the four ranges name holds its descriptor. */
  predicate ReadsBack(table: seq<u32>, physBase: u32, physEnd: u32)
    requires |table| == ENTRIES && physEnd > 0
  {
    forall i: u32 :: i < ENTRIES && InRanges(IdentityRanges(physBase, physEnd), i) ==>
                       VerifySlot(table, i, DESC_SECTION_SO).ok
  }

  predicate TranslatesBoundaries(table: seq<u32>, physBase: u32, physEnd: u32)
    requires |table| == ENTRIES && physEnd > 0
  {
    && Translate(table, physBase) == Mapped(physBase) && Translate(table, physEnd - 1) == Mapped(physEnd - 1)
    && Translate(table, RAM_PHYS_BASE) == Mapped(RAM_PHYS_BASE)
    && Translate(table, RAM_CONSOLE_BASE) == Mapped(RAM_CONSOLE_BASE)
    && Translate(table, GIC_DIST_BASE) == Mapped(GIC_DIST_BASE)
  }

  predicate RangeReadsBack(table: seq<u32>, first: u32, last: u32)
    requires |table| == ENTRIES && last < ENTRIES
  {
    forall i :: first <= i <= last ==> VerifySlot(table, i, DESC_SECTION_SO).ok
  }

  lemma ReadBackMeaning(table: seq<u32>, physBase: u32, physEnd: u32)
    requires |table| == ENTRIES && physBase < physEnd
    ensures ReadsBack(table, physBase, physEnd) <==>
            && RangeReadsBack(table, Index(RAM_PHYS_BASE), LastIndex(RAM_CONSOLE_BASE))
            && RangeReadsBack(table, Index(physBase), LastIndex(physEnd))
            && VerifySlot(table, Index(RAM_CONSOLE_BASE), DESC_SECTION_SO).ok
            && RangeReadsBack(table, Index(GIC_DIST_BASE), Index(GIC_DIST_LAST))
    ensures Index(physBase) <= LastIndex(physEnd) < ENTRIES
  {
    hide AttrsOk, SectionWord;
    var rs := IdentityRanges(physBase, physEnd);
    assert rs[0] in rs && rs[1] in rs && rs[2] in rs && rs[3] in rs;
    assert forall r :: r in rs ==> r == rs[0] || r == rs[1] || r == rs[2] || r == rs[3];
    if ReadsBack(table, physBase, physEnd) {
      forall i: u32 | i < ENTRIES && InRanges(rs, i)
        ensures VerifySlot(table, i, DESC_SECTION_SO).ok
      {
      }
    }
  }

  lemma EndsHaveAttrs(table: seq<u32>, first: u32, last: u32)
    requires |table| == ENTRIES && first <= last < ENTRIES
    ensures RangeReadsBack(table, first, last) ==>
              AttrsOk(table[first], DESC_SECTION_SO) && AttrsOk(table[last], DESC_SECTION_SO)
  {
    hide AttrsOk, SectionWord;
    if RangeReadsBack(table, first, last) {
      assert VerifySlot(table, first, DESC_SECTION_SO).ok && VerifySlot(table, last, DESC_SECTION_SO).ok;
    }
  }

  // ----- what the checks raise -----

  /** The boundary words read back. */
  function Observed(table: seq<u32>, physBase: u32, physEnd: u32): (r: seq<u32>)
    requires |table| == ENTRIES && physBase < physEnd
  {
    IndicesInTable(physBase, physEnd);
    [table[Index(RAM_PHYS_BASE)], table[LastIndex(RAM_CONSOLE_BASE)], table[Index(physBase)], table[LastIndex(physEnd)],
     table[Index(RAM_CONSOLE_BASE)], table[Index(GIC_DIST_BASE)], table[Index(GIC_DIST_LAST)]]
  }

  lemma IndicesInTable(physBase: u32, physEnd: u32)
    requires physBase < physEnd
    ensures Index(physBase) <= LastIndex(physEnd) < ENTRIES && LastIndex(RAM_CONSOLE_BASE) < ENTRIES
  {
  }

  /** The OR of the attribute bits, and of the type bits, of the words seen. */
  function AttrFold(words: seq<u32>): nat {
    if words == [] then 0 else Or(AttrFold(words[..|words| - 1]), Offset(words[|words| - 1]))
  }

  function TypeFold(words: seq<u32>): nat {
    if words == [] then 0 else Or(TypeFold(words[..|words| - 1]), Type(words[|words| - 1]))
  }

  /** The attribute verdict: each word on its own, and both folds. */
  predicate AttrsSeen(words: seq<u32>) {
    && (forall w :: w in words ==> AttrsOk(w, DESC_SECTION_SO))
    && AttrFold(words) == Offset(DESC_SECTION_SO) && TypeFold(words) == TYPE_SECTION
  }

  /** The folds add nothing to the verdict on the words. */
  lemma {:induction false} FoldsFollow(words: seq<u32>)
    requires forall w :: w in words ==> AttrsOk(w, DESC_SECTION_SO)
    ensures words != [] ==> AttrFold(words) == Offset(DESC_SECTION_SO) && TypeFold(words) == TYPE_SECTION
    decreases |words|
  {
    hide Or, Offset, Type;
    if words != [] {
      var rest := words[..|words| - 1];
      assert words[|words| - 1] in words && forall w :: w in rest ==> w in words;
      FoldsFollow(rest);
      OrSelf(Offset(DESC_SECTION_SO));
      OrSelf(TYPE_SECTION);
      OrZero(Offset(DESC_SECTION_SO));
      OrZero(TYPE_SECTION);
    }
  }

  function CheckFault(table: seq<u32>, physBase: u32, physEnd: u32): bv32
    requires |table| == ENTRIES && physBase < physEnd
  {
    Raise(Raise(Raise(Raise(Raise(Raise(0,
      Flag(!ReadsBack(table, physBase, physEnd), FAIL_DESCRIPTOR_READBACK)),
      Flag(!AttrsSeen(Observed(table, physBase, physEnd)), FAIL_DESCRIPTOR_ATTRS)),
      Flag(!(Translate(table, physBase) == Mapped(physBase) && Translate(table, physEnd - 1) == Mapped(physEnd - 1)),
           FAIL_TRANSLATION_KERNEL)),
      Flag(Translate(table, RAM_PHYS_BASE) != Mapped(RAM_PHYS_BASE), FAIL_TRANSLATION_LOW_RAM)),
      Flag(Translate(table, RAM_CONSOLE_BASE) != Mapped(RAM_CONSOLE_BASE), FAIL_TRANSLATION_CONSOLE)),
      Flag(Translate(table, GIC_DIST_BASE) != Mapped(GIC_DIST_BASE), FAIL_TRANSLATION_DEVICE))
  }

  lemma NoFault(table: seq<u32>, physBase: u32, physEnd: u32)
    requires |table| == ENTRIES && physBase < physEnd
    requires ReadsBack(table, physBase, physEnd) && TranslatesBoundaries(table, physBase, physEnd)
    ensures CheckFault(table, physBase, physEnd) == 0
  {
    hide Raise, ReadsBack, Translate, AttrsOk, RangeReadsBack;
    ReadBackMeaning(table, physBase, physEnd);
    EndsHaveAttrs(table, Index(RAM_PHYS_BASE), LastIndex(RAM_CONSOLE_BASE));
    EndsHaveAttrs(table, Index(physBase), LastIndex(physEnd));
    EndsHaveAttrs(table, Index(GIC_DIST_BASE), Index(GIC_DIST_LAST));
    FoldsFollow(Observed(table, physBase, physEnd));
    RaiseNone(0);
  }

  /** The addresses whose descriptors are kept as the boundary words. */
  function BoundaryAddresses(physBase: u32, physEnd: u32): seq<u32>
    requires physBase < physEnd
  {
    [RAM_PHYS_BASE, RAM_CONSOLE_BASE - 1, physBase, physEnd - 1, RAM_CONSOLE_BASE, GIC_DIST_BASE, GIC_DIST_LAST]
  }

  lemma ObservedAre(table: seq<u32>, physBase: u32, physEnd: u32)
    requires |table| == ENTRIES && physBase < physEnd
    ensures var seen, at := Observed(table, physBase, physEnd), BoundaryAddresses(physBase, physEnd);
            |seen| == |at| && forall k :: 0 <= k < |at| ==> seen[k] == table[at[k] / SECTION]
  {
  }

  lemma AttrsMean(words: seq<u32>)
    requires words != []
    ensures AttrsSeen(words) <==> forall w :: w in words ==> w % SECTION == DESC_SECTION_SO
  {
    hide AttrFold, TypeFold;
    forall w: u32
      ensures AttrsOk(w, DESC_SECTION_SO) <==> w % SECTION == DESC_SECTION_SO
    {
      TypeIsInOffset(w);
    }
    if forall w :: w in words ==> AttrsOk(w, DESC_SECTION_SO) {
      FoldsFollow(words);
    }
  }

  /** The descriptor of the address's section is the one that maps it to itself. */
  predicate HasOwnWord(table: seq<u32>, va: u32)
    requires |table| == ENTRIES
  {
    table[va / SECTION] == va - va % SECTION + DESC_SECTION_SO
  }

  predicate HasAttrs(table: seq<u32>, va: u32)
    requires |table| == ENTRIES
  {
    table[va / SECTION] % SECTION == DESC_SECTION_SO
  }

  ghost predicate SomeWordMissing(table: seq<u32>, physBase: u32, physEnd: u32)
    requires |table| == ENTRIES && physBase < physEnd
  {
    exists va: u32 :: IdentityCovers(physBase, physEnd, va) && !HasOwnWord(table, va)
  }

  predicate SomeAttrsWrong(table: seq<u32>, physBase: u32, physEnd: u32)
    requires |table| == ENTRIES && physBase < physEnd
  {
    exists a: u32 :: a in BoundaryAddresses(physBase, physEnd) && !HasAttrs(table, a)
  }

  lemma ReadsBackMeans(table: seq<u32>, physBase: u32, physEnd: u32)
    requires |table| == ENTRIES && physBase < physEnd
    ensures ReadsBack(table, physBase, physEnd) <==>
            forall va: u32 :: IdentityCovers(physBase, physEnd, va) ==> HasOwnWord(table, va)
  {
    hide IdentityCovers, InRanges, IdentityRanges, VerifySlot;
    if ReadsBack(table, physBase, physEnd) {
      forall va: u32 | IdentityCovers(physBase, physEnd, va)
        ensures HasOwnWord(table, va)
      {
        RangesAreCoverage(physBase, physEnd, va);
        VerifySlotMeans(table, va / SECTION, DESC_SECTION_SO);
        Split(va);
      }
    }
    if forall va: u32 :: IdentityCovers(physBase, physEnd, va) ==> HasOwnWord(table, va) {
      forall i: u32 | i < ENTRIES && InRanges(IdentityRanges(physBase, physEnd), i)
        ensures VerifySlot(table, i, DESC_SECTION_SO).ok
      {
        var va: u32 := i * SECTION;
        IndexOfSection(i);
        RangesAreCoverage(physBase, physEnd, va);
        assert HasOwnWord(table, va);
        VerifySlotMeans(table, i, DESC_SECTION_SO);
      }
    }
  }

  lemma IndexOfSection(i: nat)
    requires i < ENTRIES
    ensures i * SECTION < TWO32 && i * SECTION / SECTION == i && i * SECTION % SECTION == 0
  {
  }

  /** What the checks raise on any table, bit by bit: a covered section without its own descriptor, a
      boundary word with other attributes, and each of the five addresses not translated to itself. */
  lemma ChecksMean(table: seq<u32>, physBase: u32, physEnd: u32)
    requires |table| == ENTRIES && physBase < physEnd
    ensures var f := CheckFault(table, physBase, physEnd);
            && (Has(f, 0x200) <==> SomeWordMissing(table, physBase, physEnd))
            && (Has(f, 0x400) <==> SomeAttrsWrong(table, physBase, physEnd))
            && (Has(f, 0x800) <==> Translate(table, physBase) != Mapped(physBase) ||
                                   Translate(table, physEnd - 1) != Mapped(physEnd - 1))
            && (Has(f, 0x1000) <==> Translate(table, 0x8000_0000) != Mapped(0x8000_0000))
            && (Has(f, 0x2000) <==> Translate(table, 0xde50_0000) != Mapped(0xde50_0000))
            && (Has(f, 0x4000) <==> Translate(table, 0xf900_0000) != Mapped(0xf900_0000))
            && Without(f, 0x7e00) == 0
  {
    hide Translate, ReadsBack, AttrsSeen, Observed, IdentityCovers, BoundaryAddresses, HasOwnWord, HasAttrs;
    ReadsBackMeans(table, physBase, physEnd);
    BoundaryAttrs(table, physBase, physEnd);
    SixFlags(!ReadsBack(table, physBase, physEnd), !AttrsSeen(Observed(table, physBase, physEnd)),
             !(Translate(table, physBase) == Mapped(physBase) && Translate(table, physEnd - 1) == Mapped(physEnd - 1)),
             Translate(table, RAM_PHYS_BASE) != Mapped(RAM_PHYS_BASE),
             Translate(table, RAM_CONSOLE_BASE) != Mapped(RAM_CONSOLE_BASE),
             Translate(table, GIC_DIST_BASE) != Mapped(GIC_DIST_BASE));
    hide Raise, Has, Without, Flag;
  }

  lemma BoundaryAttrs(table: seq<u32>, physBase: u32, physEnd: u32)
    requires |table| == ENTRIES && physBase < physEnd
    ensures AttrsSeen(Observed(table, physBase, physEnd)) <==>
            forall a: u32 :: a in BoundaryAddresses(physBase, physEnd) ==> HasAttrs(table, a)
  {
    hide AttrsSeen, Observed, BoundaryAddresses;
    var seen, at := Observed(table, physBase, physEnd), BoundaryAddresses(physBase, physEnd);
    ObservedAre(table, physBase, physEnd);
    assert |at| == 7 by { SevenBoundaries(physBase, physEnd); }
    AttrsMean(seen);
    if forall w :: w in seen ==> w % SECTION == DESC_SECTION_SO {
      forall a: u32 | a in at
        ensures HasAttrs(table, a)
      {
        var k :| 0 <= k < |at| && at[k] == a;
        assert seen[k] in seen;
      }
    }
    if forall a: u32 :: a in at ==> HasAttrs(table, a) {
      forall w | w in seen
        ensures w % SECTION == DESC_SECTION_SO
      {
        var k :| 0 <= k < |seen| && seen[k] == w;
        assert at[k] in at && HasAttrs(table, at[k]);
      }
    }
  }

  lemma SevenBoundaries(physBase: u32, physEnd: u32)
    requires physBase < physEnd
    ensures |BoundaryAddresses(physBase, physEnd)| == 7
  {
  }

  lemma SixFlags(a: bool, b: bool, c: bool, d: bool, e: bool, f: bool)
    ensures var x := Raise(Raise(Raise(Raise(Raise(Raise(0, Flag(a, FAIL_DESCRIPTOR_READBACK)),
                                                   Flag(b, FAIL_DESCRIPTOR_ATTRS)),
                                             Flag(c, FAIL_TRANSLATION_KERNEL)),
                                       Flag(d, FAIL_TRANSLATION_LOW_RAM)),
                                 Flag(e, FAIL_TRANSLATION_CONSOLE)),
                           Flag(f, FAIL_TRANSLATION_DEVICE));
            && (Has(x, 0x200) <==> a) && (Has(x, 0x400) <==> b) && (Has(x, 0x800) <==> c)
            && (Has(x, 0x1000) <==> d) && (Has(x, 0x2000) <==> e) && (Has(x, 0x4000) <==> f)
            && Without(x, 0x7e00) == 0
  {
  }

  /** The whole failure word: the layout's faults stay, an empty kernel range is one more, and when the
      table could not be built all six checks count as failed. */
  lemma BuildFaultMeans(layout: bv32, kernel: bool)
    ensures var f, blocked := BuildFault(layout, kernel), Has(layout, 0x3c) || !kernel;
            && (Has(f, 0x8) <==> Has(layout, 0x8) || !kernel)
            && Without(f, 0x7e08) == Without(layout, 0x7e08)
            && (if blocked then HasAll(f, 0x7e00) else f == layout)
  {
    var fault := Raise(layout, Flag(!kernel, FAIL_KERNEL_MAPPING));
    hide Raise, Has, HasAll, Without;
    RaiseNone(layout);
    KernelFault(layout);
    ChecksFault(fault);
  }

  lemma KernelFault(m: bv32)
    ensures Has(Raise(m, 0x8), 0x8) && Without(Raise(m, 0x8), 0x7e08) == Without(m, 0x7e08)
  {
    var x := Raise(m, 0x8);
    RaiseHas(m, 0x8, 0x8);
    WithoutRaised(m, 0x8, 0x7e08);
    hide Raise, Without;
  }

  lemma ChecksFault(m: bv32)
    ensures HasAll(Raise(m, 0x7e00), 0x7e00) && Without(Raise(m, 0x7e00), 0x7e08) == Without(m, 0x7e08)
    ensures Has(Raise(m, 0x7e00), 0x8) <==> Has(m, 0x8)
  {
    hide Raise, Has, HasAll, Without;
    CheckBits();
    RaiseHas(m, 0x7e00, 0x8);
    WithoutRaised(m, 0x7e00, 0x7e08);
    AllRaised(m, 0x7e00);
  }

  lemma AllRaised(m: bv32, x: bv32)
    ensures HasAll(Raise(m, x), x)
  {
  }

  lemma CheckBits()
    ensures !Has(0x7e00, 0x8) && Without(0x7e00, 0x7e08) == 0
  {
  }

  /** All checks pass on any table the map calls produce from an empty one. */
  lemma ChecksHold(l1: seq<u32>, physBase: u32, physEnd: u32)
    requires |l1| == ENTRIES && AllZero(l1) && physBase < physEnd
    ensures var table := MapAll(l1, IdentityRanges(physBase, physEnd), DESC_SECTION_SO);
            ReadsBack(table, physBase, physEnd) && TranslatesBoundaries(table, physBase, physEnd)
  {
    hide MapAll, InRanges, SectionWord, IdentityRanges, AttrsOk, VerifySlot, Translate;
    var rs := IdentityRanges(physBase, physEnd);
    assert SectionFlags(DESC_SECTION_SO);
    forall i: u32 | i < ENTRIES && InRanges(rs, i)
      ensures VerifySlot(MapAll(l1, rs, DESC_SECTION_SO), i, DESC_SECTION_SO).ok
    {
      MappedSlotVerifies(l1, rs, DESC_SECTION_SO, i);
    }
    IdentityTableExact(l1, physBase, physEnd, physBase);
    IdentityTableExact(l1, physBase, physEnd, physEnd - 1);
    IdentityTableExact(l1, physBase, physEnd, RAM_PHYS_BASE);
    IdentityTableExact(l1, physBase, physEnd, RAM_CONSOLE_BASE);
    IdentityTableExact(l1, physBase, physEnd, GIC_DIST_BASE);
    Split(physBase);
    Split(physEnd - 1);
  }
}
