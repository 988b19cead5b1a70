/** The table for the kernel's virtual addresses, compared with the load plan's physical addresses. */
module HighVaTable {
  import opened Words
  import opened Bits
  import opened Masks
  import opened MachoFormat
  import opened SectionTable
  import opened SectionTheorems

  const FAIL_HIGHVA_MAPPING: bv32 := 0x1_0000
  const FAIL_HIGHVA_TRANSLATION: bv32 := 0x2_0000
  const FAIL_HIGHVA: bv32 := 0x3_0000

  predicate HasRanges(vmBase: u32, vmEnd: u32, physBase: u32, physEnd: u32) {
    vmBase < vmEnd && physBase < physEnd
  }

  /** The table the mapping loop builds from an empty one. */
  function HighVaMapped(l1: seq<u32>, vmBase: u32, vmEnd: u32, physBase: u32): (r: seq<u32>)
    requires |l1| == ENTRIES && vmBase < vmEnd
    ensures |r| == ENTRIES
  {
    SpanIsPositive(vmBase, vmEnd);
    RangeMapped(l1, Base(vmBase), Base(physBase), vmEnd - Base(vmBase), DESC_SECTION_SO)
  }

  lemma SpanIsPositive(vmBase: u32, vmEnd: u32)
    requires vmBase < vmEnd
    ensures Base(vmBase) < vmEnd
  {
  }

  lemma BaseOfBase(w: u32)
    ensures Base(Base(w)) == Base(w)
  {
  }

  lemma TouchedBetween(vmBase: u32, vmEnd: u32, va: u32)
    requires vmBase < vmEnd && Base(vmBase) <= va < vmEnd
    ensures Base(vmBase) < vmEnd
    ensures Touches(Base(vmBase), vmEnd - Base(vmBase), Index(va))
    ensures HighVaCovers(vmBase, vmEnd, va)
  {
  }

  /** The addresses the table is meant to reach: the sections that hold a byte of the kernel. */
  predicate HighVaCovers(vmBase: u32, vmEnd: u32, va: u32)
    requires vmBase < vmEnd
  {
    Base(vmBase) <= va <= Base(vmEnd - 1) + 0xf_ffff
  }

  lemma CoversIsTouched(vmBase: u32, vmEnd: u32, va: u32)
    requires vmBase < vmEnd
    ensures Base(vmBase) < vmEnd
    ensures InTouched(Base(vmBase), vmEnd - Base(vmBase), va) <==> HighVaCovers(vmBase, vmEnd, va)
  {
    BaseIsMultiple(vmBase);
  }

  lemma MovedBetweenBases(vmBase: u32, physBase: u32, va: u32)
    ensures var v, p := Base(vmBase), Base(physBase);
            p - p % SECTION + va - (v - v % SECTION) == p + va - v
  {
    BaseIsMultiple(vmBase);
    BaseIsMultiple(physBase);
  }

  /** Every address of those sections moves by the distance between the two base sections, in wrapping
      arithmetic, and every other address is translated as before. */
  lemma HighVaMoves(l1: seq<u32>, vmBase: u32, vmEnd: u32, physBase: u32, va: u32)
    requires |l1| == ENTRIES && vmBase < vmEnd
    ensures Translate(HighVaMapped(l1, vmBase, vmEnd, physBase), va) ==
            if HighVaCovers(vmBase, vmEnd, va) then Mapped(Wrap(Base(physBase) + va - Base(vmBase)))
            else Translate(l1, va)
  {
    hide RangeMapped, Translate, Wrap, Base, Index, Touches, InTouched, HighVaCovers;
    SpanIsPositive(vmBase, vmEnd);
    CoversIsTouched(vmBase, vmEnd, va);
    MovedBetweenBases(vmBase, physBase, va);
    RangeTranslates(l1, Base(vmBase), Base(physBase), vmEnd - Base(vmBase), DESC_SECTION_SO, va);
  }

  /** From an empty table the covered addresses are exactly those translated. */
  lemma HighVaExact(l1: seq<u32>, vmBase: u32, vmEnd: u32, physBase: u32, va: u32)
    requires |l1| == ENTRIES && AllZero(l1) && vmBase < vmEnd
    ensures Translate(HighVaMapped(l1, vmBase, vmEnd, physBase), va) ==
            if HighVaCovers(vmBase, vmEnd, va) then Mapped(Wrap(Base(physBase) + va - Base(vmBase))) else Unmapped
  {
    hide HighVaMapped, Wrap, Base, HighVaCovers;
    HighVaMoves(l1, vmBase, vmEnd, physBase, va);
  }

  /** And every descriptor in it gives full access to strongly ordered memory of domain 0. */
  lemma HighVaFields(l1: seq<u32>, vmBase: u32, vmEnd: u32, physBase: u32, i: nat)
    requires |l1| == ENTRIES && AllZero(l1) && vmBase < vmEnd && i < ENTRIES
    ensures var w := HighVaMapped(l1, vmBase, vmEnd, physBase)[i]; w == 0 || FullAccessStronglyOrdered(w)
  {
    hide SectionWordPa, FullAccessStronglyOrdered, Touches, Base, TargetSection;
    SpanIsPositive(vmBase, vmEnd);
    DescriptorFields(TargetSection(Base(vmBase), Base(physBase), i));
  }

  /** Every address up to the end of the kernel is covered. */
  lemma HighVaTranslates(l1: seq<u32>, vmBase: u32, vmEnd: u32, physBase: u32, va: u32)
    requires |l1| == ENTRIES && vmBase < vmEnd && Base(vmBase) <= va < vmEnd
    ensures Translate(HighVaMapped(l1, vmBase, vmEnd, physBase), va) ==
            Mapped(Wrap(Base(physBase) + va - Base(vmBase)))
  {
    hide HighVaMapped, Translate, Wrap, Base, Index, Touches, HighVaCovers;
    TouchedBetween(vmBase, vmEnd, va);
    HighVaMoves(l1, vmBase, vmEnd, physBase, va);
  }

  /** An address that lies `va - vmBase` above the base is translated to that distance above the start of
      RAM plus the base's offset in its section. */
  lemma HighVaFromBase(l1: seq<u32>, vmBase: u32, vmEnd: u32, va: u32)
    requires |l1| == ENTRIES && vmBase <= va < vmEnd
    requires RAM_PHYS_BASE + (va - vmBase) < RAM_CONSOLE_BASE
    ensures var phys := RAM_PHYS_BASE + (va - vmBase);
            var seen := Translate(HighVaMapped(l1, vmBase, vmEnd, RAM_PHYS_BASE), va);
            && seen == Mapped(phys + vmBase % SECTION)
            && (seen == Mapped(phys) <==> vmBase % SECTION == 0)
  {
    hide HighVaMapped, Translate, Wrap, Index, Base;
    HighVaTranslates(l1, vmBase, vmEnd, RAM_PHYS_BASE, va);
    WrapSmall(RAM_PHYS_BASE + va - Base(vmBase));
    RamIsAligned();
    BaseAndOffset(vmBase);
  }

  lemma BaseAndOffset(w: u32)
    ensures Base(w) + w % SECTION == w
  {
  }

  lemma RamIsAligned()
    ensures Base(RAM_PHYS_BASE) == RAM_PHYS_BASE
  {
  }

  class HighVa {
    const l1: array<u32>
    var failure: bv32

    ghost predicate Valid()
      reads this
    {
      l1.Length == ENTRIES
    }

    constructor ()
      ensures Valid() && fresh(l1) && AllZero(l1[..])
    {
      l1 := new u32[ENTRIES](_ => 0);
      failure := 0;
    }

    /** Maps the kernel range into the cleared table, then reads back and translates both ends. The
        checks never fail: the only failure is a missing range. */
    method Build(vmBase: u32, vmEnd: u32, physBase: u32, physEnd: u32)
      requires Valid() && AllZero(l1[..])
      modifies this, l1
      ensures failure == (if HasRanges(vmBase, vmEnd, physBase, physEnd) then 0 else FAIL_HIGHVA)
      ensures l1[..] == if HasRanges(vmBase, vmEnd, physBase, physEnd)
                        then HighVaMapped(old(l1[..]), vmBase, vmEnd, physBase) else old(l1[..])
      ensures HasRanges(vmBase, vmEnd, physBase, physEnd) ==> MapsKernelExactly(l1[..], vmBase, vmEnd, physBase)
    {
      hide MapsKernelExactly, RangeMapped, EndSlotsHold, EndsTranslate, Raise, Base, Index, LastIndex, Sub32;
      FirstBeforeLastIf(vmBase, vmEnd);
      failure := FAIL_HIGHVA;
      if vmEnd <= vmBase || physEnd <= physBase {
        return;
      }
      var virtBase, paBase := Base(vmBase), Base(physBase);
      SpanIsPositive(vmBase, vmEnd);
      SubExact(vmEnd, virtBase);
      var size := Sub32(vmEnd, virtBase);
      HighVaIsBuilt(l1[..], vmBase, vmEnd, physBase);
      if Index(virtBase) <= LastIndex(vmEnd) && LastIndex(vmEnd) < ENTRIES && size != 0 {
        EndsVerify(l1[..], vmBase, vmEnd, physBase);
        MapSectionRangePa(l1, virtBase, paBase, size, DESC_SECTION_SO);
        failure := CheckEnds(l1[..], virtBase, vmEnd - 1, paBase);
        RaiseNone(0);
      }
    }
  }

  /** The table translates exactly the sections of the kernel, by the distance between the two bases,
      and all its descriptors have the one set of attributes. */
  predicate MapsKernelExactly(table: seq<u32>, vmBase: u32, vmEnd: u32, physBase: u32)
    requires |table| == ENTRIES && vmBase < vmEnd
  {
    && (forall va: u32 :: Translate(table, va) ==
                          if HighVaCovers(vmBase, vmEnd, va)
                          then Mapped(Wrap(Base(physBase) + va - Base(vmBase))) else Unmapped)
    && forall i :: 0 <= i < ENTRIES ==> table[i] == 0 || FullAccessStronglyOrdered(table[i])
  }

  lemma HighVaIsBuilt(zero: seq<u32>, vmBase: u32, vmEnd: u32, physBase: u32)
    requires |zero| == ENTRIES && AllZero(zero) && vmBase < vmEnd
    ensures MapsKernelExactly(HighVaMapped(zero, vmBase, vmEnd, physBase), vmBase, vmEnd, physBase)
  {
    hide HighVaMapped, Translate, Wrap, Base, HighVaCovers, FullAccessStronglyOrdered;
    var t := HighVaMapped(zero, vmBase, vmEnd, physBase);
    forall va: u32
      ensures Translate(t, va) == if HighVaCovers(vmBase, vmEnd, va)
                                  then Mapped(Wrap(Base(physBase) + va - Base(vmBase))) else Unmapped
    {
      HighVaExact(zero, vmBase, vmEnd, physBase, va);
    }
    forall i | 0 <= i < ENTRIES
      ensures t[i] == 0 || FullAccessStronglyOrdered(t[i])
    {
      HighVaFields(zero, vmBase, vmEnd, physBase, i);
    }
  }

  /** The first and last slots hold the descriptors that were meant, and both ends translate. */
  predicate EndsHold(table: seq<u32>, virtBase: u32, lastVa: u32, paBase: u32)
    requires |table| == ENTRIES
  {
    EndSlotsHold(table, virtBase, lastVa, paBase) && EndsTranslate(table, virtBase, lastVa, paBase)
  }

  predicate EndSlotsHold(table: seq<u32>, virtBase: u32, lastVa: u32, paBase: u32)
    requires |table| == ENTRIES
  {
    && VerifySlotPa(table, virtBase, paBase, DESC_SECTION_SO).ok
    && VerifySlotPa(table, lastVa, SectionPaForVa(lastVa, virtBase, paBase), DESC_SECTION_SO).ok
  }

  predicate EndsTranslate(table: seq<u32>, virtBase: u32, lastVa: u32, paBase: u32)
    requires |table| == ENTRIES
  {
    && Translate(table, virtBase) == Mapped(ExpectedSectionPa(virtBase, paBase))
    && Translate(table, lastVa) == Mapped(ExpectedSectionPa(lastVa, SectionPaForVa(lastVa, virtBase, paBase)))
  }

  lemma SectionPaIsTarget(va: u32, vaBase: u32, paBase: u32)
    ensures SectionPaForVa(va, vaBase, paBase) == TargetSection(vaBase, paBase, Index(va))
  {
    Split(va);
  }

  /** The place of an address, moved by the distance between two sections. */
  function Place(va: u32, virtBase: u32, paBase: u32): u32 {
    Wrap(Base(paBase) + va - Base(virtBase))
  }

  /** What the checks decide on any table: the slots of both ends hold the words of their places, and both
      ends are translated to their places. */
  lemma EndsMean(table: seq<u32>, virtBase: u32, lastVa: u32, paBase: u32)
    requires |table| == ENTRIES
    ensures EndSlotsHold(table, virtBase, lastVa, paBase) <==>
            && table[virtBase / SECTION] == Base(paBase) + 0x1_0c02
            && table[lastVa / SECTION] == Place(lastVa, virtBase, paBase) - lastVa % SECTION + 0x1_0c02
    ensures EndsTranslate(table, virtBase, lastVa, paBase) <==>
            && Translate(table, virtBase) == Mapped(Base(paBase) + virtBase % SECTION)
            && Translate(table, lastVa) == Mapped(Place(lastVa, virtBase, paBase))
  {
    hide Base, TargetSection, SectionPaForVa, Translate, VerifySlotPa, Place;
    var lastPa := SectionPaForVa(lastVa, virtBase, paBase);
    SectionPaIsTarget(lastVa, virtBase, paBase);
    VerifySlotPaMeans(table, virtBase, paBase, DESC_SECTION_SO);
    VerifySlotPaMeans(table, lastVa, lastPa, DESC_SECTION_SO);
    assert Place(lastVa, virtBase, paBase) == lastPa - lastPa % SECTION + lastVa % SECTION by {
      TargetOfAddress(virtBase, paBase, lastVa);
      PlaceIs(lastVa, virtBase, paBase);
    }
  }

  lemma PlaceIs(va: u32, virtBase: u32, paBase: u32)
    ensures Place(va, virtBase, paBase) == Wrap(Base(paBase) + va - Base(virtBase))
  {
  }

  method CheckEnds(table: seq<u32>, virtBase: u32, lastVa: u32, paBase: u32) returns (fail: bv32)
    requires |table| == ENTRIES
    ensures fail == Raise(Flag(!EndSlotsHold(table, virtBase, lastVa, paBase), FAIL_HIGHVA_MAPPING),
                          Flag(!EndsTranslate(table, virtBase, lastVa, paBase), FAIL_HIGHVA_TRANSLATION))
  {
    hide VerifySlotPa, Translate, SectionPaForVa, ExpectedSectionPa, Raise;
    RaiseNone(0);
    RaiseNone(FAIL_HIGHVA_MAPPING);
    var lastPa := SectionPaForVa(lastVa, virtBase, paBase);
    var first := VerifySlotPa(table, virtBase, paBase, DESC_SECTION_SO);
    var last := VerifySlotPa(table, lastVa, lastPa, DESC_SECTION_SO);
    fail := 0;
    if !(first.ok && last.ok) {
      fail := FAIL_HIGHVA_MAPPING;
    }
    if Translate(table, virtBase) != Mapped(ExpectedSectionPa(virtBase, paBase)) ||
       Translate(table, lastVa) != Mapped(ExpectedSectionPa(lastVa, lastPa)) {
      fail := Raise(fail, FAIL_HIGHVA_TRANSLATION);
    }
  }

  lemma SubExact(a: u32, b: u32)
    ensures b <= a ==> Sub32(a, b) == a - b
  {
  }

  lemma FirstBeforeLastIf(vmBase: u32, vmEnd: u32)
    ensures vmBase < vmEnd ==> Index(Base(vmBase)) <= LastIndex(vmEnd) < ENTRIES
  {
  }

  /** The slot of any touched address is the descriptor the check expects, and translates as expected. */
  lemma TouchedSlotVerifies(l1: seq<u32>, vmBase: u32, vmEnd: u32, physBase: u32, va: u32)
    requires |l1| == ENTRIES && vmBase < vmEnd && Base(vmBase) <= va < vmEnd
    ensures var t := HighVaMapped(l1, vmBase, vmEnd, physBase);
            var pa := SectionPaForVa(va, Base(vmBase), Base(physBase));
            && VerifySlotPa(t, va, pa, DESC_SECTION_SO).ok
            && Translate(t, va) == Mapped(ExpectedSectionPa(va, pa))
  {
    hide SectionWordPa, Translate;
    SpanIsPositive(vmBase, vmEnd);
    TouchedBetween(vmBase, vmEnd, va);
    Split(va);
    BaseOfBase(vmBase);
    BaseOfBase(physBase);
    var t, pa := HighVaMapped(l1, vmBase, vmEnd, physBase), SectionPaForVa(va, Base(vmBase), Base(physBase));
    assert t[Index(va)] == SectionWordPa(pa, DESC_SECTION_SO);
    PaWordFields(pa, DESC_SECTION_SO);
    SlotTranslates(t, va, pa, DESC_SECTION_SO);
  }

  lemma EndsVerify(l1: seq<u32>, vmBase: u32, vmEnd: u32, physBase: u32)
    requires |l1| == ENTRIES && vmBase < vmEnd
    ensures EndsHold(HighVaMapped(l1, vmBase, vmEnd, physBase), Base(vmBase), vmEnd - 1, Base(physBase))
  {
    hide HighVaMapped, VerifySlotPa, Translate, Base, SectionPaForVa, ExpectedSectionPa;
    SpanIsPositive(vmBase, vmEnd);
    BaseNotAbove(vmBase, vmEnd);
    FirstTarget(vmBase, physBase);
    TouchedSlotVerifies(l1, vmBase, vmEnd, physBase, Base(vmBase));
    TouchedSlotVerifies(l1, vmBase, vmEnd, physBase, vmEnd - 1);
  }

  lemma BaseNotAbove(vmBase: u32, vmEnd: u32)
    requires vmBase < vmEnd
    ensures Base(vmBase) <= vmEnd - 1
  {
  }

  lemma FirstTarget(vmBase: u32, physBase: u32)
    ensures SectionPaForVa(Base(vmBase), Base(vmBase), Base(physBase)) == Base(physBase)
  {
    BaseOfBase(physBase);
  }
}
