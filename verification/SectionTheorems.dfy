/** What a table built by the mapping loops translates. */
module SectionTheorems {
  import opened Words
  import opened Bits
  import opened SectionTable

  lemma Split(va: u32)
    ensures va == Index(va) * SECTION + va % SECTION
    ensures Base(va) == Index(va) * SECTION
  {
  }

  lemma PaWordFields(pa: u32, flags: u32)
    ensures Base(SectionWordPa(pa, flags)) == Base(pa)
    ensures Offset(SectionWordPa(pa, flags)) == Offset(flags)
    ensures Type(SectionWordPa(pa, flags)) == Type(flags)
  {
    hide And, Or, SectionWordPa, Base, Offset, Type;
    PaWordSum(pa, flags);
    JoinedFields(Base(pa), Offset(flags));
    TypeIsInOffset(flags);
  }

  lemma PaWordSum(pa: u32, flags: u32)
    ensures SectionWordPa(pa, flags) == Base(pa) + Offset(flags)
  {
    hide And, Or, Base, Offset;
  }

  lemma JoinedFields(base: u32, offset: u32)
    requires base % SECTION == 0 && offset < SECTION && base + offset < TWO32
    ensures (base + offset) % SECTION == offset && (base + offset) % 4 == offset % 4
  {
    var m := base / SECTION;
    assert base == m * SECTION;
    DivModUnique(base + offset, SECTION, m, offset);
    var q := offset / 4;
    assert base + offset == (m * 0x4_0000 + q) * 4 + offset % 4;
    DivModUnique(base + offset, 4, m * 0x4_0000 + q, offset % 4);
  }

  lemma TypeIsInOffset(w: u32)
    ensures w % SECTION % 4 == w % 4
  {
  }

  lemma IdentityWordIsPaWord(index: u32, flags: u32)
    requires index < 4096
    ensures SectionWord(index, flags) == SectionWordPa(index * 0x10_0000, flags)
  {
    hide Base, Offset, Join;
    DivModUnique(index * SECTION, SECTION, index, 0);
  }

  /** The mapping loop does not mask the flags it stores: in slot zero they are the whole word. */
  lemma StoredUnmasked(flags: u32)
    ensures StoredWord(0, flags) == flags
  {
    hide Or;
    OrZero(flags);
  }

  /** One descriptor translates every address of its section, keeping the low 20 bits, exactly when
      its flags are of section type. */
  lemma SlotTranslates(l1: seq<u32>, va: u32, pa: u32, flags: u32)
    requires |l1| == ENTRIES && l1[Index(va)] == SectionWordPa(pa, flags)
    ensures Translate(l1, va) ==
            if flags % 4 == 2 then Mapped(pa - pa % SECTION + va % SECTION) else Unmapped
  {
    PaWordFields(pa, flags);
  }

  lemma WrapOfSum(x: int, d: int)
    ensures Wrap(x + Wrap(d)) == Wrap(x + d)
  {
    var q := d / TWO32;
    var s := x + Wrap(d);
    assert x + d == (s / TWO32 + q) * TWO32 + s % TWO32;
    DivModUnique(x + d, TWO32, s / TWO32 + q, s % TWO32);
  }

  lemma WrapKeepsSections(x: int, offset: nat)
    requires x % SECTION == 0 && offset < SECTION
    ensures Wrap(x) % SECTION == 0
    ensures Wrap(x) + offset == Wrap(x + offset)
  {
    var m, q := x / SECTION, x / TWO32;
    assert Wrap(x) == (m - 4096 * q) * SECTION;
    DivModUnique(Wrap(x), SECTION, m - 4096 * q, 0);
    assert 0 <= m - 4096 * q < 4096;
    assert Wrap(x) + offset < TWO32;
    DivModUnique(x + offset, TWO32, q, Wrap(x) + offset);
  }

  lemma TargetIsBase(vaBase: u32, paBase: u32, index: u32)
    requires index < 4096
    ensures TargetSection(vaBase, paBase, index) == Wrap(Base(paBase) + (index * SECTION - Base(vaBase)))
  {
    hide Base, Wrap;
    WrapOfSum(Base(paBase), index * SECTION - Base(vaBase));
  }

  lemma BasesAddUp(a: u32, b: u32, index: u32)
    ensures (Base(a) + (index * SECTION - Base(b))) % SECTION == 0
  {
    var m := Base(a) / SECTION + index - Base(b) / SECTION;
    assert Base(a) + (index * SECTION - Base(b)) == m * SECTION;
    DivModUnique(Base(a) + (index * SECTION - Base(b)), SECTION, m, 0);
  }

  /** The address lies in a section that holds a byte of the range. */
  predicate InTouched(vaBase: u32, size: u32, va: u32)
    requires size > 0 && vaBase + size < TWO32
  {
    vaBase - vaBase % SECTION <= va <= vaBase + size - 1 - (vaBase + size - 1) % SECTION + 0xf_ffff
  }

  lemma TouchesMeans(vaBase: u32, size: u32, va: u32)
    requires size > 0 && vaBase + size < TWO32
    ensures Touches(vaBase, size, Index(va)) <==> InTouched(vaBase, size, va)
  {
    Split(va);
    Split(vaBase);
    Split(vaBase + size - 1);
  }

  /** Mapping a range moves every address of every touched section by the distance between the two
      base sections, and leaves every other address as it was. */
  lemma RangeTranslates(l1: seq<u32>, vaBase: u32, paBase: u32, size: u32, flags: u32, va: u32)
    requires |l1| == ENTRIES && size > 0 && vaBase + size < TWO32 && flags % 4 == 2
    ensures Translate(RangeMapped(l1, vaBase, paBase, size, flags), va) ==
            if InTouched(vaBase, size, va)
            then Mapped(Wrap(paBase - paBase % SECTION + va - (vaBase - vaBase % SECTION)))
            else Translate(l1, va)
  {
    hide SectionWordPa, TargetSection, Wrap, RangeMapped, Translate, Base, Index, Touches, InTouched;
    TouchesMeans(vaBase, size, va);
    var r := RangeMapped(l1, vaBase, paBase, size, flags);
    if Touches(vaBase, size, Index(va)) {
      var pa := TargetSection(vaBase, paBase, Index(va));
      SlotTranslates(r, va, pa, flags);
      TargetOfAddress(vaBase, paBase, va);
    } else {
      SameSlotTranslates(r, l1, va);
    }
  }

  lemma SameSlotTranslates(l1: seq<u32>, l1': seq<u32>, va: u32)
    requires |l1| == |l1'| == ENTRIES && l1[Index(va)] == l1'[Index(va)]
    ensures Translate(l1, va) == Translate(l1', va)
  {
  }

  lemma TargetOfAddress(vaBase: u32, paBase: u32, va: u32)
    ensures var pa := TargetSection(vaBase, paBase, Index(va));
            pa - pa % SECTION + va % SECTION == Wrap(Base(paBase) + va - Base(vaBase))
  {
    hide TargetSection, Wrap, Base, Index;
    TargetIsBase(vaBase, paBase, Index(va));
    BasesAddUp(paBase, vaBase, Index(va));
    Split(va);
    WrapKeepsSections(Base(paBase) + (Index(va) * SECTION - Base(vaBase)), va % SECTION);
    assert Base(paBase) + (Index(va) * SECTION - Base(vaBase)) + va % SECTION == Base(paBase) + va - Base(vaBase);
  }

  /** With no wrap in the physical addresses the distance is exact. */
  lemma RangeTranslatesExactly(l1: seq<u32>, vaBase: u32, paBase: u32, size: u32, flags: u32, va: u32)
    requires |l1| == ENTRIES && size > 0 && vaBase + size < TWO32 && flags % 4 == 2
    requires InTouched(vaBase, size, va)
    requires paBase - paBase % SECTION + (va - (vaBase - vaBase % SECTION)) < TWO32
    ensures Translate(RangeMapped(l1, vaBase, paBase, size, flags), va) ==
            Mapped(paBase - paBase % SECTION + (va - (vaBase - vaBase % SECTION)))
  {
    hide *;
    RangeTranslates(l1, vaBase, paBase, size, flags, va);
    TouchedIsAbove(vaBase, size, va);
    MovedSmall(paBase, vaBase, va);
  }

  lemma MovedSmall(paBase: u32, vaBase: u32, va: u32)
    ensures var moved := paBase - paBase % SECTION + va - (vaBase - vaBase % SECTION);
            && moved == paBase - paBase % SECTION + (va - (vaBase - vaBase % SECTION))
            && (vaBase - vaBase % SECTION <= va && moved < TWO32 ==> Wrap(moved) == moved)
  {
  }

  lemma TouchedIsAbove(vaBase: u32, size: u32, va: u32)
    requires size > 0 && vaBase + size < TWO32 && InTouched(vaBase, size, va)
    ensures vaBase - vaBase % SECTION <= va
  {
  }

  lemma WrapSmall(x: int)
    ensures 0 <= x < TWO32 ==> Wrap(x) == x
  {
  }

  // ----- reading back -----

  /** Reading a slot back succeeds exactly on the descriptor that was meant. */
  lemma VerifySlotMeans(l1: seq<u32>, index: u32, flags: u32)
    requires |l1| == ENTRIES && SectionFlags(flags)
    ensures VerifySlot(l1, index, flags).ok <==> index < ENTRIES && l1[index] == index * SECTION + flags
    ensures VerifySlot(l1, index, flags).word == if index < ENTRIES then l1[index] else 0
  {
    if index < ENTRIES {
      IdentityWordIsPaWord(index, flags);
      PaWordFields(index * 0x10_0000, flags);
      assert SectionWord(index, flags) == index * SECTION + flags;
    }
  }

  lemma VerifySlotPaMeans(l1: seq<u32>, va: u32, pa: u32, flags: u32)
    requires |l1| == ENTRIES && SectionFlags(flags)
    ensures VerifySlotPa(l1, va, pa, flags).ok <==> l1[va / SECTION] == pa - pa % SECTION + flags
    ensures VerifySlotPa(l1, va, pa, flags).word == l1[va / SECTION]
  {
    PaWordFields(pa, flags);
    assert SectionWordPa(pa, flags) == pa - pa % SECTION + flags;
  }

  /** A section that can be read, written and executed by everyone, strongly ordered, in domain 0:
      AP[1:0] = 3 and AP[2] = 0, XN = 0, TEX = 0, C = 0, B = 0. */
  predicate FullAccessStronglyOrdered(w: u32) {
    && w % 4 == 2
    && w / 0x400 % 4 == 3 && w / 0x8000 % 2 == 0
    && w / 0x10 % 2 == 0
    && w / 0x1000 % 8 == 0 && w / 8 % 2 == 0 && w / 4 % 2 == 0
    && w / 0x20 % 16 == 0
    && w / 0x4_0000 % 2 == 0
  }

  /** A field that lies below the base is not changed by it. */
  lemma FieldBelowBase(m: nat, c: nat, d: nat, n: nat, k: nat)
    requires d > 0 && n > 0 && d * (n * k) == SECTION
    ensures (m * SECTION + c) / d % n == c / d % n
  {
    var q := c / d;
    assert m * SECTION == m * (n * k) * d;
    assert m * SECTION + c == (m * (n * k) + q) * d + c % d;
    DivModUnique(m * SECTION + c, d, m * (n * k) + q, c % d);
    assert m * (n * k) + q == (m * k + q / n) * n + q % n;
    DivModUnique(m * (n * k) + q, n, m * k + q / n, q % n);
  }

  predicate FieldIs(w: u32, d: nat, n: nat, v: nat)
    requires d > 0 && n > 0
  {
    w / d % n == v
  }

  lemma DescriptorField(m: nat, w: u32, d: nat, n: nat, k: nat, v: nat)
    requires d > 0 && n > 0 && d * (n * k) == SECTION && w == m * SECTION + DESC_SECTION_SO
    requires DESC_SECTION_SO / d % n == v
    ensures FieldIs(w, d, n, v)
  {
    FieldBelowBase(m, DESC_SECTION_SO, d, n, k);
  }

  lemma DescriptorFields(pa: u32)
    ensures FullAccessStronglyOrdered(SectionWordPa(pa, DESC_SECTION_SO))
  {
    hide *;
    var m, w := Index(pa), SectionWordPa(pa, DESC_SECTION_SO);
    WordOfPa(pa);
    DescriptorFieldsOf(m, w);
  }

  lemma WordOfPa(pa: u32)
    ensures SectionWordPa(pa, DESC_SECTION_SO) == Index(pa) * SECTION + DESC_SECTION_SO
  {
    hide And, Or, Index;
    Split(pa);
  }

  lemma DescriptorFieldsOf(m: nat, w: u32)
    requires w == m * SECTION + DESC_SECTION_SO
    ensures FullAccessStronglyOrdered(w)
  {
    hide FieldIs, FullAccessStronglyOrdered;
    DescriptorField(m, w, 1, 4, 0x4_0000, 2);
    DescriptorField(m, w, 0x400, 4, 0x100, 3);
    DescriptorField(m, w, 0x8000, 2, 0x10, 0);
    DescriptorField(m, w, 0x10, 2, 0x8000, 0);
    DescriptorField(m, w, 0x1000, 8, 0x20, 0);
    DescriptorField(m, w, 8, 2, 0x1_0000, 0);
    DescriptorField(m, w, 4, 2, 0x2_0000, 0);
    DescriptorField(m, w, 0x20, 16, 0x800, 0);
    DescriptorField(m, w, 0x4_0000, 2, 2, 0);
    FieldsMeet(w);
  }

  lemma FieldsMeet(w: u32)
    requires FieldIs(w, 1, 4, 2) && FieldIs(w, 0x400, 4, 3) && FieldIs(w, 0x8000, 2, 0) && FieldIs(w, 0x10, 2, 0)
    requires FieldIs(w, 0x1000, 8, 0) && FieldIs(w, 8, 2, 0) && FieldIs(w, 4, 2, 0) && FieldIs(w, 0x20, 16, 0)
    requires FieldIs(w, 0x4_0000, 2, 0)
    ensures FullAccessStronglyOrdered(w)
  {
  }

  // ----- identity tables -----

  datatype Sections = Sections(first: u32, last: u32)

  /** Mapping a list of index ranges one after another. */
  function MapAll(l1: seq<u32>, ranges: seq<Sections>, flags: u32): (r: seq<u32>)
    requires |l1| == ENTRIES && flags < SECTION
    ensures |r| == ENTRIES
    decreases |ranges|
  {
    if ranges == [] then l1
    else MapAll(IdentityMapped(l1, ranges[0].first, ranges[0].last, flags), ranges[1..], flags)
  }

  predicate InRanges(ranges: seq<Sections>, index: int) {
    exists r :: r in ranges && r.first <= index <= r.last
  }

  /** Overlap and order do not matter: a slot is mapped exactly when some range covers it. */
  lemma {:induction false} MapAllIsUnion(l1: seq<u32>, ranges: seq<Sections>, flags: u32, i: int)
    requires |l1| == ENTRIES && flags < SECTION && 0 <= i < ENTRIES
    ensures MapAll(l1, ranges, flags)[i] == if InRanges(ranges, i) then SectionWord(i, flags) else l1[i]
    decreases |ranges|
  {
    hide SectionWord;
    if ranges != [] {
      assert ranges == [ranges[0]] + ranges[1..];
      MapAllIsUnion(IdentityMapped(l1, ranges[0].first, ranges[0].last, flags), ranges[1..], flags, i);
    }
  }

  /** Two lists of ranges covering the same sections build the same table. */
  lemma OrderIsIrrelevant(l1: seq<u32>, ranges: seq<Sections>, ranges': seq<Sections>, flags: u32)
    requires |l1| == ENTRIES && flags < SECTION
    requires forall i :: 0 <= i < ENTRIES ==> (InRanges(ranges, i) <==> InRanges(ranges', i))
    ensures MapAll(l1, ranges, flags) == MapAll(l1, ranges', flags)
  {
    hide MapAll, InRanges, SectionWord;
    forall i | 0 <= i < ENTRIES
      ensures MapAll(l1, ranges, flags)[i] == MapAll(l1, ranges', flags)[i]
    {
      MapAllIsUnion(l1, ranges, flags, i);
      MapAllIsUnion(l1, ranges', flags, i);
    }
  }

  predicate AllZero(l1: seq<u32>) {
    forall i :: 0 <= i < |l1| ==> l1[i] == 0
  }

  /** An identity table built from an empty one translates an address to itself when its section is in
      some range, and rejects it otherwise. */
  lemma IdentityTranslates(l1: seq<u32>, ranges: seq<Sections>, flags: u32, va: u32)
    requires |l1| == ENTRIES && AllZero(l1) && SectionFlags(flags)
    ensures Translate(MapAll(l1, ranges, flags), va) == if InRanges(ranges, Index(va)) then Mapped(va) else Unmapped
  {
    hide MapAll, InRanges, SectionWord, SectionWordPa;
    var i := Index(va);
    MapAllIsUnion(l1, ranges, flags, i);
    if InRanges(ranges, i) {
      IdentityWordIsPaWord(i, flags);
      SlotTranslates(MapAll(l1, ranges, flags), va, i * 0x10_0000, flags);
      Split(va);
    }
  }

  /** Every slot of a mapped range reads back as the descriptor that was meant. */
  lemma MappedSlotVerifies(l1: seq<u32>, ranges: seq<Sections>, flags: u32, i: u32)
    requires |l1| == ENTRIES && SectionFlags(flags) && i < ENTRIES && InRanges(ranges, i)
    ensures VerifySlot(MapAll(l1, ranges, flags), i, flags).ok
    ensures MapAll(l1, ranges, flags)[i] == SectionWord(i, flags) && AttrsOk(SectionWord(i, flags), flags)
  {
    hide MapAll, InRanges, SectionWord, SectionWordPa;
    MapAllIsUnion(l1, ranges, flags, i);
    IdentityWordIsPaWord(i, flags);
    PaWordFields(i * 0x10_0000, flags);
  }
}
