/** ARMv7 first-level section tables: descriptor words, mapping loops, read-back and translation
    (short-descriptor section entries, section B3.5.1 of the ARMv7-A manual, DDI 0406C). */
module SectionTable {
  import opened Words
  import opened Bits

  const SECTION: int := 0x10_0000
  const ENTRIES: int := 4096
  const DESC_SECTION_SO: u32 := 0x1_0c02
  const TYPE_MASK: u32 := 0x3
  const TYPE_SECTION: u32 := 0x2
  const BASE_MASK: u32 := 0xfff0_0000
  const OFFSET_MASK: u32 := 0xf_ffff

  // ----- fields of a word -----

  /** A word is a section base plus an offset below one section. */
  function Base(w: u32): (r: u32)
    ensures r == w - w % SECTION && r % SECTION == 0
  {
    Pow2Values();
    AndHigh(w, 20, 32);
    BaseIsMultiple(w);
    And(w, BASE_MASK)
  }

  lemma BaseIsMultiple(w: u32)
    ensures (w - w % SECTION) % SECTION == 0
  {
  }

  function Offset(w: u32): (r: u32)
    ensures r == w % SECTION
  {
    Pow2Values();
    AndLow(w, 20);
    And(w, OFFSET_MASK)
  }

  function Type(w: u32): (r: u32)
    ensures r == w % 4
  {
    Pow2Values();
    AndLow(w, 2);
    And(w, TYPE_MASK)
  }

  function Index(va: u32): (r: u32)
    ensures r < 4096
  {
    va / 0x10_0000
  }

  /** Two fields joined by OR: the base comes back, and so does the offset. */
  function Join(base: u32, offset: u32): (r: u32)
    requires base % SECTION == 0 && offset < SECTION
    ensures r == base + offset
  {
    Pow2Values();
    OrDisjoint(base, offset, 20);
    JoinFits(base, offset);
    Or(base, offset)
  }

  lemma JoinFits(base: u32, offset: u32)
    requires base % SECTION == 0 && offset < SECTION
    ensures base + offset < TWO32
  {
  }

  // ----- descriptors -----

  function SectionWord(index: u32, flags: u32): u32
    requires index < 4096
  {
    Join(index * 0x10_0000, Offset(flags))
  }

  /** What the mapping loop stores: the flags are not masked there. */
  function StoredWord(index: u32, flags: u32): (r: u32)
    requires index < 4096
    ensures flags < SECTION ==> r == SectionWord(index, flags)
  {
    Pow2Values();
    OrBelow(index * 0x10_0000, flags, 32);
    StoredIsSection(index, flags);
    Or(index * 0x10_0000, flags)
  }

  lemma StoredIsSection(index: u32, flags: u32)
    requires index < 4096
    ensures flags < SECTION ==> Or(index * 0x10_0000, flags) == SectionWord(index, flags)
  {
    hide Or;
    Pow2Values();
    if flags < SECTION {
      OrDisjoint(index * 0x10_0000, flags, 20);
    }
  }

  function SectionWordPa(pa: u32, flags: u32): u32 {
    Join(Base(pa), Offset(flags))
  }

  predicate AttrsOk(word: u32, expected: u32) {
    Type(word) == TYPE_SECTION && Offset(word) == Offset(expected)
  }

  /** The flags of a section descriptor proper: attribute bits only, section type. */
  predicate SectionFlags(flags: u32) {
    flags < SECTION && flags % 4 == 2
  }

  // ----- translation -----

  datatype Translation = Unmapped | Mapped(pa: u32)

  function Translate(l1: seq<u32>, va: u32): Translation
    requires |l1| == ENTRIES
  {
    var desc := l1[Index(va)];
    if Type(desc) != TYPE_SECTION then Unmapped else Mapped(Join(Base(desc), Offset(va)))
  }

  // ----- identity mapping of index ranges -----

  /** The table after mapping sections first..last to themselves. */
  function IdentityMapped(l1: seq<u32>, first: u32, last: u32, flags: u32): (r: seq<u32>)
    requires |l1| == ENTRIES
    ensures |r| == ENTRIES
    ensures forall i :: 0 <= i < ENTRIES ==> r[i] == if first <= i <= last then StoredWord(i, flags) else l1[i]
  {
    seq(ENTRIES, i requires 0 <= i < ENTRIES => if first <= i <= last then StoredWord(i, flags) else l1[i])
  }

  method MapSection(l1: array<u32>, index: u32, flags: u32)
    requires l1.Length >= ENTRIES
    modifies l1
    ensures forall i :: 0 <= i < l1.Length ==>
                          l1[i] == if i == index && i < ENTRIES then StoredWord(index, flags) else old(l1[i])
  {
    if index < ENTRIES {
      l1[index] := StoredWord(index, flags);
    }
  }

  method MapSectionRange(l1: array<u32>, first: u32, last: u32, flags: u32)
    requires l1.Length >= ENTRIES
    modifies l1
    ensures l1[..ENTRIES] == IdentityMapped(old(l1[..ENTRIES]), first, last, flags)
    ensures l1[ENTRIES..] == old(l1[ENTRIES..])
  {
    hide StoredWord;
    var i := first;
    while i <= last && i < ENTRIES
      invariant first <= i && (i <= last + 1 || i == first)
      invariant forall k :: 0 <= k < l1.Length ==>
                              l1[k] == if first <= k < i && k < ENTRIES then StoredWord(k, flags) else old(l1[k])
    {
      MapSection(l1, i, flags);
      if i == UINT32_MAX {
        break;
      }
      i := i + 1;
    }
  }

  datatype SlotCheck = SlotCheck(ok: bool, word: u32)

  /** Reading one slot back: the word seen, and whether it is the descriptor that was meant. */
  function VerifySlot(l1: seq<u32>, index: u32, flags: u32): SlotCheck
    requires |l1| == ENTRIES
  {
    if index >= ENTRIES then SlotCheck(false, 0)
    else SlotCheck(l1[index] == SectionWord(index, flags) && AttrsOk(l1[index], flags), l1[index])
  }

  method VerifyRange(l1: seq<u32>, first: u32, last: u32, flags: u32) returns (ok: bool, firstWord: u32, lastWord: u32)
    requires |l1| == ENTRIES
    ensures ok <==> first <= last < ENTRIES && forall i :: first <= i <= last ==> VerifySlot(l1, i, flags).ok
    ensures first <= last < ENTRIES ==> firstWord == l1[first] && lastWord == l1[last]
  {
    hide AttrsOk, SectionWord;
    ok, firstWord, lastWord := true, 0, 0;
    if first > last || last >= ENTRIES {
      return false, 0, 0;
    }
    var i := first;
    while i <= last
      invariant first <= i <= last + 1
      invariant ok <==> forall k :: first <= k < i ==> VerifySlot(l1, k, flags).ok
      invariant i > first ==> firstWord == l1[first]
      invariant i > last ==> lastWord == l1[last]
    {
      var slot := VerifySlot(l1, i, flags);
      if !slot.ok {
        ok := false;
      }
      if i == first {
        firstWord := slot.word;
      }
      if i == last {
        lastWord := slot.word;
      }
      i := i + 1;
    }
  }

  // ----- mapping a range of addresses to another -----

  function LastIndex(limit: u32): u32
    requires limit > 0
  {
    (limit - 1) / 0x10_0000
  }

  predicate Touches(vaBase: u32, size: u32, index: int)
    requires size > 0 && vaBase + size < TWO32
  {
    Index(vaBase) <= index <= LastIndex(vaBase + size)
  }

  /** The physical section of virtual section `index`, in wrapping arithmetic. */
  function TargetSection(vaBase: u32, paBase: u32, index: u32): u32
    requires index < 4096
  {
    Add32(Base(paBase), Sub32(index * 0x10_0000, Base(vaBase)))
  }

  /** The table after mapping [vaBase, vaBase + size) onto paBase's section. */
  function RangeMapped(l1: seq<u32>, vaBase: u32, paBase: u32, size: u32, flags: u32): (r: seq<u32>)
    requires |l1| == ENTRIES
    ensures |r| == ENTRIES
    ensures forall i :: 0 <= i < ENTRIES ==>
      r[i] == if size != 0 && vaBase + size < TWO32 && Touches(vaBase, size, i)
              then SectionWordPa(TargetSection(vaBase, paBase, i), flags) else l1[i]
  {
    seq(ENTRIES, i requires 0 <= i < ENTRIES =>
      if size != 0 && vaBase + size < TWO32 && Touches(vaBase, size, i)
      then SectionWordPa(TargetSection(vaBase, paBase, i), flags) else l1[i])
  }

  method MapSectionPa(l1: array<u32>, va: u32, pa: u32, flags: u32)
    requires l1.Length == ENTRIES
    modifies l1
    ensures l1[..] == old(l1[..])[Index(va) := SectionWordPa(pa, flags)]
  {
    l1[Index(va)] := SectionWordPa(pa, flags);
  }

  method MapSectionRangePa(l1: array<u32>, vaBase: u32, paBase: u32, size: u32, flags: u32)
    requires l1.Length == ENTRIES
    modifies l1
    ensures l1[..] == RangeMapped(old(l1[..]), vaBase, paBase, size, flags)
  {
    hide SectionWordPa, TargetSection;
    if size == 0 || AddOverflow(vaBase, size) {
      return;
    }
    var first, last := Index(vaBase), LastIndex(Add32(vaBase, size));
    assert last < ENTRIES;
    var i := first;
    while i <= last && i < ENTRIES
      invariant first <= i <= last + 1
      invariant forall k :: 0 <= k < ENTRIES ==>
        l1[k] == if first <= k < i then SectionWordPa(TargetSection(vaBase, paBase, k), flags) else old(l1[k])
    {
      MapSectionPa(l1, i * 0x10_0000, TargetSection(vaBase, paBase, i), flags);
      i := i + 1;
    }
  }

  function VerifySlotPa(l1: seq<u32>, va: u32, expectedPa: u32, flags: u32): SlotCheck
    requires |l1| == ENTRIES
  {
    var word := l1[Index(va)];
    SlotCheck(word == SectionWordPa(expectedPa, flags) && Base(word) == Base(expectedPa) && AttrsOk(word, flags), word)
  }

  function ExpectedSectionPa(va: u32, paBase: u32): u32 {
    Join(Base(paBase), Offset(va))
  }

  function SectionPaForVa(va: u32, vaBase: u32, paBase: u32): u32 {
    Add32(Base(paBase), Sub32(Base(va), Base(vaBase)))
  }
}
