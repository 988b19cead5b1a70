/** The names the prober knows: which name stands behind which bit. */
module MachoNames {
  import opened Words
  import opened Masks
  import opened MachoFormat

  /** The segment names, each with its bit. */
  const SEGMENT_NAMES: seq<(string, bv32)> :=
    [("__TEXT", 0x1), ("__DATA", 0x2), ("__LINKEDIT", 0x4), ("__KLD", 0x8), ("__LAST", 0x10),
     ("__PRELINK_TEXT", 0x20), ("__PRELINK_INFO", 0x40), ("__PRELINK_STATE", 0x80), ("__PRELINK", 0x100)]

  /** The section names, segment first, each with its bit. */
  const SECTION_NAMES: seq<(string, string, bv32)> :=
    [("__TEXT", "__text", 0x1), ("__DATA", "__const", 0x2), ("__PRELINK_TEXT", "__text", 0x4),
     ("__PRELINK_INFO", "__info", 0x8), ("__PRELINK_INFO", "__kernel", 0x10), ("__PRELINK_INFO", "__kexts", 0x20),
     ("__PRELINK_STATE", "__kernel", 0x40), ("__PRELINK_STATE", "__kexts", 0x80), ("__PRELINK", "__symtab", 0x100)]

  predicate Plain(s: string) {
    |s| < 16 && forall i :: 0 <= i < |s| ==> 0 < s[i] as int < 256
  }

  /** A field spells at most one name. */
  lemma OneName(field: seq<byte>, s: string, t: string)
    requires |field| == 16 && Plain(s) && Plain(t) && NameIs(field, s) && NameIs(field, t)
    ensures s == t
  {
    LengthOfName(field, s, t);
    LengthOfName(field, t, s);
    forall i | 0 <= i < |s|
      ensures s[i] == t[i]
    {
      NameLetter(field, s, i);
      NameLetter(field, t, i);
    }
  }

  lemma LengthOfName(field: seq<byte>, s: string, t: string)
    requires |field| == 16 && Plain(s) && Plain(t) && NameIs(field, s) && NameIs(field, t)
    ensures |s| >= |t|
  {
    if |s| < |t| {
      NameLetter(field, t, |s|);
    }
  }

  lemma NameLetter(field: seq<byte>, t: string, k: nat)
    requires |field| == 16 && Plain(t) && NameIs(field, t) && k < |t|
    ensures field[k] == t[k] as int
  {
    assert field[..|t|][k] == Ascii(t)[k];
  }

  predicate AllPlain() {
    && (forall k :: 0 <= k < 9 ==> Plain(SEGMENT_NAMES[k].0))
    && (forall k :: 0 <= k < 9 ==> Plain(SECTION_NAMES[k].0) && Plain(SECTION_NAMES[k].1))
  }

  lemma PlainSegments()
    ensures Plain("__TEXT") && Plain("__DATA") && Plain("__LINKEDIT") && Plain("__KLD") && Plain("__LAST")
  {
  }

  lemma PlainPrelinks()
    ensures Plain("__PRELINK_TEXT") && Plain("__PRELINK_INFO") && Plain("__PRELINK_STATE") && Plain("__PRELINK")
  {
  }

  lemma PlainSections()
    ensures Plain("__text") && Plain("__const") && Plain("__info")
    ensures Plain("__kernel") && Plain("__kexts") && Plain("__symtab")
  {
  }

  lemma NamesArePlain()
    ensures AllPlain()
  {
    hide Plain;
    PlainSegments();
    PlainPrelinks();
    PlainSections();
  }

  lemma NamesDiffer(i: nat, j: nat)
    requires i < 9 && j < 9 && i != j
    ensures SEGMENT_NAMES[i].0 != SEGMENT_NAMES[j].0
  {
    assert "__TEXT"[2] == 'T' && "__DATA"[2] == 'D' && "__LAST"[2] == 'L';
    assert |"__KLD"| == 5 && |"__PRELINK"| == 9 && |"__LINKEDIT"| == 10 && |"__LAST"| == 6;
    assert "__PRELINK_TEXT"[10] == 'T' && "__PRELINK_INFO"[10] == 'I';
    assert |"__PRELINK_TEXT"| == |"__PRELINK_INFO"| == 14 && |"__PRELINK_STATE"| == 15;
  }

  lemma PairsDiffer(i: nat, j: nat)
    requires i < 9 && j < 9 && i != j
    ensures SECTION_NAMES[i].0 != SECTION_NAMES[j].0 || SECTION_NAMES[i].1 != SECTION_NAMES[j].1
  {
    assert "__PRELINK_TEXT"[10] == 'T' && "__PRELINK_INFO"[10] == 'I' && "__TEXT"[2] == 'T' && "__DATA"[2] == 'D';
    assert |"__PRELINK_TEXT"| == |"__PRELINK_INFO"| == 14 && |"__PRELINK_STATE"| == 15 && |"__PRELINK"| == 9;
    assert |"__info"| == 6 && |"__kernel"| == 8 && |"__kexts"| == 7 && |"__TEXT"| == |"__DATA"| == 6;
  }

  /** A segment name gives its own bit and no other name does. */
  lemma SegmentBit(name: seq<byte>, i: nat)
    requires |name| == 16 && i < 9
    ensures SegmentMask(name) == SEGMENT_NAMES[i].1 <==> NameIs(name, SEGMENT_NAMES[i].0)
    ensures Has(SegmentMask(name), SEGMENT_NAMES[i].1) <==> NameIs(name, SEGMENT_NAMES[i].0)
  {
    hide NameIs, Plain, Has;
    NamesArePlain();
    if NameIs(name, SEGMENT_NAMES[i].0) {
      forall j: nat | j < 9 && j != i
        ensures !NameIs(name, SEGMENT_NAMES[j].0)
      {
        NamesDiffer(i, j);
        if NameIs(name, SEGMENT_NAMES[j].0) {
          OneName(name, SEGMENT_NAMES[i].0, SEGMENT_NAMES[j].0);
        }
      }
      SegmentChain(name, i);
    } else {
      SegmentMiss(name, i);
    }
  }

  lemma SegmentChain(name: seq<byte>, i: nat)
    requires |name| == 16 && i < 9 && NameIs(name, SEGMENT_NAMES[i].0)
    requires forall j: nat :: j < 9 && j != i ==> !NameIs(name, SEGMENT_NAMES[j].0)
    ensures SegmentMask(name) == SEGMENT_NAMES[i].1 && Has(SegmentMask(name), SEGMENT_NAMES[i].1)
  {
    hide NameIs;
    assert forall j: nat :: j < 9 && j != i ==> !NameIs(name, SEGMENT_NAMES[j].0);
    assert SEGMENT_NAMES[0].0 == "__TEXT" && SEGMENT_NAMES[1].0 == "__DATA" && SEGMENT_NAMES[2].0 == "__LINKEDIT";
    assert SEGMENT_NAMES[3].0 == "__KLD" && SEGMENT_NAMES[4].0 == "__LAST" && SEGMENT_NAMES[5].0 == "__PRELINK_TEXT";
    assert SEGMENT_NAMES[6].0 == "__PRELINK_INFO" && SEGMENT_NAMES[7].0 == "__PRELINK_STATE";
    assert SEGMENT_NAMES[8].0 == "__PRELINK";
  }

  lemma SegmentMiss(name: seq<byte>, i: nat)
    requires |name| == 16 && i < 9 && !NameIs(name, SEGMENT_NAMES[i].0)
    ensures SegmentMask(name) != SEGMENT_NAMES[i].1 && !Has(SegmentMask(name), SEGMENT_NAMES[i].1)
  {
    hide NameIs;
  }

  predicate PairIs(s: Section, i: nat)
    requires |s.name| == |s.segment| == 16 && i < 9
  {
    NameIs(s.segment, SECTION_NAMES[i].0) && NameIs(s.name, SECTION_NAMES[i].1)
  }

  /** And so do the pairs of section names. */
  lemma SectionBit(s: Section, i: nat)
    requires |s.name| == |s.segment| == 16 && i < 9
    ensures SectionMask(s) == SECTION_NAMES[i].2 <==> PairIs(s, i)
    ensures Has(SectionMask(s), SECTION_NAMES[i].2) <==> PairIs(s, i)
  {
    hide NameIs, Plain, Has, SectionMask;
    NamesArePlain();
    if PairIs(s, i) {
      forall j: nat | j < 9 && j != i
        ensures !PairIs(s, j)
      {
        PairsDiffer(i, j);
        if PairIs(s, j) {
          OneName(s.segment, SECTION_NAMES[i].0, SECTION_NAMES[j].0);
          OneName(s.name, SECTION_NAMES[i].1, SECTION_NAMES[j].1);
        }
      }
      SectionChain(s, i);
    } else {
      SectionMiss(s, i);
    }
  }

  lemma SectionChain(s: Section, i: nat)
    requires |s.name| == |s.segment| == 16 && i < 9 && PairIs(s, i)
    requires forall j: nat :: j < 9 && j != i ==> !PairIs(s, j)
    ensures SectionMask(s) == SECTION_NAMES[i].2 && Has(SectionMask(s), SECTION_NAMES[i].2)
  {
    hide NameIs;
    PairsInOrder(s);
    forall j: nat | j < 9 && j != i
      ensures !PairIs(s, j)
    {
    }
  }

  lemma SectionMiss(s: Section, i: nat)
    requires |s.name| == |s.segment| == 16 && i < 9 && !PairIs(s, i)
    ensures SectionMask(s) != SECTION_NAMES[i].2 && !Has(SectionMask(s), SECTION_NAMES[i].2)
  {
    hide NameIs;
    PairsInOrder(s);
  }

  lemma PairsInOrder(s: Section)
    requires |s.name| == |s.segment| == 16
    ensures SectionMask(s) ==
            if PairIs(s, 0) then 0x1 else if PairIs(s, 1) then 0x2 else if PairIs(s, 2) then 0x4
            else if PairIs(s, 3) then 0x8 else if PairIs(s, 4) then 0x10 else if PairIs(s, 5) then 0x20
            else if PairIs(s, 6) then 0x40 else if PairIs(s, 7) then 0x80 else if PairIs(s, 8) then 0x100 else 0
  {
    hide NameIs;
  }
}
