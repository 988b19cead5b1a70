/** A family of small artifacts: three segments, three sections and an entry command. They show that the
    theorems about acceptance and materialization speak of something, and give a concrete artifact for
    each way an accepted file can fail to materialize. */
module Specimen {
  import opened Words
  import opened Runtime
  import opened Masks
  import opened MachoFormat
  import opened MachoSpec
  import opened MachoLayout
  import opened MachoParse
  import opened MachoPlan
  import opened MachoAccept
  import opened MachoFrame
  import opened StagingSpec
  import opened StagingImage
  import opened StagingTheorems

  // ----- writing the format -----

  function WordBytes(ws: seq<u32>): (r: seq<byte>)
    ensures |r| == 4 * |ws|
  {
    if ws == [] then [] else Bytes32(ws[0]) + WordBytes(ws[1..])
  }

  function Name16(s: string): (r: seq<byte>)
    requires |s| < 16
    ensures |r| == 16
  {
    Ascii(s) + Zeros(16 - |s|)
  }

  function SegmentBytes(g: Segment, cmdsize: u32): (r: seq<byte>)
    requires |g.name| == 16
    ensures |r| == 56
  {
    WordBytes([LC_SEGMENT, cmdsize]) + g.name +
    WordBytes([g.vmaddr, g.vmsize, g.fileoff, g.filesize, 0, 0, g.nsects, 0])
  }

  function SectionBytes(s: Section): (r: seq<byte>)
    requires |s.name| == |s.segment| == 16
    ensures |r| == 68
  {
    s.name + s.segment + WordBytes([s.addr, s.size, s.offset, 0, 0, 0, 0, 0, 0])
  }

  lemma {:induction false} WordRead(b: seq<byte>, o: nat, ws: seq<u32>, i: nat)
    requires At(b, o, WordBytes(ws)) && i < |ws|
    ensures o + 4 * i + 4 <= |b| && Le32(b, o + 4 * i) == ws[i]
    decreases |ws|
  {
    hide At, Le32, Bytes32;
    AtSplits(b, o, Bytes32(ws[0]), WordBytes(ws[1..]));
    if i == 0 {
      WordAt(b, o, ws[0]);
    } else {
      WordRead(b, o + 4, ws[1..], i - 1);
      InsideOf(b, o, ws);
    }
  }

  lemma InsideOf(b: seq<byte>, o: nat, ws: seq<u32>)
    requires At(b, o, WordBytes(ws))
    ensures o + 4 * |ws| <= |b|
  {
  }

  /** What was written as a segment command is read as that segment. */
  lemma SegmentRead(b: seq<byte>, o: nat, g: Segment, cmdsize: u32)
    requires |g.name| == 16 && At(b, o, SegmentBytes(g, cmdsize))
    ensures o + 56 <= |b| && Cmd(b, o) == LC_SEGMENT && CmdSize(b, o) == cmdsize && SegmentAt(b, o) == g
  {
    hide At, WordBytes, Le32;
    var head, tail := [LC_SEGMENT, cmdsize], [g.vmaddr, g.vmsize, g.fileoff, g.filesize, 0, 0, g.nsects, 0];
    AtSplits(b, o, WordBytes(head) + g.name, WordBytes(tail));
    AtSplits(b, o, WordBytes(head), g.name);
    WordRead(b, o, head, 0);
    WordRead(b, o, head, 1);
    WordRead(b, o + 24, tail, 0);
    WordRead(b, o + 24, tail, 1);
    WordRead(b, o + 24, tail, 2);
    WordRead(b, o + 24, tail, 3);
    WordRead(b, o + 24, tail, 6);
    InsideOf(b, o + 24, tail);
    AtIs(b, o + 8, g.name);
  }

  lemma SectionRead(b: seq<byte>, o: nat, s: Section)
    requires |s.name| == |s.segment| == 16 && At(b, o, SectionBytes(s))
    ensures o + 68 <= |b| && SectionAt(b, o) == s
  {
    hide At, WordBytes, Le32;
    var tail := [s.addr, s.size, s.offset, 0, 0, 0, 0, 0, 0];
    AtSplits(b, o, s.name + s.segment, WordBytes(tail));
    AtSplits(b, o, s.name, s.segment);
    AtIs(b, o, s.name);
    AtIs(b, o + 16, s.segment);
    WordRead(b, o + 32, tail, 0);
    WordRead(b, o + 32, tail, 1);
    WordRead(b, o + 32, tail, 2);
    InsideOf(b, o + 32, tail);
  }

  // ----- the family -----

  /** What varies: the last segment's memory size, file size and file offset, how many zero bytes follow
      in the file, and whether the markers are there. */
  datatype Shape = Shape(vmsize: u32, filesize: u32, fileoff: u32, padding: nat, marked: bool)

  const BASE: u32 := 0x8000_1000
  const TOP: u32 := 0x8000_4000
  const TEXT := Segment(Name16("__TEXT"), BASE, 0x1000, 0, 452, 3)
  const DATA := Segment(Name16("__DATA"), 0x8000_2000, 0x1000, 0, 0, 0)
  const TEXT_TEXT := Section(Name16("__text"), Name16("__TEXT"), 0x8000_1198, 9, 408)
  const DATA_CONST := Section(Name16("__const"), Name16("__DATA"), 0x8000_11a4, 9, 420)
  const PRELINK_TEXT := Section(Name16("__text"), Name16("__PRELINK_TEXT"), 0x8000_11b0, 17, 432)

  function Linkedit(s: Shape): (g: Segment)
    ensures |g.name| == 16
  {
    Segment(Name16("__LINKEDIT"), TOP, s.vmsize, s.fileoff, s.filesize, 0)
  }

  function Payload(marked: bool): (r: seq<byte>)
    ensures |r| == 44
  {
    if marked
    then Ascii(TEXT_MARKER) + Zeros(3) + Ascii(DATA_MARKER) + Zeros(3) + Ascii(PRELINK_MARKER) + Zeros(3)
    else Zeros(44)
  }

  const HEADER_WORDS: seq<u32> := [MAGIC, CPU_TYPE_ARM, CPU_SUBTYPE_ARM_V7, FILETYPE_EXECUTE, 4, 380, 0]

  function TextCommand(): (r: seq<byte>)
    ensures |r| == 260
  {
    SegmentBytes(TEXT, 260) + SectionBytes(TEXT_TEXT) + SectionBytes(DATA_CONST) + SectionBytes(PRELINK_TEXT)
  }

  function Artifact(s: Shape): (b: seq<byte>)
    ensures |b| == 452 + s.padding
  {
    WordBytes(HEADER_WORDS) + TextCommand() + SegmentBytes(DATA, 56) + SegmentBytes(Linkedit(s), 56) +
    WordBytes([LC_MAIN, 8]) + Payload(s.marked) + Zeros(s.padding)
  }

  const OFFS: seq<nat> := [28, 288, 344, 400]

  /** The last segment's file range lies in the file. */
  predicate Small(s: Shape) {
    s.vmsize <= 0x1000 && s.fileoff + s.filesize <= 452 + s.padding && s.padding <= 0x1_0000
  }

  lemma TextAt(b: seq<byte>)
    requires At(b, 28, TextCommand())
    ensures At(b, 28, SegmentBytes(TEXT, 260)) && At(b, 84, SectionBytes(TEXT_TEXT))
    ensures At(b, 152, SectionBytes(DATA_CONST)) && At(b, 220, SectionBytes(PRELINK_TEXT))
  {
    hide At, SegmentBytes, SectionBytes;
    var seg, x := SegmentBytes(TEXT, 260), SectionBytes(TEXT_TEXT);
    var y, z := SectionBytes(DATA_CONST), SectionBytes(PRELINK_TEXT);
    AtSplits(b, 28, seg + x + y, z);
    AtSplits(b, 28, seg + x, y);
    AtSplits(b, 28, seg, x);
  }

  lemma ArtifactAt(s: Shape)
    ensures var b := Artifact(s);
            && At(b, 0, WordBytes(HEADER_WORDS)) && At(b, 28, TextCommand())
            && At(b, 288, SegmentBytes(DATA, 56)) && At(b, 344, SegmentBytes(Linkedit(s), 56))
            && At(b, 400, WordBytes([LC_MAIN, 8])) && At(b, 408, Payload(s.marked))
  {
    hide At, WordBytes, SegmentBytes, TextCommand, Payload, Linkedit, Zeros;
    var header, text, data := WordBytes(HEADER_WORDS), TextCommand(), SegmentBytes(DATA, 56);
    var link, main := SegmentBytes(Linkedit(s), 56), WordBytes([LC_MAIN, 8]);
    var payload, pad := Payload(s.marked), Zeros(s.padding);
    var b := Artifact(s);
    assert At(b, 0, header + text + data + link + main + payload + pad) by { WholeIsAt(b); }
    AtSplits(b, 0, header + text + data + link + main + payload, pad);
    AtSplits(b, 0, header + text + data + link + main, payload);
    AtSplits(b, 0, header + text + data + link, main);
    AtSplits(b, 0, header + text + data, link);
    AtSplits(b, 0, header + text, data);
    AtSplits(b, 0, header, text);
  }

  lemma WholeIsAt(b: seq<byte>)
    ensures At(b, 0, b)
  {
  }

  // ----- it is well formed -----

  predicate HeaderIs(h: Header) {
    h == Header(MAGIC, CPU_TYPE_ARM, CPU_SUBTYPE_ARM_V7, FILETYPE_EXECUTE, 4, 380, 0)
  }

  lemma ArtifactHeader(s: Shape)
    ensures HeaderIs(HeaderAt(Artifact(s)))
  {
    hide At, WordBytes, Le32, Artifact, SegmentBytes, TextCommand, Payload, Linkedit;
    var b := Artifact(s);
    ArtifactAt(s);
    WordRead(b, 0, HEADER_WORDS, 0);
    WordRead(b, 0, HEADER_WORDS, 1);
    WordRead(b, 0, HEADER_WORDS, 2);
    WordRead(b, 0, HEADER_WORDS, 3);
    WordRead(b, 0, HEADER_WORDS, 4);
    WordRead(b, 0, HEADER_WORDS, 5);
    WordRead(b, 0, HEADER_WORDS, 6);
  }

  /** Every command of the artifact, as the parser sees it. */
  predicate CommandsAre(b: seq<byte>, s: Shape) {
    && |b| == 452 + s.padding
    && Cmd(b, 28) == LC_SEGMENT && CmdSize(b, 28) == 260 && SegmentAt(b, 28) == TEXT
    && SectionAt(b, 84) == TEXT_TEXT && SectionAt(b, 152) == DATA_CONST && SectionAt(b, 220) == PRELINK_TEXT
    && Cmd(b, 288) == LC_SEGMENT && CmdSize(b, 288) == 56 && SegmentAt(b, 288) == DATA
    && Cmd(b, 344) == LC_SEGMENT && CmdSize(b, 344) == 56 && SegmentAt(b, 344) == Linkedit(s)
    && Cmd(b, 400) == LC_MAIN && CmdSize(b, 400) == 8
  }

  lemma ArtifactCommands(s: Shape)
    ensures CommandsAre(Artifact(s), s)
  {
    hide At, WordBytes, SegmentBytes, SectionBytes, TextCommand, Payload, Linkedit, Artifact, SegmentAt,
         SectionAt, Le32;
    var b := Artifact(s);
    ArtifactAt(s);
    TextAt(b);
    SegmentRead(b, 28, TEXT, 260);
    SectionRead(b, 84, TEXT_TEXT);
    SectionRead(b, 152, DATA_CONST);
    SectionRead(b, 220, PRELINK_TEXT);
    SegmentRead(b, 288, DATA, 56);
    SegmentRead(b, 344, Linkedit(s), 56);
    WordRead(b, 400, [LC_MAIN, 8], 0);
    WordRead(b, 400, [LC_MAIN, 8], 1);
  }

  lemma ArtifactTiles(b: seq<byte>, s: Shape)
    requires CommandsAre(b, s)
    ensures Tiling(b, OFFS, 28, 408) && AllIn(b, OFFS) && Segments(b, OFFS) == [TEXT, DATA, Linkedit(s)]
  {
    hide SegmentAt, SectionAt, Linkedit, Cmd, CmdSize;
    var o1, o2, o3: seq<nat> := [288, 344, 400], [344, 400], [400];
    assert OFFS[1..] == o1 && o1[1..] == o2 && o2[1..] == o3 && o3[1..] == [];
    assert Tiling(b, [], 408, 408);
    assert Tiling(b, o3, 400, 408);
    assert Tiling(b, o2, 344, 408);
    assert Tiling(b, o1, 288, 408);
    TilingIn(b, OFFS, 28, 408);
    assert AllIn(b, o3) && AllIn(b, o2) && AllIn(b, o1);
    assert Segments(b, o3) == [];
    assert Segments(b, o2) == [Linkedit(s)];
    assert Segments(b, o1) == [DATA, Linkedit(s)];
  }

  lemma NameOf(s: string)
    requires |s| < 16
    ensures NameIs(Name16(s), s)
  {
    assert Name16(s)[..|s|] == Ascii(s);
  }

  /** Two names that differ in a character are not confused. */
  lemma OtherName(s: string, t: string, k: nat)
    requires |s| < 16 && |t| < 16 && k < |s| && k < |t| && (s[k] as int) % 256 != (t[k] as int) % 256
    ensures !NameIs(Name16(s), t)
  {
    assert Name16(s)[k] == Ascii(s)[k] != Ascii(t)[k];
    assert Name16(s)[..|t|][k] == Name16(s)[k];
  }

  lemma NamesAre(s: Shape)
    ensures SegmentMask(TEXT.name) == SEG_TEXT && SegmentMask(DATA.name) == SEG_DATA
    ensures SegmentMask(Linkedit(s).name) == SEG_LINKEDIT
    ensures SectionMask(TEXT_TEXT) == SECT_TEXT_TEXT && SectionMask(DATA_CONST) == SECT_DATA_CONST
    ensures SectionMask(PRELINK_TEXT) == SECT_PRELINK_TEXT_TEXT
  {
    hide NameIs, Name16;
    NameOf("__TEXT");
    NameOf("__DATA");
    NameOf("__LINKEDIT");
    NameOf("__PRELINK_TEXT");
    NameOf("__text");
    NameOf("__const");
    OtherName("__DATA", "__TEXT", 2);
    OtherName("__LINKEDIT", "__TEXT", 2);
    OtherName("__LINKEDIT", "__DATA", 2);
    OtherName("__PRELINK_TEXT", "__TEXT", 2);
    OtherName("__PRELINK_TEXT", "__DATA", 2);
  }

  lemma SelfHas()
    ensures Has(SEG_TEXT, SEG_TEXT) && Has(SEG_DATA, SEG_DATA) && Has(SEG_LINKEDIT, SEG_LINKEDIT)
    ensures Has(SECT_TEXT_TEXT, SECT_TEXT_TEXT) && Has(SECT_DATA_CONST, SECT_DATA_CONST)
  {
  }

  lemma ArtifactNames(b: seq<byte>, s: Shape)
    requires CommandsAre(b, s) && AllIn(b, OFFS)
    ensures var gs := [TEXT, DATA, Linkedit(s)];
            HasSegment(gs, SEG_TEXT) && HasSegment(gs, SEG_DATA) && HasSegment(gs, SEG_LINKEDIT)
    ensures HasSection(b, OFFS, SECT_TEXT_TEXT) && HasSection(b, OFFS, SECT_DATA_CONST) && HasEntryCommand(b, OFFS)
  {
    hide SegmentAt, SectionAt, Cmd, CmdSize, SegmentMask, SectionMask, Has, Name16;
    NamesAre(s);
    SelfHas();
    var gs := [TEXT, DATA, Linkedit(s)];
    assert gs[0] == TEXT && gs[1] == DATA && gs[2] == Linkedit(s);
    assert OFFS[0] == 28 && OFFS[3] == 400;
    assert SectionNamed(b, 28, 0, SECT_TEXT_TEXT);
    assert SectionNamed(b, 28, 1, SECT_DATA_CONST);
    assert IsEntryCommand(b, 400);
  }

  lemma TextSound(b: seq<byte>, s: Shape, size: u32)
    requires CommandsAre(b, s) && size >= 452
    ensures TableSound(b, TEXT, 84, 3, size) && TableReaches(b, 84, 3, size)
  {
    hide SegmentAt, SectionAt, Cmd, CmdSize, Name16;
    forall i: nat | i < 3
      ensures SectionSound(b, TEXT, 84 + i * 68, size) && SectionReaches(b, 84 + i * 68, size)
    {
      assert i == 0 || i == 1 || i == 2;
    }
  }

  lemma ArtifactSound(b: seq<byte>, s: Shape)
    requires CommandsAre(b, s) && AllIn(b, OFFS) && Small(s)
    ensures AllSound(b, OFFS, |b|)
    ensures forall size: u32 :: size >= 452 ==> (AllExtentsFit(b, OFFS, size) <==> s.fileoff + s.filesize <= size)
  {
    hide CommandSound, ExtentsFit;
    EachSound(b, s);
    forall size: u32 | size >= 452
      ensures AllExtentsFit(b, OFFS, size) <==> s.fileoff + s.filesize <= size
    {
      EachReaches(b, s, size);
      assert OFFS[2] == 344;
    }
  }

  lemma EachSound(b: seq<byte>, s: Shape)
    requires CommandsAre(b, s) && AllIn(b, OFFS) && Small(s)
    ensures CommandIn(b, 28) && CommandIn(b, 288) && CommandIn(b, 344) && CommandIn(b, 400)
    ensures CommandSound(b, 28, |b|) && CommandSound(b, 288, |b|)
    ensures CommandSound(b, 344, |b|) && CommandSound(b, 400, |b|)
  {
    hide SegmentAt, SectionAt, Cmd, CmdSize, Name16, TableSound;
    TextSound(b, s, |b|);
    NoTable(b, DATA, 288 + 56, |b|);
    NoTable(b, Linkedit(s), 344 + 56, |b|);
  }

  lemma EachReaches(b: seq<byte>, s: Shape, size: u32)
    requires CommandsAre(b, s) && AllIn(b, OFFS) && size >= 452
    ensures CommandIn(b, 28) && CommandIn(b, 288) && CommandIn(b, 344) && CommandIn(b, 400)
    ensures ExtentsFit(b, 28, size) && ExtentsFit(b, 288, size) && ExtentsFit(b, 400, size)
    ensures ExtentsFit(b, 344, size) <==> s.fileoff + s.filesize <= size
  {
    hide SegmentAt, SectionAt, Cmd, CmdSize, Name16, TableReaches;
    TextSound(b, s, size);
    NoTable(b, DATA, 288 + 56, size);
    NoTable(b, Linkedit(s), 344 + 56, size);
  }

  lemma NoTable(b: seq<byte>, g: Segment, o: nat, size: u32)
    ensures TableSound(b, g, o, 0, size) && TableReaches(b, o, 0, size)
  {
  }

  lemma ArtifactPlan(s: Shape)
    requires Small(s)
    ensures var gs, loaded := [TEXT, DATA, Linkedit(s)], Loadable([TEXT, DATA, Linkedit(s)]);
            && PlanSound(gs)
            && loaded == (if s.vmsize != 0 then gs else [TEXT, DATA])
            && IsMinStart(gs, BASE) && IsMaxEnd(gs, TOP + s.vmsize)
  {
    hide Name16;
    var link := Linkedit(s);
    var gs := [TEXT, DATA, link];
    assert gs[1..] == [DATA, link] && [DATA, link][1..] == [link] && [link][1..] == [];
    assert Loadable([link]) == if s.vmsize != 0 then [link] else [];
    assert gs[0] == TEXT && gs[2] == link;
    assert IsMinStart(gs, BASE);
    assert forall g :: g in gs ==> FitsRam(g.vmaddr, g.vmsize, BASE);
    assert forall g :: g in Loadable(gs) ==> g in gs;
    PlanFrom(gs, BASE);
  }

  lemma PlanFrom(gs: seq<Segment>, base: u32)
    requires 1 <= |Loadable(gs)| <= LOAD_PLAN_MAX && base > 0 && IsMinStart(gs, base)
    requires forall g :: g in Loadable(gs) ==> FitsRam(g.vmaddr, g.vmsize, base)
    ensures PlanSound(gs)
  {
    hide Loadable, IsMinStart, FitsRam;
  }

  /** Every artifact of the family is accepted. */
  lemma ArtifactAccepted(s: Shape)
    requires Small(s)
    ensures Accepts(Artifact(s)) && CommandsAt(Artifact(s), OFFS) && AllIn(Artifact(s), OFFS)
    ensures Segments(Artifact(s), OFFS) == [TEXT, DATA, Linkedit(s)]
    ensures RegionEnd(Artifact(s)) == 408
  {
    hide Artifact, Tiling, CommandsAre, HeaderAt, AllSound, HasSegment, HasSection, HasEntryCommand, PlanSound,
         Accepts, Name16, Linkedit, AllExtentsFit, AllIn, Segments;
    var b := Artifact(s);
    ArtifactHeader(s);
    ArtifactCommands(s);
    ArtifactTiles(b, s);
    ArtifactNames(b, s);
    ArtifactSound(b, s);
    ArtifactPlan(s);
    AcceptsExactlyWellFormed(b);
    assert ContentsGood(b, OFFS);
  }

  // ----- the sections the prober records -----

  predicate KeyIs(k: KeySections) {
    k.text == Span(0x8000_1198, 9) && k.dataConst == Span(0x8000_11a4, 9) && k.prelinkText == Span(0x8000_11b0, 17)
  }

  /** A command without a section table leaves the recorded sections alone. */
  lemma SectionsUntouched(f: Facts, b: seq<byte>, size: u32, o: nat)
    requires CommandIn(b, o) && (IsSegment(b, o) ==> SegmentAt(b, o).nsects == 0)
    ensures ApplyCommand(f, b, size, o).sects == f.sects
  {
    hide Raise, SegmentAt, CountCommand;
  }

  lemma RecordedKey(f: Facts, size: u32, g: Segment, x: Section)
    requires |x.name| == |x.segment| == 16
    ensures RecordSection(f, size, g, x).sects.key == KeepSection(f.sects.key, x, SectionMask(x))
  {
    hide SectionMask, Raise, Has, KeepSection, SectionFaulty;
  }

  lemma TextRecords(f: Facts, b: seq<byte>, s: Shape, size: u32)
    requires CommandsAre(b, s) && CommandIn(b, 28)
    ensures KeyIs(ApplyCommand(f, b, size, 28).sects.key)
  {
    hide SegmentAt, SectionAt, Cmd, CmdSize, Name16, Raise, SectionMask, RecordSection, RecordSegment, CountCommand;
    NamesAre(s);
    var f0 := RecordSegment(f.(cmds := CountCommand(f.cmds, b, 28)), size, TEXT);
    var f1 := RecordSection(f0, size, TEXT, TEXT_TEXT);
    var f2 := RecordSection(f1, size, TEXT, DATA_CONST);
    var f3 := RecordSection(f2, size, TEXT, PRELINK_TEXT);
    assert RecordSections(f3, b, size, TEXT, 288, 0) == f3;
    assert RecordSections(f2, b, size, TEXT, 220, 1) == f3;
    assert RecordSections(f1, b, size, TEXT, 152, 2) == f3;
    assert RecordSections(f0, b, size, TEXT, 84, 3) == f3;
    RecordedKey(f0, size, TEXT, TEXT_TEXT);
    RecordedKey(f1, size, TEXT, DATA_CONST);
    RecordedKey(f2, size, TEXT, PRELINK_TEXT);
    BitsDiffer();
  }

  lemma BitsDiffer()
    ensures SECT_TEXT_TEXT != SECT_DATA_CONST && SECT_TEXT_TEXT != SECT_PRELINK_TEXT_TEXT
    ensures SECT_DATA_CONST != SECT_PRELINK_TEXT_TEXT
  {
  }

  lemma FoldKey(f: Facts, b: seq<byte>, s: Shape, size: u32)
    requires CommandsAre(b, s) && AllIn(b, OFFS)
    ensures KeyIs(Fold(f, b, size, OFFS).sects.key)
  {
    hide SegmentAt, SectionAt, Cmd, CmdSize, ApplyCommand, KeyIs, Name16;
    var o1, o2, o3: seq<nat> := [288, 344, 400], [344, 400], [400];
    assert OFFS[1..] == o1 && o1[1..] == o2 && o2[1..] == o3 && o3[1..] == [];
    assert OFFS[0] in OFFS && OFFS[1] in OFFS && OFFS[2] in OFFS && OFFS[3] in OFFS;
    assert AllIn(b, o3) && AllIn(b, o2) && AllIn(b, o1);
    var f1 := ApplyCommand(f, b, size, 28);
    var f2 := ApplyCommand(f1, b, size, 288);
    var f3 := ApplyCommand(f2, b, size, 344);
    var f4 := ApplyCommand(f3, b, size, 400);
    TextRecords(f, b, s, size);
    SectionsUntouched(f1, b, size, 288);
    SectionsUntouched(f2, b, size, 344);
    SectionsUntouched(f3, b, size, 400);
    assert Fold(f4, b, size, []) == f4;
    assert Fold(f3, b, size, o3) == f4;
    assert Fold(f2, b, size, o2) == f4;
    assert Fold(f1, b, size, o1) == f4;
  }

  lemma ArtifactKey(s: Shape)
    requires Small(s)
    ensures KeyIs(Probe(Artifact(s)).facts.sects.key)
  {
    hide Artifact, CommandsAre, Accepts, AllIn, Segments, Fold, KeyIs, CheckCommands, Placed, MissingFault,
         ConclusionValid, HeaderIs, Tiling, Raise;
    var b := Artifact(s);
    ArtifactAccepted(s);
    ArtifactCommands(s);
    ArtifactHeader(s);
    assert HeaderAt(b).sizeofcmds % 4 == 0 by { HeaderWords(HeaderAt(b)); }
    CheckTiled(b, OFFS);
    FoldKey(Started(HeaderAt(b)), b, s, |b|);
  }

  lemma HeaderWords(h: Header)
    ensures HeaderIs(h) ==> h.sizeofcmds % 4 == 0
  {
  }

  // ----- and materializes exactly under the four conditions -----

  const ARENA_BASE: u32 := 0x1000_0000
  const ARTIFACT_BASE: u32 := 0x2000_0000

  lemma BoundsAre(gs: seq<Segment>, lo: u32, hi: u32, lo': u32, hi': u32)
    requires IsMinStart(gs, lo) && IsMinStart(gs, lo') && IsMaxEnd(gs, hi) && IsMaxEnd(gs, hi')
    ensures lo == lo' && hi == hi'
  {
  }

  lemma SpanIs(v: u32)
    requires v <= 0x1000
    ensures SpanFits(BASE, TOP + v, ARENA_BASE)
    ensures ArenaSize(BASE, TOP + v, ARENA_BASE) == if v == 0 then 0x3000 else 0x4000
  {
    hide AlignUpChecked;
    AlignUpMeaning(0x3000 + v, 12);
    Bits.Pow2Values();
  }

  lemma NoAlias(load: Load, size: u32)
    requires load.physBase == RAM_PHYS_BASE && size <= 0x2_0000
    ensures !ArenaAliases(ARENA_BASE, ARTIFACT_BASE, size, load)
  {
  }

  /** What the theorem about materialization asks of the segments, and its conditions on them. */
  lemma SegmentConditions(s: Shape)
    requires Small(s)
    ensures var gs, loaded := [TEXT, DATA, Linkedit(s)], Loadable([TEXT, DATA, Linkedit(s)]);
            && VmDisjoint(loaded) && HeaderSegment(loaded, 0, BASE, 408)
            && (FileWithinMemory(loaded) <==> s.vmsize == 0 || s.filesize <= s.vmsize)
            && (TopIsLoaded(gs, TOP + s.vmsize) <==> s.vmsize != 0)
  {
    hide Loadable, Name16, PlanSound, IsMinStart, IsMaxEnd;
    ArtifactPlan(s);
    var link := Linkedit(s);
    var gs, loaded := [TEXT, DATA, link], Loadable([TEXT, DATA, link]);
    assert loaded[0] == TEXT && loaded[1] == DATA && gs[2] == link;
    assert s.vmsize != 0 ==> loaded[2] == link;
  }

  /** Of the loaded segments only the first brings bytes below the second. */
  lemma FrontByte(b: seq<byte>, s: Shape, addr: nat, c: byte)
    requires Small(s) && |b| >= 452 && BASE <= addr < BASE + 452
    ensures ByteInFile(b, Loadable([TEXT, DATA, Linkedit(s)]), addr, c) <==> b[addr - BASE] == c
  {
    hide Name16, Loadable, PlanSound, IsMinStart, IsMaxEnd;
    ArtifactPlan(s);
    var loaded := Loadable([TEXT, DATA, Linkedit(s)]);
    assert loaded[0] == TEXT;
    if b[addr - BASE] == c {
      assert BringsByte(b, loaded[0], addr, c);
    }
  }

  lemma FrontText(b: seq<byte>, s: Shape, o: nat, text: string)
    requires Small(s) && |b| >= 452 && At(b, o, Ascii(text)) && o + |text| <= 452
    ensures TextInFile(b, Loadable([TEXT, DATA, Linkedit(s)]), BASE + o, text)
  {
    hide Ascii, ByteInFile, Loadable, Small;
    AtIs(b, o, Ascii(text));
    forall i | 0 <= i < |text|
      ensures ByteInFile(b, Loadable([TEXT, DATA, Linkedit(s)]), BASE + o + i, Ascii(text)[i])
    {
      assert b[o..o + |text|][i] == b[o + i];
      FrontByte(b, s, BASE + o + i, Ascii(text)[i]);
    }
  }

  lemma MarkedPayload(b: seq<byte>)
    requires At(b, 408, Payload(true))
    ensures At(b, 408, Ascii(TEXT_MARKER)) && At(b, 420, Ascii(DATA_MARKER)) && At(b, 432, Ascii(PRELINK_MARKER))
  {
    hide Zeros, Ascii, At;
    var text, data, prelink := Ascii(TEXT_MARKER), Ascii(DATA_MARKER), Ascii(PRELINK_MARKER);
    AtSplits(b, 408, text + Zeros(3) + data + Zeros(3) + prelink, Zeros(3));
    AtSplits(b, 408, text + Zeros(3) + data + Zeros(3), prelink);
    AtSplits(b, 408, text + Zeros(3) + data, Zeros(3));
    AtSplits(b, 408, text + Zeros(3), data);
    AtSplits(b, 408, text, Zeros(3));
  }

  lemma FirstIsZero(b: seq<byte>)
    requires At(b, 408, Zeros(44))
    ensures |b| >= 452 && b[408] == 0
  {
    assert b[408..452][0] == b[408];
  }

  lemma ArtifactBounds(s: Shape)
    requires Small(s)
    ensures Accepts(Artifact(s))
    ensures var r := Probe(Artifact(s));
            && r.facts.segs.minVm == BASE && r.facts.segs.maxVm == TOP + s.vmsize
            && r.load.physBase == RAM_PHYS_BASE && SpanFits(BASE, TOP + s.vmsize, ARENA_BASE)
  {
    hide Artifact, Accepts, CommandsAt, AllIn, Segments, Probe, Loadable, SpanFits, Name16, PlanSound, IsMinStart,
         IsMaxEnd, PlacedEntries, Planned, ContentsGood, IsPhysEnd, Linkedit, HeaderGood, HeaderAt, AllFit, Named,
         RegionEnd;
    var b := Artifact(s);
    ArtifactAccepted(s);
    ArtifactPlan(s);
    AcceptedReport(b, OFFS);
    var t := Probe(b).facts.segs;
    BoundsAre(Segments(b, OFFS), t.minVm, t.maxVm, BASE, TOP + s.vmsize);
    SpanIs(s.vmsize);
  }

  lemma PayloadMarks(b: seq<byte>, s: Shape, key: KeySections)
    requires Small(s) && |b| >= 452 && At(b, 408, Payload(s.marked)) && KeyIs(key)
    ensures MarkersInFile(b, Loadable([TEXT, DATA, Linkedit(s)]), key) <==> s.marked
  {
    var loaded := Loadable([TEXT, DATA, Linkedit(s)]);
    assert Payload(false) == Zeros(44);
    hide Payload, Zeros, Ascii, At, TextInFile, Loadable, ByteInFile, Linkedit, Small;
    if s.marked {
      MarkedPayload(b);
      FrontText(b, s, 408, TEXT_MARKER);
      FrontText(b, s, 420, DATA_MARKER);
      FrontText(b, s, 432, PRELINK_MARKER);
    } else {
      FirstIsZero(b);
      FrontByte(b, s, BASE + 408, Ascii(TEXT_MARKER)[0]);
      TextStarts(b, loaded, BASE + 408);
    }
  }

  lemma ArtifactMarkers(s: Shape)
    requires Small(s)
    ensures MarkersInFile(Artifact(s), Loadable([TEXT, DATA, Linkedit(s)]), Probe(Artifact(s)).facts.sects.key)
            <==> s.marked
  {
    hide Artifact, Probe, Payload, At, MarkersInFile, Loadable, KeyIs;
    ArtifactKey(s);
    ArtifactAt(s);
    PayloadMarks(Artifact(s), s, Probe(Artifact(s)).facts.sects.key);
  }

  lemma TextStarts(b: seq<byte>, loaded: seq<Segment>, addr: nat)
    ensures TextInFile(b, loaded, addr, TEXT_MARKER) ==> ByteInFile(b, loaded, addr, Ascii(TEXT_MARKER)[0])
    ensures Ascii(TEXT_MARKER)[0] != 0
  {
    hide ByteInFile;
    assert Ascii(TEXT_MARKER)[0] == 'S' as int;
    if TextInFile(b, loaded, addr, TEXT_MARKER) {
      assert ByteInFile(b, loaded, addr + 0, Ascii(TEXT_MARKER)[0]);
    }
  }

  predicate Succeeds(b: seq<byte>)
    requires |b| < TWO32
  {
    var m := Materialize(b, Probe(b), ARENA_BASE, ARTIFACT_BASE);
    StagingStatus(m.valid, m.fail) == STATUS_OK
  }

  /** The theorem about materialization applies to the whole family, and each of its conditions bites:
      the artifact materializes exactly when its top segment is not empty, has no more file bytes than
      memory and a file range that ends within the arena's size, and the markers are there. */
  lemma ArtifactMaterializes(s: Shape)
    requires Small(s)
    ensures Accepts(Artifact(s))
    ensures Succeeds(Artifact(s)) <==>
            0 < s.vmsize && s.filesize <= s.vmsize && s.fileoff + s.filesize <= 0x4000 && s.marked
  {
    hide Artifact, Accepts, CommandsAt, AllIn, Segments, Probe, Loadable, SpanFits, ArenaSize, Materialize, Name16,
         AllExtentsFit, AllSound, Linkedit, VmDisjoint, HeaderSegment, FileWithinMemory, TopIsLoaded, ArenaAliases,
         RegionEnd, CommandsAre, MarkersInFile, StagingStatus;
    var b := Artifact(s);
    ArtifactAccepted(s);
    ArtifactCommands(s);
    ArtifactSound(b, s);
    ArtifactBounds(s);
    SpanIs(s.vmsize);
    NoAlias(Probe(b).load, |b|);
    SegmentConditions(s);
    MaterializeExactly(b, OFFS, ARENA_BASE, ARTIFACT_BASE, 0);
    ArtifactMarkers(s);
  }

  /** A member that passes. */
  lemma OneMaterializes()
    ensures Accepts(Artifact(Shape(4, 4, 0, 0, true))) && Succeeds(Artifact(Shape(4, 4, 0, 0, true)))
  {
    hide Artifact, Accepts, Succeeds;
    ArtifactMaterializes(Shape(4, 4, 0, 0, true));
  }

  /** Accepted, and refused by the copier: eight file bytes for four bytes of memory. */
  lemma MoreFileThanMemory()
    ensures Accepts(Artifact(Shape(4, 8, 0, 0, true))) && !Succeeds(Artifact(Shape(4, 8, 0, 0, true)))
  {
    hide Artifact, Accepts, Succeeds;
    ArtifactMaterializes(Shape(4, 8, 0, 0, true));
  }

  /** Accepted, and refused by the second parse: an empty segment is the highest. */
  lemma EmptyTopSegment()
    ensures Accepts(Artifact(Shape(0, 0, 0, 0, true))) && !Succeeds(Artifact(Shape(0, 0, 0, 0, true)))
  {
    hide Artifact, Accepts, Succeeds;
    ArtifactMaterializes(Shape(0, 0, 0, 0, true));
  }

  /** Accepted, and refused by the second parse: four file bytes at an offset past the arena's size. */
  lemma FarFileRange()
    ensures Accepts(Artifact(Shape(4, 4, 0x4000, 0x4000, true)))
    ensures !Succeeds(Artifact(Shape(4, 4, 0x4000, 0x4000, true)))
  {
    hide Artifact, Accepts, Succeeds;
    ArtifactMaterializes(Shape(4, 4, 0x4000, 0x4000, true));
  }
}
