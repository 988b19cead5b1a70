/** The prober as functions on values: what one command, the walk and the load plan contribute.
    The methods of `MachoProbe` are proved to compute exactly these. */
module MachoSpec {
  import opened Words
  import opened Runtime
  import opened Masks
  import opened MachoFormat

  datatype Extent = Extent(vmaddr: u32, vmsize: u32, fileoff: u32, filesize: u32)
  datatype Span = Span(addr: u32, size: u32)

  const NO_EXTENT := Extent(0, 0, 0, 0)
  const NO_SPAN := Span(0, 0)

  datatype KeySegments = KeySegments(text: Extent, data: Extent, linkedit: Extent,
                                     prelinkText: Extent, prelinkInfo: Extent, prelinkState: Extent)
  datatype KeySections = KeySections(text: Span, dataConst: Span, prelinkText: Span, prelinkInfo: Span)

  datatype PlanEntry = PlanEntry(index: u32, segmentMask: bv32, vmaddr: u32, vmsize: u32,
                                 fileoff: u32, filesize: u32, physaddr: u32, physsize: u32, flags: bv32)

  datatype CommandFacts = CommandFacts(mask: bv32, count: u32, unknown: u32, entryKind: bv32, entryPc: u32)

  datatype SegmentFacts = SegmentFacts(count: u32, mask: bv32, prelinkMask: bv32, key: KeySegments,
                                       minVm: u32, maxVm: u32, plan: seq<PlanEntry>)

  datatype SectionFacts = SectionFacts(count: u32, mask: bv32, prelinkMask: bv32, key: KeySections)

  /** What the parser has accumulated so far. */
  datatype Facts = Facts(cmds: CommandFacts, segs: SegmentFacts, sects: SectionFacts,
                         maxExtent: u32, valid: bv32, fail: bv32)

  const NO_COMMANDS := CommandFacts(0, 0, 0, ENTRY_NOT_EXECUTED, 0)
  const NO_SEGMENTS := SegmentFacts(0, 0, 0,
    KeySegments(NO_EXTENT, NO_EXTENT, NO_EXTENT, NO_EXTENT, NO_EXTENT, NO_EXTENT), 0, 0, [])
  const NO_SECTIONS := SectionFacts(0, 0, 0, KeySections(NO_SPAN, NO_SPAN, NO_SPAN, NO_SPAN))
  const NO_FACTS := Facts(NO_COMMANDS, NO_SEGMENTS, NO_SECTIONS, 0, 0, 0)

  /** A byte range ends past a limit, in the wrapped arithmetic of the tests that bound it. */
  predicate RangeEscapes(base: u32, length: u32, limit: u32): (r: bool)
    ensures r <==> base + length > limit
  {
    AddOverflow(base, length) || Add32(base, length) > limit
  }

  function Max32(a: u32, b: u32): u32 {
    if b > a then b else a
  }

  // ----- sections -----

  function KeepSection(k: KeySections, s: Section, bit: bv32): KeySections {
    var here := Span(s.addr, s.size);
    if bit == SECT_TEXT_TEXT then k.(text := here)
    else if bit == SECT_DATA_CONST then k.(dataConst := here)
    else if bit == SECT_PRELINK_TEXT_TEXT then k.(prelinkText := here)
    else if bit == SECT_PRELINK_INFO_INFO then k.(prelinkInfo := here)
    else k
  }

  function CountSection(t: SectionFacts, s: Section): SectionFacts
    requires |s.name| == |s.segment| == 16
  {
    var bit := SectionMask(s);
    SectionFacts(Inc32(t.count), Raise(t.mask, bit),
                 if Has(bit, SECT_PRELINK_MASK) then Raise(t.prelinkMask, bit) else t.prelinkMask,
                 KeepSection(t.key, s, bit))
  }

  predicate SectionOutsideSegment(g: Segment, s: Section): (r: bool)
    ensures !r <==> g.vmaddr <= s.addr && s.addr + s.size <= g.vmaddr + g.vmsize < TWO32
  {
    || AddOverflow(s.addr, s.size)
    || AddOverflow(g.vmaddr, g.vmsize)
    || s.addr < g.vmaddr
    || Add32(s.addr, s.size) > Add32(g.vmaddr, g.vmsize)
  }

  predicate HasFileBytes(s: Section) {
    s.size != 0 && s.offset != 0
  }

  predicate SectionFaulty(g: Segment, s: Section, size: u32) {
    SectionOutsideSegment(g, s) || (HasFileBytes(s) && RangeEscapes(s.offset, s.size, size))
  }

  function RecordSection(f: Facts, size: u32, g: Segment, s: Section): Facts
    requires |s.name| == |s.segment| == 16
  {
    Facts(f.cmds, f.segs, CountSection(f.sects, s),
          if HasFileBytes(s) then Max32(f.maxExtent, Add32(s.offset, s.size)) else f.maxExtent,
          f.valid, Raise(f.fail, Flag(SectionFaulty(g, s, size), FAIL_SECTION_BOUNDS)))
  }

  function RecordSections(f: Facts, b: seq<byte>, size: u32, g: Segment, o: nat, n: nat): Facts
    requires o + n * 68 <= |b|
    decreases n
  {
    if n == 0 then f
    else RecordSections(RecordSection(f, size, g, SectionAt(b, o)), b, size, g, o + 68, n - 1)
  }

  /** The section table must fit the command that carries it. */
  predicate SectionTableFits(nsects: u32, cmdsize: u32): (r: bool)
    ensures r <==> 56 + nsects * 68 <= cmdsize
  {
    hide MulOverflow, AddOverflow, Add32, Wrap;
    TableBytes(nsects);
    var sectionBytes := Wrap(nsects * 68);
    SumOfWords(SEGMENT_SIZE, sectionBytes);
    && !MulOverflow(nsects, SECTION_SIZE)
    && !AddOverflow(SEGMENT_SIZE, sectionBytes)
    && Add32(SEGMENT_SIZE, sectionBytes) <= cmdsize
  }

  lemma TableBytes(nsects: u32)
    ensures MulOverflow(nsects, SECTION_SIZE) <==> nsects * 68 >= TWO32
    ensures nsects * 68 < TWO32 ==> Wrap(nsects * 68) == nsects * 68
  {
    hide MulOverflow;
    assert nsects * SECTION_SIZE == nsects * 68;
  }

  lemma SumOfWords(a: u32, b: u32)
    ensures AddOverflow(a, b) <==> a + b >= TWO32
    ensures a + b < TWO32 ==> Add32(a, b) == a + b
  {
  }

  // ----- segments -----

  function KeepSegment(k: KeySegments, g: Segment, bit: bv32): KeySegments {
    var here := Extent(g.vmaddr, g.vmsize, g.fileoff, g.filesize);
    if bit == SEG_TEXT then k.(text := here)
    else if bit == SEG_DATA then k.(data := here)
    else if bit == SEG_LINKEDIT then k.(linkedit := here)
    else if bit == SEG_PRELINK_TEXT then k.(prelinkText := here)
    else if bit == SEG_PRELINK_INFO then k.(prelinkInfo := here)
    else if bit == SEG_PRELINK_STATE then k.(prelinkState := here)
    else k
  }

  function PlanFlags(g: Segment, bit: bv32): bv32 {
    Flag(g.filesize != 0, PLAN_FILE_BACKED) |
    Flag(Has(bit, SEG_PRELINK_MASK), PLAN_PRELINK) |
    Flag(g.vmsize > g.filesize, PLAN_ZERO_FILL)
  }

  function NewEntry(index: u32, g: Segment, bit: bv32): PlanEntry {
    PlanEntry(index, bit, g.vmaddr, g.vmsize, g.fileoff, g.filesize, 0, 0, PlanFlags(g, bit))
  }

  predicate PlanFull(plan: seq<PlanEntry>, g: Segment) {
    g.vmsize != 0 && |plan| >= LOAD_PLAN_MAX
  }

  function AddPlanEntry(plan: seq<PlanEntry>, g: Segment, bit: bv32): seq<PlanEntry> {
    if g.vmsize == 0 || |plan| >= LOAD_PLAN_MAX then plan else plan + [NewEntry(|plan|, g, bit)]
  }

  /** A segment whose address range wraps is counted and then ignored. */
  function CountSegment(t: SegmentFacts, g: Segment): SegmentFacts
    requires |g.name| == 16
  {
    if AddOverflow(g.vmaddr, g.vmsize) then t.(count := Inc32(t.count))
    else
      var bit := SegmentMask(g.name);
      SegmentFacts(Inc32(t.count), Raise(t.mask, bit),
                   if Has(bit, SEG_PRELINK_MASK) then Raise(t.prelinkMask, bit) else t.prelinkMask,
                   KeepSegment(t.key, g, bit),
                   if Inc32(t.count) == 1 || g.vmaddr < t.minVm then g.vmaddr else t.minVm,
                   Max32(t.maxVm, Add32(g.vmaddr, g.vmsize)),
                   AddPlanEntry(t.plan, g, bit))
  }

  function RaiseSegmentFaults(fail: bv32, plan: seq<PlanEntry>, g: Segment, size: u32): bv32 {
    if AddOverflow(g.vmaddr, g.vmsize) then Raise(fail, FAIL_SEGMENT_BOUNDS)
    else Raise(Raise(fail, Flag(RangeEscapes(g.fileoff, g.filesize, size), FAIL_SEGMENT_EXTENT)),
               Flag(PlanFull(plan, g), FAIL_LOAD_PLAN_FULL))
  }

  function RecordSegment(f: Facts, size: u32, g: Segment): Facts
    requires |g.name| == 16
  {
    Facts(f.cmds, CountSegment(f.segs, g), f.sects,
          if AddOverflow(g.vmaddr, g.vmsize) then f.maxExtent
          else Max32(f.maxExtent, Add32(g.fileoff, g.filesize)),
          Raise(f.valid, VALID_SEGMENT_COMMAND), RaiseSegmentFaults(f.fail, f.segs.plan, g, size))
  }

  // ----- commands -----

  function Cmd(b: seq<byte>, o: nat): u32
    requires o + 8 <= |b|
  {
    Le32(b, o)
  }

  function CmdSize(b: seq<byte>, o: nat): u32
    requires o + 8 <= |b|
  {
    Le32(b, o + 4)
  }

  /** What the loop demands before it dispatches on the command at `o`: a header that fits, and a
      size of at least a header, word aligned, staying inside the region. */
  predicate CommandFits(b: seq<byte>, o: nat, end: u32): (r: bool)
    requires o <= end <= |b|
    ensures r <==> end - o >= 8 && CmdSize(b, o) >= 8 && CmdSize(b, o) % 4 == 0 && o + CmdSize(b, o) <= end
  {
    && end - o >= COMMAND_SIZE
    && CmdSize(b, o) >= COMMAND_SIZE && CmdSize(b, o) % 4 == 0
    && !AddOverflow(o, CmdSize(b, o)) && Add32(o, CmdSize(b, o)) <= end
  }

  /** The command at `o` lies inside the buffer. */
  predicate CommandIn(b: seq<byte>, o: nat) {
    o + 8 <= |b| && CmdSize(b, o) >= 8 && o + CmdSize(b, o) <= |b|
  }

  /** A segment command long enough to be read as one. */
  predicate IsSegment(b: seq<byte>, o: nat)
    requires CommandIn(b, o)
  {
    Cmd(b, o) == LC_SEGMENT && CmdSize(b, o) >= SEGMENT_SIZE
  }

  function ApplySegment(f: Facts, b: seq<byte>, size: u32, o: nat): Facts
    requires CommandIn(b, o) && IsSegment(b, o)
  {
    var g := SegmentAt(b, o);
    var f1 := RecordSegment(f, size, g);
    if SectionTableFits(g.nsects, CmdSize(b, o))
    then RecordSections(f1, b, size, g, o + 56, g.nsects)
    else f1.(fail := Raise(f1.fail, FAIL_SECTION_BOUNDS))
  }

  function CountCommand(c: CommandFacts, b: seq<byte>, o: nat): CommandFacts
    requires CommandIn(b, o)
  {
    var c1 := c.(count := Inc32(c.count));
    var cmd := Cmd(b, o);
    if cmd == LC_SEGMENT then
      if CmdSize(b, o) < SEGMENT_SIZE then c1 else c1.(mask := Raise(c1.mask, CMD_SEGMENT))
    else if cmd == LC_SYMTAB then c1.(mask := Raise(c1.mask, CMD_SYMTAB))
    else if cmd == LC_UNIXTHREAD then
      c1.(mask := Raise(c1.mask, CMD_UNIXTHREAD), entryKind := Raise(c1.entryKind, ENTRY_UNIXTHREAD),
          entryPc := if CmdSize(b, o) >= 16 then Le32(b, o + 12) else c1.entryPc)
    else if cmd == LC_MAIN then
      c1.(mask := Raise(c1.mask, CMD_MAIN), entryKind := Raise(c1.entryKind, ENTRY_MAIN))
    else
      c1.(mask := Raise(c1.mask, CMD_UNKNOWN), unknown := Inc32(c1.unknown))
  }

  predicate SymtabFaulty(b: seq<byte>, o: nat, size: u32)
    requires CommandIn(b, o)
  {
    Cmd(b, o) == LC_SYMTAB && CmdSize(b, o) >= SYMTAB_SIZE &&
    RangeEscapes(Le32(b, o + 16), Le32(b, o + 20), size)
  }

  predicate SegmentTooShort(b: seq<byte>, o: nat)
    requires CommandIn(b, o)
  {
    Cmd(b, o) == LC_SEGMENT && CmdSize(b, o) < SEGMENT_SIZE
  }

  function CommandFault(b: seq<byte>, o: nat, size: u32): bv32
    requires CommandIn(b, o)
  {
    Flag(SegmentTooShort(b, o), FAIL_COMMAND_SIZE) | Flag(SymtabFaulty(b, o, size), FAIL_SEGMENT_EXTENT)
  }

  /** One iteration of the command loop, after the size checks passed. */
  function ApplyCommand(f: Facts, b: seq<byte>, size: u32, o: nat): Facts
    requires CommandIn(b, o)
  {
    var f1 := f.(cmds := CountCommand(f.cmds, b, o));
    if IsSegment(b, o) then ApplySegment(f1, b, size, o)
    else f1.(fail := Raise(f1.fail, CommandFault(b, o, size)))
  }

  /** The whole loop: the facts it ends with and the offset it stopped at. `n` is the number of
      iterations the header still allows. */
  function Walk(f: Facts, b: seq<byte>, size: u32, o: nat, end: u32, n: nat): (r: (Facts, nat))
    requires o <= end <= |b|
    ensures o <= r.1 <= end
    decreases n
  {
    if n == 0 || o >= end then (f, o)
    else if end - o < COMMAND_SIZE then (f.(fail := Raise(f.fail, FAIL_COMMAND_BOUNDS)), o)
    else if !CommandFits(b, o, end) then (f.(fail := Raise(f.fail, FAIL_COMMAND_SIZE)), o)
    else Walk(ApplyCommand(f, b, size, o), b, size, o + CmdSize(b, o), end, n - 1)
  }

  // ----- header and verdict -----

  predicate KnownSubtype(h: Header) {
    h.cpusubtype == CPU_SUBTYPE_ARM_ALL || h.cpusubtype == CPU_SUBTYPE_ARM_V7
  }

  predicate KnownFiletype(h: Header) {
    h.filetype == FILETYPE_EXECUTE || h.filetype == FILETYPE_PRELOAD
  }

  function HeaderValid(h: Header): bv32 {
    Raise(Raise(Raise(Raise(Flag(h.magic == MAGIC || h.magic == CIGAM, VALID_MAGIC),
                            Flag(h.magic == MAGIC, VALID_ENDIAN)),
                      Flag(h.cputype == CPU_TYPE_ARM, VALID_CPU)),
                Flag(KnownSubtype(h), VALID_SUBTYPE)),
          Flag(KnownFiletype(h), VALID_FILETYPE))
  }

  function HeaderFault(h: Header): bv32 {
    Raise(Raise(Raise(Raise(Flag(h.magic != MAGIC && h.magic != CIGAM, FAIL_MAGIC),
                            Flag(h.magic == CIGAM, FAIL_ENDIAN)),
                      Flag(h.cputype != CPU_TYPE_ARM, FAIL_CPU)),
                Flag(!KnownSubtype(h), FAIL_SUBTYPE)),
          Flag(!KnownFiletype(h), FAIL_FILETYPE))
  }

  predicate RegionFits(h: Header, size: u32) {
    !RangeEscapes(HEADER_SIZE, h.sizeofcmds, size) && h.sizeofcmds % 4 == 0
  }

  function CheckCommands(f: Facts, b: seq<byte>, h: Header): Facts
    requires |b| < TWO32
  {
    if RegionFits(h, |b|) then
      var end := Add32(HEADER_SIZE, h.sizeofcmds);
      var (g, stop) := Walk(f.(valid := Raise(f.valid, VALID_COMMAND_BOUNDS)), b, |b|, HEADER_SIZE, end, h.ncmds);
      g.(fail := Raise(g.fail, Flag(g.cmds.count != h.ncmds || stop != end, FAIL_COMMAND_BOUNDS)))
    else f.(fail := Raise(f.fail, FAIL_COMMAND_BOUNDS))
  }

  predicate HasSegments(f: Facts) {
    HasAll(f.segs.mask, SEG_REQUIRED)
  }

  predicate HasSections(f: Facts) {
    HasAll(f.sects.mask, SECT_REQUIRED)
  }

  predicate HasEntry(f: Facts) {
    Has(f.cmds.entryKind, ENTRY_ANY)
  }

  function MissingFault(f: Facts): bv32 {
    Raise(Raise(f.fail, Flag(!HasSegments(f), FAIL_REQUIRED_SEGMENTS)), Flag(!HasSections(f), FAIL_REQUIRED_SECTIONS))
  }

  function ConclusionValid(f: Facts, fail: bv32): bv32 {
    Raise(Raise(Raise(Raise(Raise(Raise(f.valid,
      Flag(HasSegments(f), VALID_REQUIRED_SEGMENTS)),
      Flag(HasSections(f), VALID_REQUIRED_SECTIONS)),
      Flag(!Has(fail, FAIL_SEGMENT_EXTENT), VALID_FILE_EXTENTS)),
      Flag(!Has(fail, FAIL_SECTION_BOUNDS), VALID_SECTION_BOUNDS)),
      Flag(Raise(f.segs.prelinkMask, f.sects.prelinkMask) != 0, VALID_PRELINK_REPORT)),
      Flag(HasEntry(f), VALID_ENTRY_NOT_EXECUTED))
  }

  /** The tests made once the commands have been read. */
  function Conclude(f: Facts): Facts {
    var fail := MissingFault(f);
    f.(valid := ConclusionValid(f, fail), fail := Raise(fail, Flag(!HasEntry(f), FAIL_NO_ENTRY_METADATA)))
  }

  // ----- load plan -----

  /** The plan being placed: the entries done so far, the bounds seen, the bits raised. */
  datatype Placing = Placing(entries: seq<PlanEntry>, physEnd: u32, fileBase: u32, fileEnd: u32, fail: bv32)

  function PlaceEntry(a: Placing, e: PlanEntry, minVm: u32): Placing {
    if e.vmaddr < minVm then a.(entries := a.entries + [e], fail := Raise(a.fail, FAIL_LOAD_PLAN))
    else
      var phys := Add32(RAM_PHYS_BASE, e.vmaddr - minVm);
      var e1 := e.(physaddr := phys);
      var aligned := AlignUpChecked(e.vmsize, PAGE_SIZE);
      if AddOverflow(RAM_PHYS_BASE, e.vmaddr - minVm) || !aligned.Aligned? || AddOverflow(phys, aligned.value)
      then a.(entries := a.entries + [e1], fail := Raise(a.fail, FAIL_PHYS_RANGE))
      else
        var entryEnd := Add32(phys, aligned.value);
        Placing(
          a.entries + [e1.(physsize := aligned.value)],
          Max32(a.physEnd, entryEnd),
          if e.filesize != 0 && e.fileoff < a.fileBase then e.fileoff else a.fileBase,
          if e.filesize != 0 && !AddOverflow(e.fileoff, e.filesize)
          then Max32(a.fileEnd, Add32(e.fileoff, e.filesize)) else a.fileEnd,
          Raise(a.fail, Flag(phys < RAM_PHYS_BASE || entryEnd > RAM_CONSOLE_BASE || entryEnd < phys, FAIL_PHYS_RANGE)))
  }

  function PlaceAll(a: Placing, plan: seq<PlanEntry>, minVm: u32): Placing
    decreases |plan|
  {
    if plan == [] then a else PlaceAll(PlaceEntry(a, plan[0], minVm), plan[1..], minVm)
  }

  /** The summary the planner leaves beside the entries. */
  datatype Load = Load(vmBase: u32, vmEnd: u32, fileBase: u32, fileEnd: u32,
                       physBase: u32, physEnd: u32, physSize: u32, count: u32, status: bv32, head: PlanHead)

  /** The bounds the plan record keeps of its own; the first three are set even when nothing is planned. */
  datatype PlanHead = PlanHead(vmBase: u32, vmEnd: u32, physBase: u32, physEnd: u32, fileEnd: u32, status: bv32)

  const NO_HEAD := PlanHead(0, 0, 0, 0, 0, 0)
  const NO_LOAD := Load(0, 0, 0, 0, 0, 0, 0, 0, 0, NO_HEAD)

  /** What the materializer leaves in the prober's result. */
  datatype StagingCopy = StagingCopy(status: bv32, fileBytes: u32, zeroBytes: u32, arenaBase: u32, arenaEnd: u32,
                                     vmBase: u32, vmEnd: u32)

  const NO_STAGING := StagingCopy(0, 0, 0, 0, 0, 0, 0)

  predicate NothingToPlan(t: SegmentFacts) {
    |t.plan| == 0 || t.minVm == 0 || t.maxVm <= t.minVm
  }

  function Placed(f: Facts): Placing {
    PlaceAll(Placing([], RAM_PHYS_BASE, UINT32_MAX, 0, f.fail), f.segs.plan, f.segs.minVm)
  }

  function FinalizeFacts(f: Facts): Facts {
    if NothingToPlan(f.segs) then f.(fail := Raise(f.fail, FAIL_LOAD_PLAN))
    else f.(segs := f.segs.(plan := Placed(f).entries), fail := Placed(f).fail,
            valid := Raise(f.valid, Flag(!Has(Placed(f).fail, FAIL_PLAN_MASK), VALID_LOAD_PLAN)))
  }

  function FinalizeLoad(f: Facts): Load {
    if NothingToPlan(f.segs) then NO_LOAD.(head := PlanHead(f.segs.minVm, f.segs.maxVm, RAM_PHYS_BASE, 0, 0, 0))
    else
      var p := Placed(f);
      var status := if !Has(p.fail, FAIL_PLAN_MASK) then STATUS_OK else StatusFail(p.fail);
      Load(f.segs.minVm, f.segs.maxVm, if p.fileBase == UINT32_MAX then 0 else p.fileBase, p.fileEnd,
           RAM_PHYS_BASE, p.physEnd, Sub32(p.physEnd, RAM_PHYS_BASE), Wrap(|f.segs.plan|), status,
           PlanHead(f.segs.minVm, f.segs.maxVm, RAM_PHYS_BASE, p.physEnd, p.fileEnd, status))
  }

  // ----- the probe -----

  datatype Outcome = Outcome(size: u32, header: Header, facts: Facts, load: Load, status: bv32)

  function Verdict(f: Facts): bv32 {
    if HasAll(f.valid, VALID_PARSER) && f.fail == 0 then STATUS_OK else StatusFail(f.fail)
  }

  /** The artifact is missing or shorter than a header. */
  function Rejected(size: u32, bit: bv32): Outcome {
    Outcome(size, NO_HEADER, NO_FACTS.(fail := bit), NO_LOAD, Verdict(NO_FACTS.(fail := bit)))
  }

  function StartFacts(h: Header): Facts {
    NO_FACTS.(valid := HeaderValid(h), fail := HeaderFault(h))
  }

  function ParsedFacts(b: seq<byte>): Facts
    requires 28 <= |b| < TWO32
  {
    Conclude(CheckCommands(StartFacts(HeaderAt(b)), b, HeaderAt(b)))
  }

  /** The probe of an artifact that is present. */
  function Probe(b: seq<byte>): Outcome
    requires |b| < TWO32
  {
    if |b| < HEADER_SIZE then Rejected(|b|, FAIL_SIZE)
    else
      var f := ParsedFacts(b);
      Outcome(|b|, HeaderAt(b), FinalizeFacts(f), FinalizeLoad(f), Verdict(FinalizeFacts(f)))
  }

  /** `stage90_macho_probe` returned 1. */
  predicate Accepts(b: seq<byte>)
    requires |b| < TWO32
  {
    Probe(b).status == STATUS_OK
  }

  /** The highest segment end, ignoring entries whose end wraps. */
  function LastAddr(plan: seq<PlanEntry>): u32 {
    if plan == [] then 0
    else
      var e := plan[|plan| - 1];
      var last := LastAddr(plan[..|plan| - 1]);
      if !AddOverflow(e.vmaddr, e.vmsize) && Add32(e.vmaddr, e.vmsize) > last
      then Add32(e.vmaddr, e.vmsize) else last
  }
}
