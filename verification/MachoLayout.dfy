/** What an acceptable artifact looks like, said without the parser: a list of commands that tiles
    the command region, each of them sound, and a load plan that fits physical memory. */
module MachoLayout {
  import opened Words
  import opened Masks
  import opened MachoFormat
  import opened MachoSpec

  // ----- the command region -----

  /** The commands at `offs` cover [lo, hi) without gap or overlap. */
  predicate Tiling(b: seq<byte>, offs: seq<nat>, lo: nat, hi: u32)
    requires lo <= hi <= |b|
    decreases |offs|
  {
    if offs == [] then lo == hi
    else offs[0] == lo && CommandFits(b, lo, hi) && Tiling(b, offs[1..], lo + CmdSize(b, lo), hi)
  }

  predicate AllIn(b: seq<byte>, offs: seq<nat>) {
    forall o :: o in offs ==> CommandIn(b, o)
  }

  lemma {:induction false} TilingIn(b: seq<byte>, offs: seq<nat>, lo: nat, hi: u32)
    requires lo <= hi <= |b| && Tiling(b, offs, lo, hi)
    ensures AllIn(b, offs)
    ensures forall o :: o in offs ==> lo <= o && o + CmdSize(b, o) <= hi
    ensures lo + 8 * |offs| <= hi
    decreases |offs|
  {
    if offs != [] {
      TilingIn(b, offs[1..], lo + CmdSize(b, lo), hi);
      assert offs == [offs[0]] + offs[1..];
    }
  }

  /** There is only one way to cut a region into commands. */
  lemma {:induction false} TilingUnique(b: seq<byte>, offs: seq<nat>, offs': seq<nat>, lo: nat, hi: u32)
    requires lo <= hi <= |b| && Tiling(b, offs, lo, hi) && Tiling(b, offs', lo, hi)
    ensures offs == offs'
    decreases |offs|
  {
    if offs == [] {
      TilingIn(b, offs', lo, hi);
    } else if offs' == [] {
      TilingIn(b, offs, lo, hi);
    } else {
      TilingUnique(b, offs[1..], offs'[1..], lo + CmdSize(b, lo), hi);
      assert offs == [offs[0]] + offs[1..];
    }
  }

  /** The segments the commands describe, in order. */
  function Segments(b: seq<byte>, offs: seq<nat>): (r: seq<Segment>)
    requires AllIn(b, offs)
    ensures forall g :: g in r ==> |g.name| == 16
    ensures |r| <= |offs|
    decreases |offs|
  {
    if offs == [] then []
    else (if IsSegment(b, offs[0]) then [SegmentAt(b, offs[0])] else []) + Segments(b, offs[1..])
  }

  lemma {:induction false} SegmentsFromCommands(b: seq<byte>, offs: seq<nat>, g: Segment)
    requires AllIn(b, offs)
    ensures g in Segments(b, offs) <==> exists o :: o in offs && IsSegment(b, o) && SegmentAt(b, o) == g
    decreases |offs|
  {
    if offs != [] {
      SegmentsFromCommands(b, offs[1..], g);
      assert offs == [offs[0]] + offs[1..];
      assert forall o :: o in offs <==> o == offs[0] || o in offs[1..];
    }
  }

  // ----- sound commands -----

  predicate SectionSound(b: seq<byte>, g: Segment, o: nat, size: u32) {
    o + 68 <= |b| && !SectionFaulty(g, SectionAt(b, o), size)
  }

  predicate TableSound(b: seq<byte>, g: Segment, o: nat, n: nat, size: u32) {
    forall i: nat :: i < n ==> SectionSound(b, g, o + i * 68, size)
  }

  /** Neither range of the segment wraps, the file has its bytes, and every section of a table that
      fits the command lies inside the segment and the file. */
  predicate SegmentSound(b: seq<byte>, o: nat, size: u32)
    requires CommandIn(b, o) && IsSegment(b, o)
  {
    var g := SegmentAt(b, o);
    && g.vmaddr + g.vmsize < TWO32
    && g.fileoff + g.filesize <= size
    && 56 + g.nsects * 68 <= CmdSize(b, o)
    && TableSound(b, g, o + 56, g.nsects, size)
  }

  predicate CommandSound(b: seq<byte>, o: nat, size: u32)
    requires CommandIn(b, o)
  {
    && !SegmentTooShort(b, o)
    && !SymtabFaulty(b, o, size)
    && (IsSegment(b, o) ==> SegmentSound(b, o, size))
  }

  predicate AllSound(b: seq<byte>, offs: seq<nat>, size: u32)
    requires AllIn(b, offs)
  {
    forall o :: o in offs ==> CommandSound(b, o, size)
  }

  /** Section `i` of the segment command at `o` carries the name pair behind `bit`. */
  predicate SectionNamed(b: seq<byte>, o: nat, i: nat, bit: bv32)
    requires CommandIn(b, o)
  {
    && IsSegment(b, o)
    && i < SegmentAt(b, o).nsects
    && 56 + SegmentAt(b, o).nsects * 68 <= CmdSize(b, o)
    && Has(SectionMask(SectionAt(b, o + 56 + i * 68)), bit)
  }

  ghost predicate HasSection(b: seq<byte>, offs: seq<nat>, bit: bv32)
    requires AllIn(b, offs)
  {
    exists o, i: nat :: o in offs && SectionNamed(b, o, i, bit)
  }

  ghost predicate HasSegment(gs: seq<Segment>, bit: bv32)
    requires forall g :: g in gs ==> |g.name| == 16
  {
    exists g :: g in gs && Has(SegmentMask(g.name), bit)
  }

  predicate IsEntryCommand(b: seq<byte>, o: nat)
    requires CommandIn(b, o)
  {
    Cmd(b, o) == LC_UNIXTHREAD || Cmd(b, o) == LC_MAIN
  }

  predicate HasEntryCommand(b: seq<byte>, offs: seq<nat>)
    requires AllIn(b, offs)
  {
    exists o :: o in offs && IsEntryCommand(b, o)
  }

  // ----- the load plan -----

  /** The segments that occupy memory. */
  function Loadable(gs: seq<Segment>): (r: seq<Segment>)
    ensures |r| <= |gs|
  {
    if gs == [] then []
    else (if gs[0].vmsize != 0 then [gs[0]] else []) + Loadable(gs[1..])
  }

  lemma {:induction false} LoadableAre(gs: seq<Segment>, g: Segment)
    ensures g in Loadable(gs) <==> g in gs && g.vmsize != 0
  {
    if gs != [] {
      LoadableAre(gs[1..], g);
    }
  }

  ghost predicate IsMinStart(gs: seq<Segment>, m: u32) {
    (exists g :: g in gs && g.vmaddr == m) && forall g :: g in gs ==> m <= g.vmaddr
  }

  ghost predicate IsMaxEnd(gs: seq<Segment>, m: u32) {
    && (exists g :: g in gs && g.vmaddr + g.vmsize == m)
    && forall g :: g in gs ==> g.vmaddr + g.vmsize <= m
  }

  function RoundPage(n: nat): nat {
    (n + 4095) / 4096 * 4096
  }

  /** Placed `vmaddr - base` above the start of RAM and rounded to pages, the segment stays below
      the RAM console. */
  predicate FitsRam(vmaddr: u32, vmsize: u32, base: u32) {
    base <= vmaddr && RAM_PHYS_BASE + (vmaddr - base) + RoundPage(vmsize) <= RAM_CONSOLE_BASE
  }

  ghost predicate PlanSound(gs: seq<Segment>) {
    && 1 <= |Loadable(gs)| <= LOAD_PLAN_MAX
    && exists base: u32 ::
         base > 0 && IsMinStart(gs, base) && forall g :: g in Loadable(gs) ==> FitsRam(g.vmaddr, g.vmsize, base)
  }

  // ----- the whole artifact -----

  predicate HeaderGood(h: Header) {
    && h.magic == MAGIC
    && h.cputype == CPU_TYPE_ARM
    && h.cpusubtype in {CPU_SUBTYPE_ARM_ALL, CPU_SUBTYPE_ARM_V7}
    && h.filetype in {FILETYPE_EXECUTE, FILETYPE_PRELOAD}
    && h.sizeofcmds % 4 == 0
  }

  /** Header and command region lie inside the artifact. */
  predicate HasRegion(b: seq<byte>) {
    |b| >= 28 && 28 + HeaderAt(b).sizeofcmds <= |b| < TWO32
  }

  function RegionEnd(b: seq<byte>): u32
    requires HasRegion(b)
  {
    28 + HeaderAt(b).sizeofcmds
  }

  ghost predicate ContentsGood(b: seq<byte>, offs: seq<nat>)
    requires |b| < TWO32 && AllIn(b, offs)
  {
    var gs := Segments(b, offs);
    && AllSound(b, offs, |b|)
    && HasSegment(gs, SEG_TEXT) && HasSegment(gs, SEG_DATA) && HasSegment(gs, SEG_LINKEDIT)
    && HasSection(b, offs, SECT_TEXT_TEXT) && HasSection(b, offs, SECT_DATA_CONST)
    && HasEntryCommand(b, offs)
    && PlanSound(gs)
  }

  /** The commands of the artifact are exactly those at `offs`. */
  predicate CommandsAt(b: seq<byte>, offs: seq<nat>) {
    HasRegion(b) && Tiling(b, offs, 28, RegionEnd(b)) && |offs| == HeaderAt(b).ncmds
  }

  ghost predicate WellFormed(b: seq<byte>) {
    && HasRegion(b)
    && HeaderGood(HeaderAt(b))
    && exists offs :: CommandsAt(b, offs) && AllIn(b, offs) && ContentsGood(b, offs)
  }
}
