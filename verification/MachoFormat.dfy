/** The 32-bit Mach-O layout the prober overlays on the artifact, and its flag words. */
module MachoFormat {
  import opened Words
  import opened Masks

  const MAGIC: u32 := 0xfeed_face
  const CIGAM: u32 := 0xcefa_edfe
  const CPU_TYPE_ARM: u32 := 12
  const CPU_SUBTYPE_ARM_ALL: u32 := 0
  const CPU_SUBTYPE_ARM_V7: u32 := 9
  const FILETYPE_EXECUTE: u32 := 2
  const FILETYPE_PRELOAD: u32 := 5
  const LC_SEGMENT: u32 := 1
  const LC_SYMTAB: u32 := 2
  const LC_UNIXTHREAD: u32 := 5
  const LC_MAIN: u32 := 0x8000_0028

  const HEADER_SIZE: u32 := 28
  const COMMAND_SIZE: u32 := 8
  const SEGMENT_SIZE: u32 := 56
  const SECTION_SIZE: u32 := 68
  const SYMTAB_SIZE: u32 := 24

  const RAM_PHYS_BASE: u32 := 0x8000_0000
  const RAM_CONSOLE_BASE: u32 := 0xde50_0000
  const RAM_CONSOLE_SIZE: u32 := 0x0020_0000
  const PAGE_SIZE: u32 := 4096
  const LOAD_PLAN_MAX: nat := 8

  const CMD_SEGMENT: bv32 := 0x1
  const CMD_SYMTAB: bv32 := 0x2
  const CMD_UNIXTHREAD: bv32 := 0x4
  const CMD_MAIN: bv32 := 0x8
  const CMD_UNKNOWN: bv32 := 0x9000_0000

  const SEG_TEXT: bv32 := 0x1
  const SEG_DATA: bv32 := 0x2
  const SEG_LINKEDIT: bv32 := 0x4
  const SEG_KLD: bv32 := 0x8
  const SEG_LAST: bv32 := 0x10
  const SEG_PRELINK_TEXT: bv32 := 0x20
  const SEG_PRELINK_INFO: bv32 := 0x40
  const SEG_PRELINK_STATE: bv32 := 0x80
  const SEG_PRELINK: bv32 := 0x100
  const SEG_PRELINK_MASK: bv32 := 0x1e0
  const SEG_REQUIRED: bv32 := 0x7

  const ENTRY_UNIXTHREAD: bv32 := 0x1
  const ENTRY_MAIN: bv32 := 0x2
  const ENTRY_ANY: bv32 := 0x3
  const ENTRY_NOT_EXECUTED: bv32 := 0x9000_0000

  const SECT_TEXT_TEXT: bv32 := 0x1
  const SECT_DATA_CONST: bv32 := 0x2
  const SECT_PRELINK_TEXT_TEXT: bv32 := 0x4
  const SECT_PRELINK_INFO_INFO: bv32 := 0x8
  const SECT_PRELINK_INFO_KERNEL: bv32 := 0x10
  const SECT_PRELINK_INFO_KEXTS: bv32 := 0x20
  const SECT_PRELINK_STATE_KERNEL: bv32 := 0x40
  const SECT_PRELINK_STATE_KEXTS: bv32 := 0x80
  const SECT_PRELINK_SYMTAB: bv32 := 0x100
  const SECT_PRELINK_MASK: bv32 := 0x1fc
  const SECT_REQUIRED: bv32 := 0x3

  const VALID_MAGIC: bv32 := 0x1
  const VALID_ENDIAN: bv32 := 0x2
  const VALID_CPU: bv32 := 0x4
  const VALID_SUBTYPE: bv32 := 0x8
  const VALID_FILETYPE: bv32 := 0x10
  const VALID_COMMAND_BOUNDS: bv32 := 0x20
  const VALID_SEGMENT_COMMAND: bv32 := 0x40
  const VALID_REQUIRED_SEGMENTS: bv32 := 0x80
  const VALID_FILE_EXTENTS: bv32 := 0x100
  const VALID_ENTRY_NOT_EXECUTED: bv32 := 0x200
  const VALID_SECTION_BOUNDS: bv32 := 0x400
  const VALID_REQUIRED_SECTIONS: bv32 := 0x800
  const VALID_LOAD_PLAN: bv32 := 0x1000
  const VALID_PRELINK_REPORT: bv32 := 0x2000
  const VALID_STAGING: bv32 := 0x4000
  const VALID_MATERIALIZED_PARSE: bv32 := 0x8000
  const VALID_MARKERS: bv32 := 0x1_0000
  const VALID_ZERO_FILL: bv32 := 0x2_0000
  /** The bits the parser itself must set: the required set without the staging bits. */
  const VALID_PARSER: bv32 := 0x1fff

  const FAIL_NULL: bv32 := 0x1
  const FAIL_SIZE: bv32 := 0x2
  const FAIL_MAGIC: bv32 := 0x4
  const FAIL_ENDIAN: bv32 := 0x8
  const FAIL_CPU: bv32 := 0x10
  const FAIL_SUBTYPE: bv32 := 0x20
  const FAIL_FILETYPE: bv32 := 0x40
  const FAIL_COMMAND_BOUNDS: bv32 := 0x80
  const FAIL_COMMAND_SIZE: bv32 := 0x100
  const FAIL_SEGMENT_BOUNDS: bv32 := 0x200
  const FAIL_SEGMENT_EXTENT: bv32 := 0x400
  const FAIL_REQUIRED_SEGMENTS: bv32 := 0x800
  const FAIL_NO_ENTRY_METADATA: bv32 := 0x1000
  const FAIL_SECTION_BOUNDS: bv32 := 0x2000
  const FAIL_REQUIRED_SECTIONS: bv32 := 0x4000
  const FAIL_LOAD_PLAN: bv32 := 0x8000
  const FAIL_PHYS_RANGE: bv32 := 0x1_0000
  const FAIL_LOAD_PLAN_FULL: bv32 := 0x2_0000
  const FAIL_STAGE_SPAN: bv32 := 0x4_0000
  const FAIL_STAGE_PLAN_FULL: bv32 := 0x8_0000
  const FAIL_STAGE_SRC_BOUNDS: bv32 := 0x10_0000
  const FAIL_STAGE_DST_BOUNDS: bv32 := 0x20_0000
  const FAIL_STAGE_COPY: bv32 := 0x40_0000
  const FAIL_STAGE_REPARSE: bv32 := 0x80_0000
  const FAIL_STAGE_MARKERS: bv32 := 0x100_0000
  const FAIL_STAGE_ZERO_FILL: bv32 := 0x200_0000
  const FAIL_STAGE_ARENA_ALIAS: bv32 := 0x400_0000
  const FAIL_PLAN_MASK: bv32 := 0x3_8000

  const VALID_STAGED: bv32 := 0x3_c000

  const MARKER_TEXT: bv32 := 0x1
  const MARKER_DATA: bv32 := 0x2
  const MARKER_PRELINK_TEXT: bv32 := 0x4
  const MARKER_REQUIRED: bv32 := 0x7

  const PLAN_FILE_BACKED: bv32 := 0x1
  const PLAN_PRELINK: bv32 := 0x2
  const PLAN_ZERO_FILL: bv32 := 0x4

  const STATUS_OK: bv32 := 0x9000_0001
  const STATUS_BASE: bv32 := 0x9000_0000

  function StatusFail(mask: bv32): bv32 {
    STATUS_BASE | 0x4000_0000 | (mask & 0x3fff_ffff)
  }

  lemma StatusFailIsNotOk(m: bv32)
    ensures StatusFail(m) != STATUS_OK
  {
  }

  /** A failing status carries the failure word in its low bits. */
  lemma FailIsCarried(fail: bv32)
    requires Without(fail, 0xfff_ffff) == 0
    ensures StatusFail(fail) & 0xfff_ffff == fail && Has(StatusFail(fail), 0x4000_0000)
  {
  }

  datatype Header = Header(magic: u32, cputype: u32, cpusubtype: u32, filetype: u32,
                           ncmds: u32, sizeofcmds: u32, flags: u32)

  const NO_HEADER := Header(0, 0, 0, 0, 0, 0, 0)

  function HeaderAt(b: seq<byte>): Header
    requires |b| >= 28
  {
    Header(Le32(b, 0), Le32(b, 4), Le32(b, 8), Le32(b, 12), Le32(b, 16), Le32(b, 20), Le32(b, 24))
  }

  datatype Segment = Segment(name: seq<byte>, vmaddr: u32, vmsize: u32,
                             fileoff: u32, filesize: u32, nsects: u32)

  function SegmentAt(b: seq<byte>, o: nat): (s: Segment)
    requires o + 56 <= |b|
    ensures |s.name| == 16
  {
    Segment(b[o + 8..o + 24], Le32(b, o + 24), Le32(b, o + 28),
            Le32(b, o + 32), Le32(b, o + 36), Le32(b, o + 48))
  }

  datatype Section = Section(name: seq<byte>, segment: seq<byte>, addr: u32, size: u32, offset: u32)

  function SectionAt(b: seq<byte>, o: nat): (s: Section)
    requires o + 68 <= |b|
    ensures |s.name| == |s.segment| == 16
  {
    Section(b[o..o + 16], b[o + 16..o + 32], Le32(b, o + 32), Le32(b, o + 36), Le32(b, o + 40))
  }

  /** The bytes of a C string literal, without its terminator. */
  function Ascii(s: string): (r: seq<byte>)
    ensures |r| == |s|
  {
    seq(|s|, i requires 0 <= i < |s| => (s[i] as int) % 256)
  }

  /** A 16-byte name field equals a string: same characters and, when the string is shorter than
      the field, a terminator right after them. */
  predicate NameIs(field: seq<byte>, name: string)
    requires |field| == 16
  {
    if |name| < 16
    then field[..|name|] == Ascii(name) && field[|name|] == 0
    else field == Ascii(name)[..16]
  }

  method Fixed16Eq(field: seq<byte>, name: string) returns (r: bool)
    requires |field| == 16
    requires forall i :: 0 <= i < |name| ==> 0 < name[i] as int < 256
    ensures r == NameIs(field, name)
  {
    var i := 0;
    while i < 16
      invariant 0 <= i <= 16 && i <= |name|
      invariant forall k :: 0 <= k < i ==> field[k] == name[k] as int
    {
      var expected := if i < |name| then name[i] as int else 0;
      if field[i] != expected {
        return false;
      }
      if expected == 0 {
        assert field[..|name|] == Ascii(name);
        return true;
      }
      i := i + 1;
    }
    assert field == Ascii(name)[..16];
    return true;
  }

  function SegmentMask(name: seq<byte>): bv32
    requires |name| == 16
  {
    if NameIs(name, "__TEXT") then SEG_TEXT
    else if NameIs(name, "__DATA") then SEG_DATA
    else if NameIs(name, "__LINKEDIT") then SEG_LINKEDIT
    else if NameIs(name, "__KLD") then SEG_KLD
    else if NameIs(name, "__LAST") then SEG_LAST
    else if NameIs(name, "__PRELINK_TEXT") then SEG_PRELINK_TEXT
    else if NameIs(name, "__PRELINK_INFO") then SEG_PRELINK_INFO
    else if NameIs(name, "__PRELINK_STATE") then SEG_PRELINK_STATE
    else if NameIs(name, "__PRELINK") then SEG_PRELINK
    else 0
  }

  function SectionMask(s: Section): bv32
    requires |s.name| == |s.segment| == 16
  {
    if NameIs(s.segment, "__TEXT") && NameIs(s.name, "__text") then SECT_TEXT_TEXT
    else if NameIs(s.segment, "__DATA") && NameIs(s.name, "__const") then SECT_DATA_CONST
    else if NameIs(s.segment, "__PRELINK_TEXT") && NameIs(s.name, "__text") then SECT_PRELINK_TEXT_TEXT
    else if NameIs(s.segment, "__PRELINK_INFO") && NameIs(s.name, "__info") then SECT_PRELINK_INFO_INFO
    else if NameIs(s.segment, "__PRELINK_INFO") && NameIs(s.name, "__kernel") then SECT_PRELINK_INFO_KERNEL
    else if NameIs(s.segment, "__PRELINK_INFO") && NameIs(s.name, "__kexts") then SECT_PRELINK_INFO_KEXTS
    else if NameIs(s.segment, "__PRELINK_STATE") && NameIs(s.name, "__kernel") then SECT_PRELINK_STATE_KERNEL
    else if NameIs(s.segment, "__PRELINK_STATE") && NameIs(s.name, "__kexts") then SECT_PRELINK_STATE_KEXTS
    else if NameIs(s.segment, "__PRELINK") && NameIs(s.name, "__symtab") then SECT_PRELINK_SYMTAB
    else 0
  }

  /** `segment_mask_for_name`: the comparisons in order, the first that holds deciding. */
  method SegmentMaskForName(name: seq<byte>) returns (bit: bv32)
    requires |name| == 16
    ensures bit == SegmentMask(name)
  {
    hide NameIs;
    var r := Fixed16Eq(name, "__TEXT");
    if r { return SEG_TEXT; }
    r := Fixed16Eq(name, "__DATA");
    if r { return SEG_DATA; }
    r := Fixed16Eq(name, "__LINKEDIT");
    if r { return SEG_LINKEDIT; }
    r := Fixed16Eq(name, "__KLD");
    if r { return SEG_KLD; }
    r := Fixed16Eq(name, "__LAST");
    if r { return SEG_LAST; }
    r := Fixed16Eq(name, "__PRELINK_TEXT");
    if r { return SEG_PRELINK_TEXT; }
    r := Fixed16Eq(name, "__PRELINK_INFO");
    if r { return SEG_PRELINK_INFO; }
    r := Fixed16Eq(name, "__PRELINK_STATE");
    if r { return SEG_PRELINK_STATE; }
    r := Fixed16Eq(name, "__PRELINK");
    if r { return SEG_PRELINK; }
    return 0;
  }

  method PairEq(s: Section, segment: string, name: string) returns (r: bool)
    requires |s.name| == |s.segment| == 16
    requires forall i :: 0 <= i < |segment| ==> 0 < segment[i] as int < 256
    requires forall i :: 0 <= i < |name| ==> 0 < name[i] as int < 256
    ensures r == (NameIs(s.segment, segment) && NameIs(s.name, name))
  {
    hide NameIs;
    r := Fixed16Eq(s.segment, segment);
    if r {
      r := Fixed16Eq(s.name, name);
    }
  }

  /** The name pairs `record_section_match` looks for, in its order. */
  method SectionMaskForNames(s: Section) returns (bit: bv32)
    requires |s.name| == |s.segment| == 16
    ensures bit == SectionMask(s)
  {
    hide NameIs;
    var r := PairEq(s, "__TEXT", "__text");
    if r { return SECT_TEXT_TEXT; }
    r := PairEq(s, "__DATA", "__const");
    if r { return SECT_DATA_CONST; }
    r := PairEq(s, "__PRELINK_TEXT", "__text");
    if r { return SECT_PRELINK_TEXT_TEXT; }
    r := PairEq(s, "__PRELINK_INFO", "__info");
    if r { return SECT_PRELINK_INFO_INFO; }
    r := PairEq(s, "__PRELINK_INFO", "__kernel");
    if r { return SECT_PRELINK_INFO_KERNEL; }
    r := PairEq(s, "__PRELINK_INFO", "__kexts");
    if r { return SECT_PRELINK_INFO_KEXTS; }
    r := PairEq(s, "__PRELINK_STATE", "__kernel");
    if r { return SECT_PRELINK_STATE_KERNEL; }
    r := PairEq(s, "__PRELINK_STATE", "__kexts");
    if r { return SECT_PRELINK_STATE_KEXTS; }
    r := PairEq(s, "__PRELINK", "__symtab");
    if r { return SECT_PRELINK_SYMTAB; }
    return 0;
  }
}
