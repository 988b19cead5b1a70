/** The translation-table workspace placed after the loaded image: the preflight's arithmetic and the
    dry run's own layout of it. */
module Workspace {
  import opened Words
  import opened Bits
  import opened Runtime
  import opened Masks
  import opened MachoFormat
  import opened MachoSpec

  const ALIGNMENT: u32 := 0x4000
  const WORKSPACE_BYTES: u32 := 0xa000
  const L1_SIZE: u32 := 0x4000
  const L2_SIZE: u32 := 0x1000
  const L2_ALIGN: u32 := 0x400
  const MINIMUM_SPAN: u32 := 0x1_0000

  datatype Proposal = Proposal(base: u32, limit: u32, availStart: u32, rangeOk: bool)

  /** Where the image is taken to end: the plan's end, or a guess from the address span. */
  function LoadedEnd(load: Load, minVm: u32, maxVm: u32): u32 {
    if load.physEnd != 0 then load.physEnd
    else
      var span := Sub32(maxVm, minVm);
      Add32(RAM_PHYS_BASE, if span < MINIMUM_SPAN then MINIMUM_SPAN else span)
  }

  function Propose(load: Load, minVm: u32, maxVm: u32): Proposal {
    var loadedEnd := LoadedEnd(load, minVm, maxVm);
    var base := AlignUp(loadedEnd, ALIGNMENT);
    var limit := Add32(base, WORKSPACE_BYTES);
    Proposal(base, limit, limit,
             && And(base, ALIGNMENT - 1) == 0
             && limit > base && limit < RAM_CONSOLE_BASE
             && base >= loadedEnd
             && load.physBase >= RAM_PHYS_BASE
             && load.physEnd <= base)
  }

  const FAIL_WORKSPACE_RANGE: bv32 := 0x1
  const FAIL_WORKSPACE_ALIGNMENT: bv32 := 0x2
  const FAIL_LAYOUT_OVERFLOW: bv32 := 0x4
  const FAIL_OVERLAP: bv32 := 0x40

  datatype Layout = Layout(l1Base: u32, l1Limit: u32, l2Base: u32, l2Limit: u32,
                           scratchBase: u32, scratchLimit: u32, fail: bv32)

  predicate RangesOverlap(aBase: u32, aLimit: u32, bBase: u32, bLimit: u32): (r: bool)
    ensures !r <==> aBase < aLimit && bBase < bLimit && (aLimit <= bBase || bLimit <= aBase)
  {
    if aLimit <= aBase || bLimit <= bBase then true else aBase < bLimit && bBase < aLimit
  }

  predicate WorkspaceRanged(p: Proposal, load: Load, limit: u32) {
    && limit > p.base && limit < RAM_CONSOLE_BASE && p.base >= load.physEnd
    && p.base == AlignUp(load.physEnd, ALIGNMENT) && limit == p.availStart
  }

  predicate TablesAligned(base: u32, l1Limit: u32) {
    And(base, ALIGNMENT - 1) == 0 && And(l1Limit, L2_ALIGN - 1) == 0
  }

  predicate WorkspaceApart(p: Proposal, load: Load, limit: u32) {
    && !RangesOverlap(load.physBase, load.physEnd, p.base, limit)
    && !RangesOverlap(p.base, limit, RAM_CONSOLE_BASE, RAM_CONSOLE_BASE + RAM_CONSOLE_SIZE)
  }

  /** The dry run lays the tables out again from the proposal and judges the result. */
  function LayOut(p: Proposal, load: Load): Layout {
    var limit := if AddOverflow(p.base, WORKSPACE_BYTES) then 0 else Add32(p.base, WORKSPACE_BYTES);
    var l1Fails := AddOverflow(p.base, L1_SIZE);
    var l1Limit := if l1Fails then 0 else Add32(p.base, L1_SIZE);
    var l2Fails := AddOverflow(l1Limit, L2_SIZE);
    var l2Limit := if l2Fails then 0 else Add32(l1Limit, L2_SIZE);
    var scratchLimit := if limit >= l2Limit then limit else 0;
    var fits := l1Limit <= limit && l2Limit <= limit && l2Limit <= scratchLimit && scratchLimit == limit;
    Layout(p.base, l1Limit, l1Limit, l2Limit, l2Limit, scratchLimit,
           LayoutFlags(AddOverflow(p.base, WORKSPACE_BYTES) || !WorkspaceRanged(p, load, limit),
                       !TablesAligned(p.base, l1Limit),
                       l1Fails || l2Fails || limit < l2Limit || !fits,
                       !WorkspaceApart(p, load, limit)))
  }

  function LayoutFlags(range: bool, alignment: bool, overflow: bool, overlap: bool): bv32 {
    Flag(range, FAIL_WORKSPACE_RANGE) | Flag(alignment, FAIL_WORKSPACE_ALIGNMENT) |
    Flag(overflow, FAIL_LAYOUT_OVERFLOW) | Flag(overlap, FAIL_OVERLAP)
  }

  lemma AlignWorkspace(end: u32)
    ensures if end + 0x3fff < TWO32
            then AlignUp(end, ALIGNMENT) % 0x4000 == 0 && end <= AlignUp(end, ALIGNMENT) < end + 0x4000
            else AlignUp(end, ALIGNMENT) == 0
  {
    hide AlignUpChecked, Pow2;
    Pow2Values();
    AlignUpMeaning(end, 14);
  }

  lemma LowBits(w: u32)
    ensures And(w, ALIGNMENT - 1) == w % 0x4000 && And(w, L2_ALIGN - 1) == w % 0x400
  {
    hide And, Pow2;
    Pow2Values();
    AndLow(w, 14);
    AndLow(w, 10);
  }

  /** Rounded up to whole first-level tables. */
  function RoundedEnd(end: nat): (r: nat)
    ensures end <= r < end + 0x4000
  {
    (end + 0x3fff) / 0x4000 * 0x4000
  }

  lemma RoundedIsAligned(end: u32)
    ensures AlignUp(end, ALIGNMENT) == if RoundedEnd(end) < TWO32 then RoundedEnd(end) else 0
  {
    hide AlignUp;
    AlignWorkspace(end);
    if end + 0x3fff < TWO32 {
      RoundedIs(end, AlignUp(end, ALIGNMENT));
    }
  }

  /** For any load bounds: the workspace starts at the end of the image, rounded up, the image ending where
      the plan ends or, without one, 64 KB or the address span above the start of RAM; it is approved
      exactly when the image starts in RAM and there is room below the RAM console. */
  lemma ProposalMeans(load: Load, minVm: u32, maxVm: u32)
    ensures var p := Propose(load, minVm, maxVm);
            var span := Wrap(maxVm - minVm);
            var end := if load.physEnd != 0 then load.physEnd
                       else Wrap(0x8000_0000 + if span < 0x1_0000 then 0x1_0000 else span);
            && p.base == (if RoundedEnd(end) < TWO32 then RoundedEnd(end) else 0)
            && p.availStart == p.limit == Wrap(p.base + 0xa000)
            && (p.rangeOk <==> load.physBase >= 0x8000_0000 && RoundedEnd(end) + 0xa000 < 0xde50_0000)
  {
    hide And, AlignUp;
    var end := LoadedEnd(load, minVm, maxVm);
    RoundedIsAligned(end);
    LowBits(AlignUp(end, ALIGNMENT));
  }

  lemma FourFlags(a: bool, b: bool, c: bool, d: bool)
    ensures var x := LayoutFlags(a, b, c, d);
            && (Has(x, 0x1) <==> a) && (Has(x, 0x2) <==> b) && (Has(x, 0x4) <==> c) && (Has(x, 0x40) <==> d)
            && Without(x, 0x47) == 0
  {
  }

  /** The workspace and another range share no byte, neither being empty. */
  predicate Apart(aBase: nat, aLimit: nat, bBase: nat, bLimit: nat) {
    aBase < aLimit && bBase < bLimit && (aLimit <= bBase || bLimit <= aBase)
  }

  /** What the dry run's layout raises for any proposal and load bounds, bit by bit. */
  lemma LayoutFaults(p: Proposal, load: Load)
    ensures var l, limit := LayOut(p, load), p.base + 0xa000;
            && (Has(l.fail, 0x1) <==>
                  !(limit < 0xde50_0000 && load.physEnd <= p.base == RoundedEnd(load.physEnd) && limit == p.availStart))
            && (Has(l.fail, 0x2) <==> p.base % 0x4000 != 0)
            && (Has(l.fail, 0x4) <==> limit >= TWO32)
            && (Has(l.fail, 0x40) <==>
                  limit >= TWO32 || !Apart(load.physBase, load.physEnd, p.base, limit)
                  || !Apart(p.base, limit, 0xde50_0000, 0xde70_0000))
            && Without(l.fail, 0x47) == 0
            && (limit < TWO32 ==> l == Layout(p.base, p.base + 0x4000, p.base + 0x4000, p.base + 0x5000,
                                              p.base + 0x5000, limit, l.fail))
  {
    var limit := p.base + 0xa000;
    var ranged := limit < 0xde50_0000 && load.physEnd <= p.base == RoundedEnd(load.physEnd) && limit == p.availStart;
    var apart := && Apart(load.physBase, load.physEnd, p.base, limit)
                 && Apart(p.base, limit, 0xde50_0000, 0xde70_0000);
    FourFlags(!ranged, p.base % 0x4000 != 0, limit >= TWO32, limit >= TWO32 || !apart);
    hide LayOut, Has, Without, LayoutFlags, Apart, RoundedEnd;
    if limit < TWO32 {
      LayoutInside(p, load);
    } else {
      LayoutWraps(p, load);
    }
  }

  lemma RangedMeans(p: Proposal, load: Load)
    requires p.base + 0xa000 < TWO32
    ensures WorkspaceRanged(p, load, p.base + 0xa000) <==>
            && p.base + 0xa000 < 0xde50_0000 && p.base + 0xa000 == p.availStart
            && load.physEnd <= p.base == RoundedEnd(load.physEnd)
  {
    hide AlignUp, RoundedEnd;
    RoundedIsAligned(load.physEnd);
  }

  lemma AlignedMeans(base: u32, l1Limit: u32)
    requires l1Limit == if base + 0x4000 < TWO32 then base + 0x4000 else 0
    ensures TablesAligned(base, l1Limit) <==> base % 0x4000 == 0
  {
    hide And;
    LowBits(base);
    LowBits(l1Limit);
    FirstLevelAligned(base);
  }

  /** A workspace that does not wrap. */
  lemma LayoutInside(p: Proposal, load: Load)
    requires p.base + 0xa000 < TWO32
    ensures var limit := p.base + 0xa000;
            var ranged := && limit < 0xde50_0000 && limit == p.availStart
                          && load.physEnd <= p.base == RoundedEnd(load.physEnd);
            var apart := && Apart(load.physBase, load.physEnd, p.base, limit)
                         && Apart(p.base, limit, 0xde50_0000, 0xde70_0000);
            LayOut(p, load) ==
            Layout(p.base, p.base + 0x4000, p.base + 0x4000, p.base + 0x5000, p.base + 0x5000, limit,
                   LayoutFlags(!ranged, p.base % 0x4000 != 0, false, !apart))
  {
    hide LayoutFlags, WorkspaceRanged, TablesAligned, RoundedEnd;
    RangedMeans(p, load);
    AlignedMeans(p.base, p.base + 0x4000);
  }

  /** One that does. */
  lemma LayoutWraps(p: Proposal, load: Load)
    requires p.base + 0xa000 >= TWO32
    ensures LayOut(p, load).fail == LayoutFlags(true, p.base % 0x4000 != 0, true, true)
  {
    hide LayoutFlags, WorkspaceRanged, TablesAligned;
    AlignedMeans(p.base, if p.base + 0x4000 < TWO32 then p.base + 0x4000 else 0);
  }

  lemma FirstLevelAligned(base: u32)
    ensures base % 0x4000 == 0 ==> (base + 0x4000) % 0x400 == 0
  {
    if base % 0x4000 == 0 {
      var q := base / 0x4000;
      assert base + 0x4000 == (16 * q + 16) * 0x400;
      DivModUnique(base + 0x4000, 0x400, 16 * q + 16, 0);
    }
  }

  /** For an image planned in RAM, the preflight approves the workspace exactly when the image end,
      rounded up, leaves room for it below the RAM console; and then the dry run's layout raises
      nothing: image, first level, second level and scratch follow each other without overlap,
      aligned, and end where available memory starts. */
  lemma WorkspaceSound(load: Load, minVm: u32, maxVm: u32)
    requires RAM_PHYS_BASE == load.physBase < load.physEnd <= RAM_CONSOLE_BASE
    ensures var p := Propose(load, minVm, maxVm);
            p.rangeOk <==> (load.physEnd + 0x3fff) / 0x4000 * 0x4000 + 0xa000 < RAM_CONSOLE_BASE
    ensures var p, l := Propose(load, minVm, maxVm), LayOut(Propose(load, minVm, maxVm), load);
            p.rangeOk ==>
              && l.fail == 0
              && load.physEnd <= l.l1Base && l.l1Base % 0x4000 == 0
              && l.l1Limit == l.l1Base + 0x4000 == l.l2Base && l.l2Base % 0x400 == 0
              && l.l2Limit == l.l2Base + 0x1000 == l.scratchBase
              && l.scratchBase <= l.scratchLimit == p.availStart == l.l1Base + 0xa000 < RAM_CONSOLE_BASE
  {
    hide And, AlignUp, LayOut;
    var base := AlignUp(load.physEnd, ALIGNMENT);
    AlignWorkspace(load.physEnd);
    RoundedIs(load.physEnd, base);
    LowBits(base);
    if Propose(load, minVm, maxVm).rangeOk {
      LayoutSound(Propose(load, minVm, maxVm), load);
    }
  }

  lemma LayoutSound(p: Proposal, load: Load)
    requires RAM_PHYS_BASE == load.physBase < load.physEnd <= p.base == AlignUp(load.physEnd, ALIGNMENT)
    requires p.base % 0x4000 == 0 && p.base + 0xa000 == p.limit == p.availStart < RAM_CONSOLE_BASE
    ensures LayOut(p, load) == Layout(p.base, p.base + 0x4000, p.base + 0x4000, p.base + 0x5000,
                                      p.base + 0x5000, p.base + 0xa000, 0)
    ensures (p.base + 0x4000) % 0x400 == 0
  {
    hide And, AlignUp;
    LowBits(p.base);
    LowBits(p.base + 0x4000);
    var q := p.base / 0x4000;
    assert p.base + 0x4000 == (16 * q + 16) * 0x400;
    DivModUnique(p.base + 0x4000, 0x400, 16 * q + 16, 0);
  }

  lemma RoundedIs(end: u32, r: nat)
    requires r % 0x4000 == 0 && end <= r < end + 0x4000
    ensures r == (end + 0x3fff) / 0x4000 * 0x4000
  {
  }
}
