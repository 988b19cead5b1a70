/** The exclusive-monitor probe under any monitor that tells the truth: a store-exclusive reports
    success exactly when its store landed (section A3.4 of the ARMv7-A manual, DDI 0406C). */
module Exclusive {
  import opened Words
  import opened Masks
  import opened SectionTable

  const ITERATIONS: u32 := 1000
  const SEED: u32 := 0x5eed_1234
  const DISRUPT: u32 := 0xd15f_0000
  const STATUS_OK: bv32 := 0x9000_0001
  const STATUS_BASE: bv32 := 0x9000_0000

  /** A monitor, and what the outside does to it. A load-exclusive opens a reservation; a guarded monitor
      lets a store-exclusive land only while one is open, an unguarded one always. Whether CLREX drops
      the reservation, whether the k-th plain store does, and in which pairs an outside event does, is
      left open. `firstRead` is what the very first load-exclusive returns. */
  datatype Monitor = Monitor(firstRead: u32, guarded: bool, clrexDrops: bool,
                             storeDrops: nat -> bool, lost: nat -> bool)

  /** The architecture's local monitor: guarded, and cleared by CLREX. */
  predicate Conforming(m: Monitor) {
    m.guarded && m.clrexDrops
  }

  datatype Report = Report(
    ldrexReadsWord: bool,
    undisruptedOk: bool, disruptedOk: bool, clrexOk: bool, otherAddrOk: bool,
    successCount: nat, failCount: nat, valueFinal: u32, valueExpected: nat,
    monitorTracks: bool, monitorClears: bool, exclusivesUsable: bool,
    status: bv32, sctlr: bv32, mmuEnabled: bool)

  /** The pairs of the tests are numbered 0 to 3, those of the loop from 4 on. */
  predicate LoopStoreLands(m: Monitor, i: nat) {
    m.guarded ==> !m.lost(4 + i)
  }

  /** How many of the first n loop stores land. */
  function Landed(m: Monitor, n: nat): (r: nat)
    ensures r <= n
  {
    if n == 0 then 0 else Landed(m, n - 1) + (if LoopStoreLands(m, n - 1) then 1 else 0)
  }

  predicate MmuOn(sctlr: bv32) {
    sctlr & 1 != 0
  }

  /** The parts of the processor and of memory the probe can touch. */
  class Cpu {
    var sctlr: bv32
    var actlr: bv32
    var irqMasked: bool
    const l1: array<u32>
    var word: u32
    var otherWord: u32
    var reserved: bool

    constructor (table: array<u32>)
      ensures l1 == table
    {
      sctlr, actlr, irqMasked, word, otherWord, reserved := 0, 0, true, 0, 0, false;
      l1 := table;
    }

    method Ldrex() returns (v: u32)
      modifies this`reserved
      ensures v == word && reserved
    {
      reserved := true;
      return word;
    }

    /** The first of all: nothing is assumed of what it returns. */
    method FirstLdrex(m: Monitor) returns (v: u32)
      requires irqMasked
      modifies this`reserved
      ensures v == m.firstRead && reserved
    {
      reserved := true;
      return m.firstRead;
    }

    /** A store-exclusive: it lands, or leaves the word alone and says so; either way no reservation
        is left. */
    method Strex(m: Monitor, value: u32) returns (ok: bool)
      modifies this`word, this`reserved
      ensures ok == (m.guarded ==> old(reserved)) && !reserved
      ensures word == if ok then value else old(word)
    {
      ok := reserved || !m.guarded;
      reserved := false;
      if ok {
        word := value;
      }
    }

    method Clrex(m: Monitor)
      modifies this`reserved
      ensures reserved == (old(reserved) && !m.clrexDrops)
    {
      if m.clrexDrops {
        reserved := false;
      }
    }

    /** What happens to the reservation of pair k from outside before its store. */
    method Outside(m: Monitor, k: nat)
      modifies this`reserved
      ensures reserved == (old(reserved) && !m.lost(k))
    {
      if m.lost(k) {
        reserved := false;
      }
    }

    /** What the k-th plain store does to the reservation. */
    method StoreEffect(m: Monitor, k: nat)
      modifies this`reserved
      ensures reserved == (old(reserved) && !m.storeDrops(k))
    {
      if m.storeDrops(k) {
        reserved := false;
      }
    }

    /** The counting loop on the zeroed word; like the pairs, only run with interrupts masked. */
    method CountLoop(m: Monitor) returns (success: nat, fail: nat)
      requires irqMasked
      modifies this`word, this`reserved
      ensures success == Landed(m, ITERATIONS) && success + fail == ITERATIONS
      ensures word == success
    {
      word := 0;
      success, fail := 0, 0;
      var i := 0;
      while i < ITERATIONS
        invariant 0 <= i <= ITERATIONS && success + fail == i
        invariant success == Landed(m, i) && word == success
      {
        var observed := Ldrex();
        Outside(m, 4 + i);
        var ok := Strex(m, Add32(observed, 1));
        if ok {
          success := success + 1;
        } else {
          fail := fail + 1;
        }
        i := i + 1;
      }
    }

    /** The four single pairs: undisturbed, after a plain store, after CLREX, after a store elsewhere. */
    method PairTests(m: Monitor) returns (undisrupted: bool, disrupted: bool, clrex: bool, other: bool)
      requires irqMasked
      modifies this`word, this`otherWord, this`reserved
      ensures undisrupted <==> m.guarded ==> !m.lost(0)
      ensures disrupted <==> m.guarded ==> !m.storeDrops(0) && !m.lost(1)
      ensures clrex <==> m.guarded ==> !m.clrexDrops && !m.lost(2)
      ensures other <==> m.guarded ==> !m.storeDrops(1) && !m.lost(3)
    {
      hide Add32;
      var observed := Ldrex();
      Outside(m, 0);
      undisrupted := Strex(m, Add32(observed, 1));
      observed := Ldrex();
      word := DISRUPT;
      StoreEffect(m, 0);
      Outside(m, 1);
      disrupted := Strex(m, Add32(observed, 1));
      observed := Ldrex();
      Clrex(m);
      Outside(m, 2);
      clrex := Strex(m, Add32(observed, 1));
      observed := Ldrex();
      otherWord := 0x1234;
      StoreEffect(m, 1);
      Outside(m, 3);
      other := Strex(m, Add32(observed, 1));
    }

    /** `probe_run_into`: the six tests with interrupts masked, and the verdict. A monitor is called
        usable exactly when the first load read the word, the undisturbed pair kept its reservation, and
        the monitor is guarded and drops its reservation on CLREX (or lost it there by accident); what
        plain stores do to it plays no part, and an unguarded one is never called usable. */
    method ProbeRunInto(m: Monitor) returns (r: Report)
      modifies this`word, this`otherWord, this`irqMasked, this`reserved
      ensures irqMasked == old(irqMasked)
      ensures r.ldrexReadsWord <==> m.firstRead == SEED
      ensures r.undisruptedOk <==> m.guarded ==> !m.lost(0)
      ensures r.disruptedOk <==> m.guarded ==> !m.storeDrops(0) && !m.lost(1)
      ensures r.clrexOk <==> m.guarded ==> !m.clrexDrops && !m.lost(2)
      ensures r.otherAddrOk <==> m.guarded ==> !m.storeDrops(1) && !m.lost(3)
      ensures r.successCount == Landed(m, ITERATIONS) && r.successCount + r.failCount == ITERATIONS
      ensures r.valueFinal == r.valueExpected == r.successCount
      ensures r.exclusivesUsable <==>
              m.firstRead == SEED && m.guarded && !m.lost(0) && (m.clrexDrops || m.lost(2))
      ensures Conforming(m) ==> (r.exclusivesUsable <==> m.firstRead == SEED && !m.lost(0))
      ensures r.monitorTracks <==> m.guarded && !m.lost(0) && (m.storeDrops(0) || m.lost(1))
      ensures r.monitorClears <==> m.guarded && !m.lost(0) && (m.clrexDrops || m.lost(2))
      ensures r.status == if m.firstRead == SEED then STATUS_OK else STATUS_BASE
      ensures r.sctlr == sctlr && (r.mmuEnabled <==> MmuOn(sctlr))
    {
      hide Landed;
      var maskedOnEntry := irqMasked;
      irqMasked := true;
      word := SEED;
      var first := FirstLdrex(m);
      var seen := first == SEED;
      var undisrupted, disrupted, clrex, other := PairTests(m);
      var success, fail := CountLoop(m);
      var final := word;
      if !maskedOnEntry {
        irqMasked := false;
      }
      var clears := undisrupted && !clrex;
      r := Report(seen, undisrupted, disrupted, clrex, other, success, fail, final, success,
                  undisrupted && !disrupted, clears, seen && clears && final == success,
                  if seen && final == success then STATUS_OK else STATUS_BASE, sctlr, MmuOn(sctlr));
    }

    method SetCarveOut(entry: u32)
      requires l1.Length == 4096
      modifies l1
      ensures l1[..] == old(l1[..])[DC_INDEX := entry]
    {
      l1[DC_INDEX] := entry;
    }

    /** The tests with the coherency and cache bits set for their duration. */
    method RunCached(m: Monitor) returns (r: Report, ghost during: Setting)
      requires MmuOn(sctlr)
      modifies this`sctlr, this`actlr, this`irqMasked, this`word, this`otherWord, this`reserved
      ensures sctlr == old(sctlr) && actlr == old(actlr) && irqMasked == old(irqMasked)
      ensures during == Setting(l1[..], Raise(sctlr, SCTLR_C), Raise(actlr, ACTLR_SMP))
      ensures r.sctlr == Raise(sctlr, SCTLR_C) && r.mmuEnabled
      ensures r.valueFinal == r.successCount
      ensures Conforming(m) ==> (r.exclusivesUsable <==> m.firstRead == SEED && !m.lost(0))
    {
      hide Landed, MmuOn, Raise, Has;
      var actlrBefore := actlr;
      var raised := false;
      SmpBitIsSet(actlrBefore);
      if !Has(actlrBefore, ACTLR_SMP) {
        actlr := Raise(actlrBefore, ACTLR_SMP);
        raised := true;
      }
      var sctlrBefore := sctlr;
      sctlr := Raise(sctlrBefore, SCTLR_C);
      CacheBitKeepsMmu(sctlrBefore);
      during := Setting(l1[..], sctlr, actlr);
      r := ProbeRunInto(m);
      sctlr := sctlrBefore;
      if raised {
        actlr := actlrBefore;
      }
    }

    /** Phase 3: the same tests on a cacheable mapping with the data cache on. Whatever the carve-out
        reads back, every exit leaves the table, both control registers and the interrupt mask as
        they were; when the tests ran, they ran with the mapping in the table and both bits set. */
    method RunDcache(m: Monitor, readback: u32) returns (ran: bool, r: Report, ghost during: Setting)
      requires l1.Length == 4096
      modifies this`sctlr, this`actlr, this`irqMasked, this`word, this`otherWord, this`reserved, l1
      ensures l1[..] == old(l1[..]) && sctlr == old(sctlr) && actlr == old(actlr) && irqMasked == old(irqMasked)
      ensures ran <==> MmuOn(sctlr) && l1[DC_INDEX] == 0 && readback == DC_MAGIC
      ensures ran ==> during == Setting(old(l1[..])[DC_INDEX := DC_ENTRY],
                                        Raise(sctlr, SCTLR_C), Raise(actlr, ACTLR_SMP))
      ensures ran ==> r.sctlr == Raise(sctlr, SCTLR_C) && r.mmuEnabled
                      && r.valueFinal == r.successCount
                      && (Conforming(m) ==> (r.exclusivesUsable <==> m.firstRead == SEED && !m.lost(0)))
    {
      hide MmuOn, Raise, Landed;
      ran, r, during := false, NO_REPORT, Setting([], 0, 0);
      if !MmuOn(sctlr) {
        return;
      }
      var savedEntry := l1[DC_INDEX];
      if savedEntry != 0 {
        return;
      }
      PutBack(l1[..], DC_INDEX, DC_ENTRY);
      SetCarveOut(DC_ENTRY);
      word := DC_MAGIC;
      if readback != DC_MAGIC {
        SetCarveOut(savedEntry);
        return;
      }
      r, during := RunCached(m);
      ran := true;
      SetCarveOut(savedEntry);
    }
  }

  lemma PutBack(table: seq<u32>, i: nat, v: u32)
    requires i < |table|
    ensures table[i := v][i := table[i]] == table
  {
  }

  const DC_INDEX: int := 2
  /** The section word for physical address 0x200000: write-back, write-allocate, shareable. */
  const DC_ENTRY: u32 := 0x0021_140e
  const DC_MAGIC: u32 := 0xdcc0_ffee
  const SCTLR_C: bv32 := 0x4
  const ACTLR_SMP: bv32 := 0x40
  const NO_REPORT: Report := Report(false, false, false, false, false, 0, 0, 0, 0, false, false, false, 0, 0, false)

  /** The table and the control registers the tests see. */
  datatype Setting = Setting(table: seq<u32>, sctlr: bv32, actlr: bv32)

  /** The section of the carve-out is then mapped to itself. */
  lemma CarveOutTranslates(table: seq<u32>, va: u32)
    requires |table| == ENTRIES && table[DC_INDEX] == DC_ENTRY && 0x20_0000 <= va < 0x30_0000
    ensures Translate(table, va) == Mapped(va)
  {
    hide Base, Offset, Join;
  }

  lemma SmpBitIsSet(a: bv32)
    ensures Has(a, ACTLR_SMP) ==> a == Raise(a, ACTLR_SMP)
  {
  }

  lemma CacheBitKeepsMmu(s: bv32)
    ensures MmuOn(s) ==> MmuOn(Raise(s, SCTLR_C))
  {
  }

  function LandingStores(m: Monitor, n: nat): set<nat> {
    set i: nat | i < n && LoopStoreLands(m, i)
  }

  lemma LandingStep(m: Monitor, n: nat)
    requires n > 0
    ensures |LandingStores(m, n)| == |LandingStores(m, n - 1)| + (if LoopStoreLands(m, n - 1) then 1 else 0)
  {
    hide LoopStoreLands;
    var before := LandingStores(m, n - 1);
    if LoopStoreLands(m, n - 1) {
      assert LandingStores(m, n) == before + {n - 1};
    } else {
      assert LandingStores(m, n) == before;
    }
  }

  /** The final word counts the successes and nothing else: it is the number of landing stores. */
  lemma {:induction false} LandedCounts(m: Monitor, n: nat)
    ensures Landed(m, n) == |LandingStores(m, n)|
  {
    hide LoopStoreLands, LandingStores;
    if n == 0 {
      NothingLandsInNone(m);
    } else {
      LandedCounts(m, n - 1);
      LandingStep(m, n);
    }
  }

  lemma NothingLandsInNone(m: Monitor)
    ensures LandingStores(m, 0) == {}
  {
  }

  /** It is full exactly when every store lands, and zero exactly when none does. */
  lemma {:induction false} LandedExtremes(m: Monitor, n: nat)
    ensures Landed(m, n) == n <==> forall i: nat :: i < n ==> LoopStoreLands(m, i)
    ensures Landed(m, n) == 0 <==> forall i: nat :: i < n ==> !LoopStoreLands(m, i)
  {
    hide LoopStoreLands;
    if n > 0 {
      LandedExtremes(m, n - 1);
    }
  }
}
