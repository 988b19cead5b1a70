/** Cache maintenance by set and way, and by address range. Set/way operands are laid out as in
    section B4.2.1 of the ARMv7-A manual (DDI 0406C). */
module Cache {
  import opened Words
  import opened Bits
  import opened Runtime

  datatype Geometry = Geometry(lineLog2: nat, ways: nat, sets: nat)

  function DecodeGeometry(ccsidr: u32): (g: Geometry)
    ensures 4 <= g.lineLog2 <= 11 && 1 <= g.ways <= 1024 && 1 <= g.sets <= 32768
    ensures ccsidr % 0x1000_0000 == (g.lineLog2 - 4) + 8 * (g.ways - 1) + 0x2000 * (g.sets - 1)
  {
    FieldMasks(ccsidr);
    FieldsAddUp(ccsidr);
    Geometry(And(ccsidr, 0x7) + 4, And(ccsidr / 8, 0x3ff) + 1, And(ccsidr / 0x2000, 0x7fff) + 1)
  }

  lemma FieldMasks(w: u32)
    ensures And(w, 0x7) == w % 8 && And(w / 8, 0x3ff) == w / 8 % 0x400 && And(w / 0x2000, 0x7fff) == w / 0x2000 % 0x8000
  {
    hide And, Pow2;
    assert Pow2(3) == 8 && Pow2(15) == 0x8000 by {
      Pow2Values();
      Pow2Add(2, 1);
      Pow2Add(12, 3);
      PowOne();
    }
    Pow2Values();
    AndLow(w, 3);
    AndLow(w / 8, 10);
    AndLow(w / 0x2000, 15);
  }

  lemma FieldsAddUp(w: u32)
    ensures w % 0x1000_0000 == w % 8 + 8 * (w / 8 % 0x400) + 0x2000 * (w / 0x2000 % 0x8000)
  {
    FieldSplits(w, 8, 0x400);
    FieldSplits(w, 0x2000, 0x8000);
  }

  /** The part of a word below two neighbouring fields. */
  lemma FieldSplits(w: nat, low: nat, high: nat)
    requires low > 0 && high > 0
    ensures w % (low * high) == w % low + low * (w / low % high)
  {
    var q, l := w / low, w % low;
    var h, i := q / high, q % high;
    Regrouped(q, low, high, h, i, l);
    assert w == low * q + l;
    DivModUnique(w, low * high, h, l + low * i);
  }

  lemma Regrouped(q: nat, low: nat, high: nat, h: nat, i: nat, l: nat)
    requires l < low && i < high && q == high * h + i
    ensures low * q + l == h * (low * high) + (l + low * i)
    ensures l + low * i < low * high && low * high > 0
  {
    assert low * (high * h + i) == low * (high * h) + low * i;
    assert low * (high * h) == h * (low * high);
    MulMonotone(i + 1, high, low);
  }

  lemma PowOne()
    ensures Pow2(1) == 2
  {
  }

  /** The position of the highest set bit. */
  function Log2Of(v: nat): nat {
    if v <= 1 then 0 else 1 + Log2Of(v / 2)
  }

  lemma {:induction false} Log2Brackets(v: nat)
    requires v > 0
    ensures Pow2(Log2Of(v)) <= v < 2 * Pow2(Log2Of(v))
  {
    if v > 1 {
      Log2Brackets(v / 2);
      assert Pow2(Log2Of(v)) == 2 * Pow2(Log2Of(v / 2));
    }
  }

  method Log2(v: nat) returns (n: nat)
    requires v > 0
    ensures n == Log2Of(v)
  {
    n := 0;
    var x := v;
    while x > 1
      invariant n + Log2Of(x) == Log2Of(v)
    {
      x := x / 2;
      n := n + 1;
    }
  }

  /** A left shift in a 32-bit word. */
  function Shl32(v: nat, k: nat): u32 {
    Wrap(v * Pow2(k))
  }

  /** The operand of one maintenance operation; `log` is the rounded-down logarithm of the ways. */
  function Operand(way: nat, set_: nat, lineLog2: nat, log: nat): nat
    requires log <= 32
  {
    Or(Shl32(way, 32 - log), Shl32(set_, lineLog2))
  }

  /** Way and set as the hardware reads them back, `bits` being the width of the way field. */
  function DecodeWay(operand: nat, bits: nat): nat
    requires bits <= 32
  {
    Quot(operand, Pow2(32 - bits))
  }

  function DecodeSet(operand: nat, lineLog2: nat, bits: nat): nat
    requires bits <= 32
  {
    Quot(operand % Pow2(32 - bits), Pow2(lineLog2))
  }

  /** The width of the way field: the logarithm of the ways, rounded up. */
  function WayBits(ways: nat): (r: nat)
    requires ways > 0
    ensures ways <= Pow2(r) && (r > 0 ==> Pow2(r - 1) < ways) && Log2Of(ways) <= r
  {
    Log2Brackets(ways);
    if Pow2(Log2Of(ways)) == ways then PowerBelow(ways); Log2Of(ways) else Log2Of(ways) + 1
  }

  lemma PowerBelow(ways: nat)
    requires ways > 0 && Pow2(Log2Of(ways)) == ways
    ensures Log2Of(ways) > 0 ==> Pow2(Log2Of(ways) - 1) < ways
  {
  }

  /** A way field of this width and the set field do not meet. */
  predicate FieldsFit(g: Geometry, bits: nat) {
    1 <= bits <= 32 && g.sets * Pow2(g.lineLog2) <= Pow2(32 - bits)
  }

  lemma MulMonotone(a: nat, b: nat, m: nat)
    requires a <= b
    ensures a * m <= b * m
  {
  }

  /** With a power-of-two number of ways every operand decodes to its own way and set. */
  lemma OperandDecodes(g: Geometry, way: nat, set_: nat, log: nat)
    requires FieldsFit(g, log) && way < Pow2(log) && set_ < g.sets
    ensures var op := Operand(way, set_, g.lineLog2, log);
            op < TWO32 && DecodeWay(op, log) == way && DecodeSet(op, g.lineLog2, log) == set_
  {
    hide Or, Pow2, Shl32, Quot;
    var line, above := Pow2(g.lineLog2), Pow2(32 - log);
    Pow2Add(log, 32 - log);
    Pow2Values();
    ShlFits(way, 32 - log);
    ShlFits(set_, g.lineLog2);
    FieldBelow(set_, g.sets, line, above);
    FieldBelow(way, Pow2(log), above, TWO32);
    DivModUnique(way * above, above, way, 0);
    OrDisjoint(way * above, set_ * line, 32 - log);
    FieldsDecode(way, set_, line, above);
  }

  lemma ShlFits(v: nat, k: nat)
    ensures v * Pow2(k) < TWO32 ==> Shl32(v, k) == v * Pow2(k)
  {
    hide Pow2;
  }

  /** The last element of a field still leaves room for its own width. */
  lemma FieldBelow(i: nat, n: nat, width: nat, limit: nat)
    requires i < n && n * width <= limit && width > 0
    ensures i * width + width <= limit && i * width < limit
  {
    MulMonotone(i + 1, n, width);
    assert (i + 1) * width == i * width + width;
  }

  lemma FieldsDecode(way: nat, set_: nat, line: nat, above: nat)
    requires line > 0 && above > 0 && set_ * line < above
    ensures Quot(way * above + set_ * line, above) == way
    ensures Quot((way * above + set_ * line) % above, line) == set_
  {
    DivModUnique(way * above + set_ * line, above, way, set_ * line);
    DivModUnique(set_ * line, line, set_, 0);
  }

  /** The shift of the way just past the last power of two carries it out of the word: its operands are
      those of way zero. */
  lemma WayWraps(set_: nat, lineLog2: nat, log: nat)
    requires log <= 32
    ensures Operand(Pow2(log), set_, lineLog2, log) == Operand(0, set_, lineLog2, log)
  {
    hide Or, Pow2;
    Pow2Add(log, 32 - log);
    Pow2Values();
  }

  /** All operands differ exactly when the number of ways is a power of two. */
  lemma DistinctExactly(g: Geometry, log: nat)
    requires FieldsFit(g, log) && Pow2(log) <= g.ways < 2 * Pow2(log) && g.sets > 0
    ensures (forall w, s, w', s' :: 0 <= w < g.ways && 0 <= w' < g.ways && 0 <= s < g.sets && 0 <= s' < g.sets &&
                                    Operand(w, s, g.lineLog2, log) == Operand(w', s', g.lineLog2, log)
                                    ==> w == w' && s == s') <==> g.ways == Pow2(log)
  {
    hide Operand, Pow2;
    if g.ways == Pow2(log) {
      forall w, s, w', s' | 0 <= w < g.ways && 0 <= w' < g.ways && 0 <= s < g.sets && 0 <= s' < g.sets &&
                            Operand(w, s, g.lineLog2, log) == Operand(w', s', g.lineLog2, log)
        ensures w == w' && s == s'
      {
        OperandDecodes(g, w, s, log);
        OperandDecodes(g, w', s', log);
      }
    } else {
      WayWraps(0, g.lineLog2, log);
      assert Pow2(log) != 0;
    }
  }

  /** The nested sweep: operand w * sets + s is that of way w and set s. */
  method CleanInvalidateAll(g: Geometry) returns (issued: seq<nat>, log: nat)
    requires 2 <= g.ways <= 1024
    ensures log == Log2Of(g.ways) && log <= 32 && Pow2(log) <= g.ways < 2 * Pow2(log)
    ensures |issued| == g.ways * g.sets
    ensures Swept(issued, g, g.ways, log)
  {
    hide Operand, Pow2, Swept;
    EmptySweep(g);
    log := Log2(g.ways);
    Log2Brackets(g.ways);
    SmallLog(log, g.ways);
    issued := [];
    var way := 0;
    while way < g.ways
      invariant 0 <= way <= g.ways && |issued| == way * g.sets
      invariant Swept(issued, g, way, log)
    {
      var set_ := 0;
      ghost var before := issued;
      while set_ < g.sets
        invariant 0 <= set_ <= g.sets && |issued| == way * g.sets + set_
        invariant before <= issued
        invariant forall s :: 0 <= s < set_ ==> issued[way * g.sets + s] == Operand(way, s, g.lineLog2, log)
      {
        issued := issued + [Operand(way, set_, g.lineLog2, log)];
        set_ := set_ + 1;
      }
      SweptOneMore(before, issued, g, way, log);
      way := way + 1;
    }
  }

  lemma EmptySweep(g: Geometry)
    ensures forall log: nat :: log <= 32 ==> Swept([], g, 0, log)
  {
  }

  lemma SmallLog(log: nat, ways: nat)
    requires Pow2(log) <= ways <= 1024
    ensures log <= 10
  {
    Pow2Values();
    Pow2Add(10, 1);
    PowOne();
    if log > 10 {
      Pow2Monotone(11, log);
    }
  }

  predicate IssuedAt(issued: seq<nat>, g: Geometry, w: nat, s: nat, log: nat)
    requires log <= 32
  {
    w * g.sets + s < |issued| && issued[w * g.sets + s] == Operand(w, s, g.lineLog2, log)
  }

  predicate Swept(issued: seq<nat>, g: Geometry, ways: nat, log: nat)
    requires log <= 32
  {
    forall w: nat, s: nat :: w < ways && s < g.sets ==> IssuedAt(issued, g, w, s, log)
  }

  lemma SweptOneMore(before: seq<nat>, issued: seq<nat>, g: Geometry, way: nat, log: nat)
    requires log <= 32 && before <= issued && Swept(before, g, way, log)
    requires |issued| == way * g.sets + g.sets
    requires forall s :: 0 <= s < g.sets ==> issued[way * g.sets + s] == Operand(way, s, g.lineLog2, log)
    ensures Swept(issued, g, way + 1, log)
  {
    hide Operand;
    forall w: nat, s: nat | w < way + 1 && s < g.sets
      ensures IssuedAt(issued, g, w, s, log)
    {
      if w < way {
        assert IssuedAt(before, g, w, s, log);
      }
    }
  }

  /** Taken together: for a power-of-two geometry the sweep names every way and set once. */
  lemma SweepCoversOnce(g: Geometry, issued: seq<nat>, log: nat, i: nat)
    requires FieldsFit(g, log) && g.ways == Pow2(log) && g.sets > 0
    requires |issued| == g.ways * g.sets && Swept(issued, g, g.ways, log) && i < |issued|
    ensures DecodeWay(issued[i], log) == i / g.sets && DecodeSet(issued[i], g.lineLog2, log) == i % g.sets
  {
    hide Operand, DecodeWay, DecodeSet, Pow2;
    IndexSplits(i, g.ways, g.sets);
    assert IssuedAt(issued, g, i / g.sets, i % g.sets, log);
    OperandDecodes(g, i / g.sets, i % g.sets, log);
  }

  lemma IndexSplits(i: nat, ways: nat, sets: nat)
    requires sets > 0 && i < ways * sets
    ensures 0 <= i / sets < ways && i % sets < sets && i / sets * sets + i % sets == i
  {
    if i / sets >= ways {
      MulMonotone(ways, i / sets, sets);
    }
  }

  /** When the ways are no power of two the way field is one bit wider than the shift assumes: the way
      is written one bit too high, and what it loses there is lost. */
  lemma ShiftedTooFar(way: nat, set_: nat, lineLog2: nat, log: nat)
    requires log < 32
    ensures Operand(way, set_, lineLog2, log) == Operand(2 * (way % Pow2(log)), set_, lineLog2, log + 1)
  {
    hide Or, Pow2, Wrap;
    Pow2Values();
    Pow2Add(log, 32 - log);
    Pow2Add(1, 31 - log);
    PowOne();
    WrapField(way, Pow2(log), Pow2(32 - log));
    Doubled(way % Pow2(log), Pow2(31 - log));
    ShlFits(2 * (way % Pow2(log)), 31 - log);
  }

  lemma Doubled(r: nat, m: nat)
    ensures 2 * r * m == r * (2 * m)
  {
  }

  lemma WrapField(way: nat, ways: nat, above: nat)
    requires ways > 0 && ways * above == TWO32
    ensures Wrap(way * above) == way % ways * above < TWO32
  {
    var q, r := way / ways, way % ways;
    MulMonotone(r + 1, ways, above);
    assert way * above == (q * ways + r) * above == q * (ways * above) + r * above;
    DivModUnique(way * above, TWO32, q, r * above);
  }

  predicate Reaches(operand: nat, lineLog2: nat, bits: nat, w: nat, s: nat)
    requires bits <= 32
  {
    DecodeWay(operand, bits) == w && DecodeSet(operand, lineLog2, bits) == s
  }

  /** Some operation of the sweep reaches this way and set. */
  ghost predicate Cleaned(issued: seq<nat>, lineLog2: nat, bits: nat, w: nat, s: nat)
    requires bits <= 32
  {
    exists i :: 0 <= i < |issued| && Reaches(issued[i], lineLog2, bits, w, s)
  }

  /** The way that the operations for way `w` reach. */
  function WayReached(ways: nat, w: nat): nat
    requires w < ways
  {
    var top := Pow2(Log2Of(ways));
    if ways == top then w else 2 * (w % top)
  }

  /** What one operation of the sweep reaches. */
  lemma OperationReaches(g: Geometry, w: nat, s: nat)
    requires g.ways >= 2 && FieldsFit(g, WayBits(g.ways)) && w < g.ways && s < g.sets
    ensures Reaches(Operand(w, s, g.lineLog2, Log2Of(g.ways)), g.lineLog2, WayBits(g.ways), WayReached(g.ways, w), s)
  {
    hide Operand, DecodeWay, DecodeSet, Pow2;
    var log := Log2Of(g.ways);
    if g.ways == Pow2(log) {
      OperandDecodes(g, w, s, log);
    } else {
      ShiftedTooFar(w, s, g.lineLog2, log);
      PowOne();
      Pow2Add(1, log);
      OperandDecodes(g, 2 * (w % Pow2(log)), s, log + 1);
    }
  }

  /** The ways reached are all of them, or the even ones. */
  lemma WaysReached(ways: nat, w: nat)
    requires w < ways
    ensures var all := ways == Pow2(Log2Of(ways));
            && (all || WayReached(ways, w) % 2 == 0)
            && (all || w % 2 == 0 ==> exists v :: 0 <= v < ways && WayReached(ways, v) == w)
  {
    hide Pow2;
    Log2Brackets(ways);
    var top := Pow2(Log2Of(ways));
    if ways == top {
      assert WayReached(ways, w) == w;
    } else if w % 2 == 0 {
      DivModUnique(w / 2, top, 0, w / 2);
      assert WayReached(ways, w / 2) == w;
    }
  }

  lemma IssuedReaches(g: Geometry, issued: seq<nat>, w: nat, s: nat)
    requires g.ways >= 2 && FieldsFit(g, WayBits(g.ways)) && w < g.ways && s < g.sets
    requires |issued| == g.ways * g.sets && Swept(issued, g, g.ways, Log2Of(g.ways))
    ensures Cleaned(issued, g.lineLog2, WayBits(g.ways), WayReached(g.ways, w), s)
  {
    hide Operand, Reaches, Pow2, WayBits, WayReached;
    assert IssuedAt(issued, g, w, s, Log2Of(g.ways));
    OperationReaches(g, w, s);
    assert Reaches(issued[w * g.sets + s], g.lineLog2, WayBits(g.ways), WayReached(g.ways, w), s);
  }

  lemma OnlyIssued(g: Geometry, issued: seq<nat>, w: nat, s: nat) returns (v: nat)
    requires g.ways >= 2 && FieldsFit(g, WayBits(g.ways))
    requires |issued| == g.ways * g.sets && Swept(issued, g, g.ways, Log2Of(g.ways))
    requires Cleaned(issued, g.lineLog2, WayBits(g.ways), w, s)
    ensures v < g.ways && WayReached(g.ways, v) == w
  {
    var bits := WayBits(g.ways);
    assert Log2Of(g.ways) <= bits <= 32;
    hide Operand, Reaches, Pow2, WayBits, WayReached, FieldsFit;
    var i :| 0 <= i < |issued| && Reaches(issued[i], g.lineLog2, bits, w, s);
    NoSets(g, i);
    IndexSplits(i, g.ways, g.sets);
    v := i / g.sets;
    assert IssuedAt(issued, g, v, i % g.sets, Log2Of(g.ways));
    OperationReaches(g, v, i % g.sets);
    OneWay(issued[i], g.lineLog2, bits, w, s);
  }

  lemma NoSets(g: Geometry, i: nat)
    requires i < g.ways * g.sets
    ensures g.sets > 0
  {
  }

  lemma OneWay(operand: nat, lineLog2: nat, bits: nat, w: nat, s: nat)
    requires bits <= 32 && Reaches(operand, lineLog2, bits, w, s)
    ensures forall w', s' :: Reaches(operand, lineLog2, bits, w', s') ==> w' == w && s' == s
  {
  }

  /** A way and set is cleaned exactly when the number of ways is a power of two or the way is even: of
      three ways the sweep cleans the first twice, the last once and the middle one never. */
  lemma CleanedExactly(g: Geometry, issued: seq<nat>, w: nat, s: nat)
    requires g.ways >= 2 && FieldsFit(g, WayBits(g.ways)) && w < g.ways && s < g.sets
    requires |issued| == g.ways * g.sets && Swept(issued, g, g.ways, Log2Of(g.ways))
    ensures Cleaned(issued, g.lineLog2, WayBits(g.ways), w, s) <==> g.ways == Pow2(Log2Of(g.ways)) || w % 2 == 0
  {
    hide Pow2, WayBits, WayReached, Cleaned, Swept;
    WaysReached(g.ways, w);
    if v :| 0 <= v < g.ways && WayReached(g.ways, v) == w {
      IssuedReaches(g, issued, v, s);
    }
    if Cleaned(issued, g.lineLog2, WayBits(g.ways), w, s) {
      var v := OnlyIssued(g, issued, w, s);
      WaysReached(g.ways, v);
    }
  }

  /** So the sweep cleans the whole cache exactly when the number of ways is a power of two. */
  lemma SweepCoversExactly(g: Geometry, issued: seq<nat>)
    requires g.ways >= 2 && g.sets > 0 && FieldsFit(g, WayBits(g.ways))
    requires |issued| == g.ways * g.sets && Swept(issued, g, g.ways, Log2Of(g.ways))
    ensures (forall w: nat, s: nat :: w < g.ways && s < g.sets ==> Cleaned(issued, g.lineLog2, WayBits(g.ways), w, s))
            <==> g.ways == Pow2(Log2Of(g.ways))
  {
    hide Swept, Cleaned, Pow2, WayBits;
    CleanedExactly(g, issued, 1, 0);
    forall w: nat, s: nat | w < g.ways && s < g.sets && g.ways == Pow2(Log2Of(g.ways))
      ensures Cleaned(issued, g.lineLog2, WayBits(g.ways), w, s)
    {
      CleanedExactly(g, issued, w, s);
    }
  }

  /** Three ways and 64-byte lines: the three operations on a set reach ways 0, 2 and 0. */
  lemma ThreeWaysMissOne(s: nat)
    requires s < 0x100_0000
    ensures Log2Of(3) == 1 && WayBits(3) == 2
    ensures Reaches(Operand(0, s, 6, 1), 6, 2, 0, s) && Reaches(Operand(1, s, 6, 1), 6, 2, 2, s)
    ensures Reaches(Operand(2, s, 6, 1), 6, 2, 0, s)
  {
    hide Operand, Reaches;
    PowOne();
    assert Log2Of(3) == 1 + Log2Of(1) && WayBits(3) == 2;
    var g := Geometry(6, 3, 0x100_0000);
    assert FieldsFit(g, 2) by {
      Pow2Step6();
      Pow2Values();
      Pow2Add(6, 24);
      Pow2Add(12, 12);
    }
    OperationReaches(g, 0, s);
    OperationReaches(g, 1, s);
    OperationReaches(g, 2, s);
  }

  // ----- cleaning an address range -----

  /** The lines visited, for a line size of 2^k, whenever the loop ends (see RangeEndsExactly). */
  method CleanRange(va: u32, bytes: u32, k: nat) returns (issued: seq<u32>)
    requires 2 <= k <= 17 && Add32(va, bytes) <= TWO32 - Pow2(k)
    ensures forall a :: a in issued <==> LineVisited(a, va, Add32(va, bytes), Pow2(k))
    ensures forall i, j :: 0 <= i < j < |issued| ==> issued[i] < issued[j]
  {
    hide And, Pow2, Add32;
    Pow2Values();
    var line := Pow2(k);
    LineStart(va, k);
    var addr: u32 := And(va, TWO32 - line);
    var end := Add32(va, bytes);
    ghost var first := addr;
    issued := [];
    while addr < end
      invariant addr % line == 0 && first <= addr && (addr == first || addr < end + line)
      invariant forall a :: a in issued <==> first <= a < addr && a % line == 0
      invariant forall i :: 0 <= i < |issued| ==> issued[i] < addr
      invariant forall i, j :: 0 <= i < j < |issued| ==> issued[i] < issued[j]
    {
      NextLine(addr, line);
      AddrStep(addr, line);
      issued := issued + [addr];
      addr := Add32(addr, line);
    }
    forall a
      ensures a in issued <==> LineVisited(a, va, end, line)
    {
      VisitedMeans(a, va, end, line, first, addr);
    }
  }

  /** A line starting below the end of the range and ending above its start. */
  predicate LineVisited(a: int, va: u32, end: u32, line: nat)
    requires line > 0
  {
    a % line == 0 && a < end && va < a + line
  }

  predicate InBoth(x: int, va: u32, bytes: u32, a: u32, line: nat) {
    va <= x < va + bytes && a <= x < a + line
  }

  /** The line at `a` holds a byte of the range. */
  ghost predicate LineTouched(a: u32, va: u32, bytes: u32, line: nat) {
    exists x :: InBoth(x, va, bytes, a, line)
  }

  ghost predicate VisitsTouched(va: u32, bytes: u32, line: nat)
    requires line > 0
  {
    forall a: u32 :: a % line == 0 ==> (LineVisited(a, va, Add32(va, bytes), line) <==> LineTouched(a, va, bytes, line))
  }

  /** Whenever the loop over a non-empty range ends, it has visited exactly the lines that hold one of its
      bytes if and only if the range does not wrap: a wrapping one misses the topmost line at least. */
  lemma VisitsTouchedExactly(va: u32, bytes: u32, line: nat)
    requires 0 < line < TWO32 && TWO32 % line == 0 && bytes > 0 && Add32(va, bytes) <= TWO32 - line
    ensures VisitsTouched(va, bytes, line) <==> va + bytes < TWO32
  {
    if va + bytes < TWO32 {
      forall a: u32 | a % line == 0
        ensures LineVisited(a, va, Add32(va, bytes), line) <==> LineTouched(a, va, bytes, line)
      {
        TouchedMeans(a, va, bytes, line);
      }
    } else {
      TopLineMissed(va, bytes, line);
    }
  }

  lemma TouchedMeans(a: u32, va: u32, bytes: u32, line: nat)
    requires line > 0 && bytes > 0
    ensures LineTouched(a, va, bytes, line) <==> a < va + bytes && va < a + line
  {
    if a < va + bytes && va < a + line {
      assert InBoth(if a < va then va else a, va, bytes, a, line);
    }
  }

  /** The topmost line holds the last address, which a wrapping range contains. */
  lemma TopLineMissed(va: u32, bytes: u32, line: nat)
    requires 0 < line < TWO32 && TWO32 % line == 0 && Add32(va, bytes) <= TWO32 - line && va + bytes >= TWO32
    ensures (TWO32 - line) % line == 0 && LineTouched(TWO32 - line, va, bytes, line)
    ensures !LineVisited(TWO32 - line, va, Add32(va, bytes), line)
  {
    var q := TWO32 / line;
    assert TWO32 == q * line;
    assert TWO32 - line == (q - 1) * line;
    DivModUnique(TWO32 - line, line, q - 1, 0);
    assert InBoth(TWO32 - 1, va, bytes, TWO32 - line, line);
  }

  /** Of a wrapping range at most the line of its first byte is visited. */
  lemma WrappingVisitsOne(va: u32, bytes: u32, line: nat, a: u32)
    requires line > 0 && va + bytes >= TWO32 && LineVisited(a, va, Add32(va, bytes), line)
    ensures a <= va < a + line
  {
    assert Add32(va, bytes) == va + bytes - TWO32 < va;
  }

  lemma LineStart(va: u32, k: nat)
    requires k <= 31
    ensures Pow2(k) < TWO32
    ensures var a := And(va, TWO32 - Pow2(k));
            a % Pow2(k) == 0 && a <= va < a + Pow2(k)
  {
    hide And, Pow2;
    Pow2Values();
    assert Pow2(k) < TWO32 by { PowBelow(k); }
    AndHigh(va, k, 32);
    RoundDown(va, Pow2(k));
  }

  lemma PowBelow(k: nat)
    requires k <= 31
    ensures Pow2(k) < TWO32
  {
    Pow2Values();
    Pow2Monotone(k + 1, 32);
  }

  lemma AddrStep(a: u32, line: u32)
    ensures a + line < TWO32 ==> Add32(a, line) == a + line
  {
  }

  lemma NextLine(a: nat, line: nat)
    requires line > 0 && a % line == 0
    ensures (a + line) % line == 0
    ensures forall x :: a < x < a + line ==> x % line != 0
  {
    var q := a / line;
    DivModUnique(a + line, line, q + 1, 0);
    forall x | a < x < a + line
      ensures x % line != 0
    {
      DivModUnique(x, line, q, x - a);
    }
  }

  lemma MultiplesApart(a: int, b: int, line: nat)
    requires line > 0 && a % line == 0 && b % line == 0 && a < b
    ensures a + line <= b
  {
    var p, q := a / line, b / line;
    assert a == p * line && b == q * line;
    if p < q {
      MulAtLeast(q - p, line);
      assert (q - p) * line == b - a;
    } else {
      ProductOrder(q, p, line);
    }
  }

  lemma ProductOrder(p: int, q: int, m: nat)
    requires p <= q
    ensures p * m <= q * m
  {
    assert (q - p) * m >= 0;
  }

  lemma VisitedMeans(a: int, va: u32, end: u32, line: nat, first: nat, stop: nat)
    requires line > 0 && first % line == 0 && stop % line == 0 && first <= va < first + line
    requires first <= stop && end <= stop && (stop == first || stop < end + line)
    ensures (first <= a < stop && a % line == 0) <==> LineVisited(a, va, end, line)
  {
    if a % line == 0 {
      if a < stop {
        MultiplesApart(a, stop, line);
      }
      if a < first {
        MultiplesApart(a, first, line);
      }
    }
  }

  /** The n-th address of the loop, in the 32-bit arithmetic it uses. */
  function NthLine(first: u32, line: nat, n: nat): u32 {
    Wrap(first + n * line)
  }

  /** The loop over a range leaves it exactly when the range ends no later than the start of the
      topmost line: past that line the address wraps to zero and the sweep starts over. */
  lemma RangeEndsExactly(first: u32, end: u32, k: nat)
    requires k <= 31 && first % Pow2(k) == 0
    ensures (exists n :: NthLine(first, Pow2(k), n) >= end) <==> end <= TWO32 - Pow2(k)
  {
    hide Pow2, NthLine;
    PowBelow(k);
    if n :| NthLine(first, Pow2(k), n) >= end {
      LineBelowTop(first, k, n);
    }
    if end <= TWO32 - Pow2(k) {
      var n := LineAtTop(first, k);
    }
  }

  /** Cleaning the last sixteen bytes of the address space never ends. */
  lemma TopLineNeverEnds(n: nat)
    ensures NthLine(0xffff_ffc0, 64, n) < Add32(0xffff_ffe0, 0x10)
  {
    hide NthLine, Pow2;
    Pow2Values();
    Pow2Step6();
    RangeEndsExactly(0xffff_ffc0, 0xffff_fff0, 6);
  }

  lemma Pow2Step6()
    ensures Pow2(6) == 64
  {
    Pow2Values();
    Pow2Add(3, 3);
    assert Pow2(3) == 8;
  }

  lemma LineBelowTop(first: u32, k: nat, n: nat)
    requires k <= 31 && first % Pow2(k) == 0
    ensures NthLine(first, Pow2(k), n) <= TWO32 - Pow2(k)
  {
    hide Pow2;
    PowBelow(k);
    Pow2Add(k, 32 - k);
    Pow2Values();
    WrapKeepsMultiple(first, n, Pow2(k), Pow2(32 - k));
    MultiplesApart(NthLine(first, Pow2(k), n), TWO32, Pow2(k));
  }

  lemma WrapKeepsMultiple(first: nat, n: nat, line: nat, lines: nat)
    requires line > 0 && first % line == 0 && line * lines == TWO32
    ensures Wrap(first + n * line) % line == 0 && TWO32 % line == 0
  {
    var q, t := first / line, (first + n * line) / TWO32;
    assert first == q * line;
    assert t * TWO32 == t * lines * line;
    assert Wrap(first + n * line) == (q + n - t * lines) * line;
    DivModUnique(Wrap(first + n * line), line, q + n - t * lines, 0);
    DivModUnique(TWO32, line, lines, 0);
  }

  lemma LineAtTop(first: u32, k: nat) returns (n: nat)
    requires k <= 31 && first % Pow2(k) == 0
    ensures Pow2(k) < TWO32 && NthLine(first, Pow2(k), n) == TWO32 - Pow2(k)
  {
    hide Pow2;
    PowBelow(k);
    Pow2Add(k, 32 - k);
    Pow2Values();
    var line, lines := Pow2(k), Pow2(32 - k);
    var q := first / line;
    assert first == q * line && TWO32 == lines * line;
    if q > lines - 1 {
      MulMonotone(lines, q, line);
    }
    n := lines - 1 - q;
    assert first + n * line == (lines - 1) * line == TWO32 - line;
  }
}
