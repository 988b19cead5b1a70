/** Flag words. */
module Masks {

  /** Setting flags in a flag word. */
  function Raise(mask: bv32, flags: bv32): bv32 {
    mask | flags
  }

  /** Some of the flags is set. */
  predicate Has(mask: bv32, flags: bv32) {
    mask & flags != 0
  }

  /** All of the flags are set. */
  predicate HasAll(mask: bv32, flags: bv32) {
    mask & flags == flags
  }

  function Flag(wrong: bool, bit: bv32): bv32 {
    if wrong then bit else 0
  }

  /** `x` without the flags. */
  function Without(x: bv32, flags: bv32): bv32 {
    x & !flags
  }

  lemma RaiseNothing(m: bv32, x: bv32)
    ensures Raise(m, x) == 0 <==> m == 0 && x == 0
  {
  }

  lemma RaiseHas(m: bv32, x: bv32, flags: bv32)
    ensures Has(Raise(m, x), flags) <==> Has(m, flags) || Has(x, flags)
  {
    hide Has;
    OrHas(m, x, flags);
  }

  lemma OrHas(m: bv32, x: bv32, flags: bv32)
    ensures Has(m | x, flags) <==> Has(m, flags) || Has(x, flags)
  {
    if Has(m, flags) {
      OrSetsLeft(m, x, flags);
    } else if Has(x, flags) {
      OrSetsRight(m, x, flags);
    } else {
      OrSetsNothing(m, x, flags);
    }
  }

  lemma OrSetsLeft(m: bv32, x: bv32, flags: bv32)
    requires m & flags != 0
    ensures (m | x) & flags != 0
  {
  }

  lemma OrSetsRight(m: bv32, x: bv32, flags: bv32)
    requires x & flags != 0
    ensures (m | x) & flags != 0
  {
  }

  lemma OrSetsNothing(m: bv32, x: bv32, flags: bv32)
    requires m & flags == 0 && x & flags == 0
    ensures (m | x) & flags == 0
  {
  }

  lemma OrKeeps(m: bv32, x: bv32, flags: bv32)
    requires m & flags == flags || x & flags == flags
    ensures (m | x) & flags == flags
  {
    if m & flags == flags {
      OrKeepsLeft(m, x, flags);
    } else {
      OrKeepsLeft(x, m, flags);
      OrCommutes(m, x);
    }
  }

  lemma OrKeepsLeft(m: bv32, x: bv32, flags: bv32)
    requires m & flags == flags
    ensures (m | x) & flags == flags
  {
  }

  lemma OrCommutes(m: bv32, x: bv32)
    ensures m | x == x | m
  {
  }

  lemma RaiseNone(m: bv32)
    ensures Raise(m, 0) == m
  {
  }

  lemma RaiseJoins(m: bv32, x: bv32, y: bv32)
    ensures Raise(Raise(m, x), y) == Raise(m, Raise(x, y))
  {
  }

  /** Raising a bit under a condition, before or after it is made a flag. */
  lemma RaiseIf(m: bv32, c: bool, bit: bv32)
    ensures (if c then Raise(m, bit) else m) == Raise(m, Flag(c, bit))
  {
    RaiseNone(m);
  }

  /** Raising bits one after another is raising them together. */
  lemma RaiseSix(m: bv32, a: bv32, b: bv32, c: bv32, d: bv32, e: bv32, f: bv32)
    ensures Raise(Raise(Raise(Raise(Raise(Raise(m, a), b), c), d), e), f) ==
            Raise(m, Raise(Raise(Raise(Raise(Raise(a, b), c), d), e), f))
  {
    hide Raise;
    RaiseJoins(m, a, b);
    RaiseJoins(m, Raise(a, b), c);
    RaiseJoins(m, Raise(Raise(a, b), c), d);
    RaiseJoins(m, Raise(Raise(Raise(a, b), c), d), e);
    RaiseJoins(m, Raise(Raise(Raise(Raise(a, b), c), d), e), f);
  }

  lemma RaiseTwice(m: bv32, x: bv32)
    ensures Raise(Raise(m, x), x) == Raise(m, x)
  {
  }

  /** Flags outside a set are not changed by raising flags of it. */
  lemma WithoutRaised(m: bv32, x: bv32, flags: bv32)
    requires Without(x, flags) == 0
    ensures Without(Raise(m, x), flags) == Without(m, flags)
  {
  }

  lemma RaiseSwaps(m: bv32, x: bv32, y: bv32)
    ensures Raise(Raise(m, x), y) == Raise(Raise(m, y), x)
  {
    RaiseJoins(m, x, y);
    RaiseJoins(m, y, x);
    RaiseCommutes(x, y);
    hide Raise;
  }

  lemma RaiseCommutes(m: bv32, x: bv32)
    ensures Raise(m, x) == Raise(x, m)
  {
  }

  lemma FlagsJoin(m: bv32, a: bool, b: bool, bit: bv32)
    ensures Raise(Raise(m, Flag(a, bit)), Flag(b, bit)) == Raise(m, Flag(a || b, bit))
  {
    hide Raise;
    RaiseNone(m);
    RaiseNone(Raise(m, bit));
    RaiseTwice(m, bit);
  }
}
