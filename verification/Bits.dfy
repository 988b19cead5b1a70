/** Bitwise operations on naturals, and what they mean arithmetically on the masks and fields
    the payload uses. */
module Bits {

  function Pow2(k: nat): (r: nat)
    ensures r > 0
  {
    if k == 0 then 1 else 2 * Pow2(k - 1)
  }

  function And(a: nat, b: nat): (r: nat)
    ensures r <= a && r <= b
  {
    if a == 0 || b == 0 then 0
    else 2 * And(a / 2, b / 2) + (if a % 2 == 1 && b % 2 == 1 then 1 else 0)
  }

  function Or(a: nat, b: nat): nat {
    if a == 0 then b
    else if b == 0 then a
    else 2 * Or(a / 2, b / 2) + (if a % 2 == 1 || b % 2 == 1 then 1 else 0)
  }

  lemma {:induction false} Pow2Add(j: nat, k: nat)
    ensures Pow2(j + k) == Pow2(j) * Pow2(k)
  {
    if j > 0 {
      Pow2Add(j - 1, k);
      assert Pow2(j + k) == 2 * Pow2(j - 1 + k);
    }
  }

  lemma {:induction false} Pow2Monotone(j: nat, k: nat)
    requires j <= k
    ensures Pow2(j) <= Pow2(k)
  {
    if j < k {
      Pow2Monotone(j, k - 1);
    }
  }

  function Quot(a: nat, m: nat): (r: nat)
    requires m > 0
  {
    a / m
  }

  /** The powers the payload's masks and alignments are made of. */
  lemma Pow2Values()
    ensures Pow2(2) == 4 && Pow2(10) == 0x400 && Pow2(12) == 0x1000 && Pow2(14) == 0x4000
    ensures Pow2(20) == 0x10_0000 && Pow2(32) == 0x1_0000_0000
  {
    assert Pow2(2) == 2 * Pow2(1);
    Pow2Add(2, 2);
    Pow2Add(4, 4);
    Pow2Add(8, 2);
    Pow2Add(10, 2);
    Pow2Add(12, 2);
    Pow2Add(10, 10);
    Pow2Add(20, 12);
  }

  /** Halving a quotient's dividend: the low bit stays with the remainder. */
  lemma ModHalf(x: nat, m: nat)
    requires m > 0
    ensures x % (2 * m) == 2 * (x / 2 % m) + x % 2
    ensures x / (2 * m) == x / 2 / m
  {
    var q, r := x / 2 / m, x / 2 % m;
    assert x / 2 == q * m + r;
    assert x == q * (2 * m) + (2 * r + x % 2);
    assert 2 * r + x % 2 < 2 * m;
    DivModUnique(x, 2 * m, q, 2 * r + x % 2);
  }

  lemma DivModUnique(x: int, d: int, q: int, r: int)
    requires d > 0 && 0 <= r < d && x == q * d + r
    ensures x / d == q && x % d == r
  {
    var q', r' := x / d, x % d;
    assert x == q' * d + r';
    assert (q' - q) * d == r - r';
    if q' - q >= 1 {
      MulAtLeast(q' - q, d);
    }
    if q - q' >= 1 {
      MulAtLeast(q - q', d);
    }
  }

  lemma MulAtLeast(n: int, d: int)
    requires n >= 1 && d > 0
    ensures n * d >= d
  {
  }

  /** A field placed above the other operand's top bit is simply added. */
  lemma {:induction false} OrDisjoint(a: nat, b: nat, k: nat)
    requires a % Pow2(k) == 0 && b < Pow2(k)
    ensures Or(a, b) == a + b
  {
    if a != 0 && b != 0 {
      assert k > 0;
      ModHalf(a, Pow2(k - 1));
      OrDisjoint(a / 2, b / 2, k - 1);
    }
  }

  lemma AndStep(x: nat, n: nat, odd: nat)
    requires odd < 2
    ensures And(x, 2 * n + odd) == 2 * And(x / 2, n) + (if odd == 1 then x % 2 else 0)
  {
    assert (2 * n + odd) / 2 == n;
    assert (2 * n + odd) % 2 == odd;
  }

  lemma KeepLowStep(x: nat, m: nat, m2: nat)
    requires m > 0 && m2 == 2 * m && And(x / 2, m - 1) == x / 2 % m
    ensures And(x, m2 - 1) == x % m2
  {
    hide And;
    ModHalf(x, m);
    AndStep(x, m - 1, 1);
  }

  lemma ClearLowStep(x: nat, m: nat, n: nat, m2: nat, n2: nat)
    requires 0 < m <= n && m2 == 2 * m && n2 == 2 * n && And(x / 2, n - m) == x / 2 - x / 2 % m
    ensures And(x, n2 - m2) == x - x % m2
  {
    hide And;
    ModHalf(x, m);
    AndStep(x, n - m, 0);
  }

  /** A mask of k ones keeps the remainder modulo 2^k. */
  lemma {:induction false} AndLow(x: nat, k: nat)
    ensures And(x, Pow2(k) - 1) == x % Pow2(k)
  {
    if k > 0 {
      AndLow(x / 2, k - 1);
      KeepLowStep(x, Pow2(k - 1), Pow2(k));
    }
  }

  /** A mask of ones from bit k up to bit w clears the remainder modulo 2^k. */
  lemma {:induction false} AndHigh(x: nat, k: nat, w: nat)
    requires k <= w && x < Pow2(w)
    ensures Pow2(k) <= Pow2(w)
    ensures And(x, Pow2(w) - Pow2(k)) == x - x % Pow2(k)
  {
    hide And, Pow2;
    Pow2Monotone(k, w);
    Pow2Step(k);
    Pow2Step(w);
    if k == 0 {
      AndAll(x, w);
      ModOne(x, Pow2(k));
    } else {
      HalfBelow(x, Pow2(w - 1), Pow2(w));
      Pow2Monotone(k - 1, w - 1);
      AndHigh(x / 2, k - 1, w - 1);
      ClearLowStep(x, Pow2(k - 1), Pow2(w - 1), Pow2(k), Pow2(w));
    }
  }

  lemma ModOne(x: nat, m: nat)
    requires m == 1
    ensures x % m == 0
  {
  }

  lemma HalfBelow(x: nat, n: nat, n2: nat)
    requires x < n2 == 2 * n
    ensures x / 2 < n
  {
  }

  lemma Pow2Step(k: nat)
    ensures Pow2(0) == 1
    ensures k > 0 ==> Pow2(k) == 2 * Pow2(k - 1)
  {
  }

  lemma AndAll(x: nat, w: nat)
    requires x < Pow2(w)
    ensures And(x, Pow2(w) - 1) == x
  {
    hide And, Pow2;
    AndLow(x, w);
    ModSmall(x, Pow2(w));
  }

  lemma ModSmall(x: nat, m: nat)
    requires x < m
    ensures x % m == x
  {
  }

  /** The source's power-of-two test: clearing the lowest set bit leaves nothing. */
  lemma {:induction false} PowerOfTwoTest(a: nat)
    requires a > 0
    ensures And(a, a - 1) == 0 <==> exists k: nat :: a == Pow2(k)
  {
    if a == 1 {
      assert a == Pow2(0);
    } else if a % 2 == 0 {
      PowerOfTwoTest(a / 2);
      EvenPower(a);
      assert (a - 1) / 2 == a / 2 - 1;
    } else {
      assert And(a, a - 1) == 2 * And(a / 2, a / 2);
      AndSelf(a / 2);
      OddIsNoPower(a);
    }
  }

  lemma EvenPower(a: nat)
    requires a > 0 && a % 2 == 0
    ensures (exists k: nat :: a == Pow2(k)) <==> exists k: nat :: a / 2 == Pow2(k)
  {
    if k: nat :| a / 2 == Pow2(k) {
      assert a == Pow2(k + 1);
    }
    if k: nat :| a == Pow2(k) {
      assert a / 2 == Pow2(k - 1);
    }
  }

  lemma OddIsNoPower(a: nat)
    requires a > 1 && a % 2 == 1
    ensures !exists k: nat :: a == Pow2(k)
  {
    forall k: nat
      ensures a != Pow2(k)
    {
      Pow2Step(k);
    }
  }

  lemma {:induction false} AndSelf(a: nat)
    ensures And(a, a) == a
  {
    if a != 0 {
      AndSelf(a / 2);
    }
  }

  lemma {:induction false} OrBelow(a: nat, b: nat, k: nat)
    requires a < Pow2(k) && b < Pow2(k)
    ensures Or(a, b) < Pow2(k)
    decreases k
  {
    if a != 0 && b != 0 {
      OrBelow(a / 2, b / 2, k - 1);
    }
  }

  lemma {:induction false} OrSelf(a: nat)
    ensures Or(a, a) == a
  {
    if a != 0 {
      OrSelf(a / 2);
    }
  }

  lemma OrZero(a: nat)
    ensures Or(0, a) == a && Or(a, 0) == a
  {
  }
}
