/** Conversions between ticks of the 19.2 MHz counter and microseconds, and the polling delay. */
module Timebase {
  import opened Words
  import opened Bits

  /** The low 32 bits of a 64-bit difference. */
  function Delta(start: nat, end: nat): u32 {
    Wrap(end - start)
  }

  /** delta * 5 / 96 with the product split at the divisor; every step is a 32-bit operation. */
  function DeltaToUs(delta: u32): u32 {
    var q, r := delta / 96, delta % 96;
    Add32(Wrap(q * 5), Wrap(r * 5) / 96)
  }

  function ElapsedUs(start: nat, end: nat): u32 {
    DeltaToUs(Delta(start, end))
  }

  function UsecToTicks(usec: u32): u32 {
    var q, r := usec / 5, usec % 5;
    Add32(Wrap(q * 96), Wrap(r * 96) / 5)
  }

  /** Exact for all 2^32 deltas: no intermediate result wraps. */
  lemma DeltaToUsExact(delta: u32)
    ensures DeltaToUs(delta) == 5 * delta / 96
    ensures delta / 96 * 5 < TWO32 && delta % 96 * 5 < TWO32 && delta / 96 * 5 + delta % 96 * 5 / 96 < TWO32
  {
    var q, r := delta / 96, delta % 96;
    SplitQuotient(q, r, 96, 5);
    assert Wrap(q * 5) == q * 5 && Wrap(r * 5) == r * 5;
  }

  /** On a clock that does not run backwards the elapsed time is the exact quotient precisely while the
      difference fits a word. */
  lemma ElapsedUsExact(start: nat, end: nat)
    requires start <= end
    ensures ElapsedUs(start, end) == 5 * (end - start) / 96 <==> end - start < TWO32
  {
    DeltaToUsExact(Delta(start, end));
    WrapBelow(end - start);
    if end - start >= TWO32 {
      assert Delta(start, end) <= end - start - TWO32 by { WrapFar(end - start); }
    }
  }

  lemma WrapFar(d: nat)
    requires d >= TWO32
    ensures Wrap(d) <= d - TWO32
  {
  }

  /** Splitting at the divisor: (d*q + r) * c / d is c*q plus r * c / d. */
  lemma SplitQuotient(q: nat, r: nat, d: nat, c: nat)
    requires d > 0
    ensures (d * q + r) * c / d == q * c + r * c / d
    ensures (d * q + r) * c % d == r * c % d
  {
    var s := r * c;
    assert (d * q + r) * c == (q * c + s / d) * d + s % d by {
      assert s == s / d * d + s % d;
      assert (d * q + r) * c == d * q * c + r * c;
      assert (q * c + s / d) * d == q * c * d + s / d * d;
    }
    DivModUnique((d * q + r) * c, d, q * c + s / d, s % d);
  }

  /** The conversion back is the exact quotient reduced to 32 bits, so it is the exact quotient for
      precisely the intervals whose tick count a word can hold. */
  lemma UsecToTicksExact(usec: u32)
    ensures UsecToTicks(usec) == Wrap(96 * usec / 5)
    ensures UsecToTicks(usec) == 96 * usec / 5 <==> usec <= 223_696_213
  {
    var q, r := usec / 5, usec % 5;
    assert 96 * usec / 5 == q * 96 + r * 96 / 5 && UsecToTicks(usec) == Wrap(96 * usec / 5) by {
      SplitQuotient(q, r, 5, 96);
      assert (5 * q + r) * 96 == 96 * usec;
      WrapSum(q * 96, r * 96 / 5);
      assert Wrap(r * 96) == r * 96;
    }
    BelowWord(usec);
  }

  /** One microsecond more, about 3.7 minutes, becomes twelve ticks. */
  lemma TicksWrapJustAbove()
    ensures UsecToTicks(223_696_214) == 12
  {
    UsecToTicksExact(223_696_214);
    assert 96 * 223_696_214 / 5 == TWO32 + 12;
  }

  lemma BelowWord(usec: u32)
    ensures Wrap(96 * usec / 5) == 96 * usec / 5 <==> usec <= 223_696_213
  {
    assert 96 * usec / 5 < TWO32 <==> usec <= 223_696_213;
  }

  /** Converting an interval to ticks and back loses one microsecond unless five divides it. */
  lemma ThereAndBack(usec: u32)
    requires 0 < usec <= 223_696_213
    ensures DeltaToUs(UsecToTicks(usec)) == if usec % 5 == 0 then usec else usec - 1
  {
    hide UsecToTicks, DeltaToUs, Wrap;
    UsecToTicksExact(usec);
    var t := 96 * usec / 5;
    DeltaToUsExact(t);
    RoundTripRemainder(usec);
    var s := usec % 5;
    if s == 0 {
      DivModUnique(5 * t, 96, usec, 0);
    } else {
      DivModUnique(5 * t, 96, usec - 1, 96 - s);
    }
  }

  lemma RoundTripRemainder(usec: nat)
    ensures 5 * (96 * usec / 5) == 96 * usec - usec % 5
  {
    var q, r := usec / 5, usec % 5;
    SplitQuotient(q, r, 5, 96);
    assert r * 96 / 5 * 5 == r * 96 - r;
  }

  // ----- the polling delay -----

  /** The delay loop over the counter values its polls return: the first is the start, and the loop
      ends at the first later one that is far enough, or runs on. */
  method DelayUs(usec: u32, readings: seq<nat>) returns (exit: nat)
    requires |readings| > 0
    ensures 1 <= exit <= |readings|
    ensures forall k :: 1 <= k < exit ==> Delta(readings[0], readings[k]) < UsecToTicks(usec)
    ensures exit < |readings| ==> Delta(readings[0], readings[exit]) >= UsecToTicks(usec)
  {
    hide UsecToTicks, Delta;
    var target := UsecToTicks(usec);
    exit := 1;
    while exit < |readings| && Delta(readings[0], readings[exit]) < target
      invariant 1 <= exit <= |readings|
      invariant forall k :: 1 <= k < exit ==> Delta(readings[0], readings[k]) < target
    {
      exit := exit + 1;
    }
  }

  predicate Monotone(readings: seq<nat>) {
    forall i, j :: 0 <= i <= j < |readings| ==> readings[i] <= readings[j]
  }

  /** Consecutive polls are closer than the part of the word the target leaves free. */
  predicate PolledOften(readings: seq<nat>, target: u32) {
    forall i :: 0 < i < |readings| ==> readings[i] - readings[i - 1] <= TWO32 - target
  }

  predicate DelayLeftAt(readings: seq<nat>, target: u32, exit: nat) {
    && 1 <= exit <= |readings|
    && (forall k :: 1 <= k < exit ==> Delta(readings[0], readings[k]) < target)
    && (exit < |readings| ==> Delta(readings[0], readings[exit]) >= target)
  }

  /** On a monotone clock the loop never ends early. */
  lemma DelayNeverEarly(readings: seq<nat>, target: u32, exit: nat)
    requires Monotone(readings) && DelayLeftAt(readings, target, exit) && exit < |readings|
    ensures readings[exit] - readings[0] >= target
  {
    WrapBelow(readings[exit] - readings[0]);
  }

  lemma WrapBelow(d: nat)
    ensures Wrap(d) <= d && (d < TWO32 ==> Wrap(d) == d)
  {
  }

  /** Polled often enough, it ends at the very first poll that has reached the target. */
  lemma {:induction false} DelayOnTime(readings: seq<nat>, target: u32, exit: nat, k: nat)
    requires Monotone(readings) && PolledOften(readings, target) && DelayLeftAt(readings, target, exit)
    requires target > 0 && k < exit
    ensures readings[k] - readings[0] < target
    decreases k
  {
    if k > 0 {
      DelayOnTime(readings, target, exit, k - 1);
      assert readings[k] - readings[k - 1] <= TWO32 - target;
      WrapBelow(readings[k] - readings[0]);
    }
  }
}
