/** Machine words: 32-bit unsigned integers with the wrap-around of the payload's C code,
    bytes, and little-endian loads. */
module Words {

  const TWO32: int := 0x1_0000_0000
  const UINT32_MAX: u32 := 0xffff_ffff

  type u32 = x: int | 0 <= x < 0x1_0000_0000
  type byte = x: int | 0 <= x < 256

  function Wrap(x: int): u32 {
    x % TWO32
  }

  lemma WrapSum(x: nat, y: nat)
    ensures Wrap(Wrap(x) + y) == Wrap(x + y)
  {
  }

  /** The sum of a C `uint32_t` addition. */
  function Add32(a: u32, b: u32): u32 {
    Wrap(a + b)
  }

  /** Unsigned subtraction, which wraps below zero. */
  function Sub32(a: u32, b: u32): u32 {
    Wrap(a - b)
  }

  function Inc32(a: u32): u32 {
    Wrap(a + 1)
  }

  /** The overflow test compares the wrapped sum with one operand. */
  predicate AddOverflow(a: u32, b: u32): (r: bool)
    ensures r <==> a + b >= TWO32
  {
    Add32(a, b) < a
  }

  /** The overflow test divides instead of multiplying. */
  predicate MulOverflow(a: u32, b: u32): (r: bool)
    ensures r <==> a * b >= TWO32
  {
    MulOverflowMeaning(a, b);
    a != 0 && b > UINT32_MAX / a
  }

  lemma MulOverflowMeaning(a: u32, b: u32)
    ensures (a != 0 && b > UINT32_MAX / a) <==> a * b >= TWO32
  {
    if a != 0 {
      var q := UINT32_MAX / a;
      assert q * a <= UINT32_MAX < (q + 1) * a;
      if b > q {
        assert b * a >= (q + 1) * a;
      } else {
        assert b * a <= q * a;
      }
    }
  }

  /** A little-endian 32-bit load. */
  function Le32(b: seq<byte>, o: nat): u32
    requires o + 4 <= |b|
  {
    (b[o] as int) + 0x100 * (b[o + 1] as int) + 0x1_0000 * (b[o + 2] as int) + 0x100_0000 * (b[o + 3] as int)
  }

  /** The four bytes of a word, least significant first. */
  function Bytes32(v: u32): (r: seq<byte>)
    ensures |r| == 4 && Le32(r, 0) == v
  {
    BytesAddUp(v);
    [v % 0x100, v / 0x100 % 0x100, v / 0x1_0000 % 0x100, v / 0x100_0000]
  }

  lemma BytesAddUp(v: u32)
    ensures v / 0x100_0000 < 0x100
    ensures v % 0x100 + 0x100 * (v / 0x100 % 0x100) + 0x1_0000 * (v / 0x1_0000 % 0x100) +
            0x100_0000 * (v / 0x100_0000) == v
  {
    var a, b := v / 0x100, v / 0x1_0000;
    assert a / 0x100 == b && b / 0x100 == v / 0x100_0000;
    assert v == 0x100 * a + v % 0x100 && a == 0x100 * b + a % 0x100 && b == 0x100 * (b / 0x100) + b % 0x100;
  }

  /** Loads see only the four bytes they name. */
  lemma Le32Frame(a: seq<byte>, i: nat, b: seq<byte>, j: nat)
    requires i + 4 <= |a| && j + 4 <= |b|
    requires a[i..i + 4] == b[j..j + 4]
    ensures Le32(a, i) == Le32(b, j)
  {
    assert a[i] == a[i..i + 4][0] == b[j];
    assert a[i + 1] == a[i..i + 4][1] == b[j + 1];
    assert a[i + 2] == a[i..i + 4][2] == b[j + 2];
    assert a[i + 3] == a[i..i + 4][3] == b[j + 3];
  }

  /** These bytes stand at this place. */
  predicate At(b: seq<byte>, p: nat, bytes: seq<byte>) {
    p + |bytes| <= |b| && b[p..p + |bytes|] == bytes
  }

  lemma AtSplits(b: seq<byte>, p: nat, x: seq<byte>, y: seq<byte>)
    ensures At(b, p, x + y) <==> At(b, p, x) && At(b, p + |x|, y)
  {
    if At(b, p, x + y) {
      assert b[p..p + |x|] == (x + y)[..|x|];
      assert b[p + |x|..p + |x| + |y|] == (x + y)[|x|..];
    }
    if At(b, p, x) && At(b, p + |x|, y) {
      assert b[p..p + |x| + |y|] == b[p..p + |x|] + b[p + |x|..p + |x| + |y|];
    }
  }

  lemma AtIs(b: seq<byte>, p: nat, bytes: seq<byte>)
    requires At(b, p, bytes)
    ensures p + |bytes| <= |b| && b[p..p + |bytes|] == bytes
  {
  }

  lemma WordAt(b: seq<byte>, p: nat, v: u32)
    requires At(b, p, Bytes32(v))
    ensures p + 4 <= |b| && Le32(b, p) == v
  {
    hide Le32, Bytes32;
    assert Bytes32(v)[0..4] == Bytes32(v);
    Le32Frame(b, p, Bytes32(v), 0);
  }
}
