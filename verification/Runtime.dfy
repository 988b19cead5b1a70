/** The freestanding runtime the loader and the device-tree code call. */
module Runtime {
  import opened Words
  import opened Bits

  /** Overwriting part of a buffer, as a value. */
  function Blit(a: seq<byte>, off: nat, s: seq<byte>): (r: seq<byte>)
    requires off + |s| <= |a|
    ensures |r| == |a|
    ensures forall k :: 0 <= k < |a| ==> r[k] == if off <= k < off + |s| then s[k - off] else a[k]
  {
    a[..off] + s + a[off + |s|..]
  }

  function Fill(c: byte, n: nat): (r: seq<byte>)
    ensures |r| == n && forall k :: 0 <= k < n ==> r[k] == c
  {
    seq(n, _ => c)
  }

  function Zeros(n: nat): (r: seq<byte>)
    ensures |r| == n && forall k :: 0 <= k < n ==> r[k] == 0
  {
    Fill(0, n)
  }

  /** Byte-wise fill of `n` bytes starting at `off`; everything else is kept. */
  method MemSet(dst: array<byte>, off: nat, c: byte, n: nat)
    requires off + n <= dst.Length
    modifies dst
    ensures dst[..] == Blit(old(dst[..]), off, Fill(c, n))
  {
    var i := 0;
    while i < n
      invariant 0 <= i <= n
      invariant forall k :: 0 <= k < dst.Length && !(off <= k < off + i) ==> dst[k] == old(dst[k])
      invariant forall k :: off <= k < off + i ==> dst[k] == c
    {
      dst[off + i] := c;
      i := i + 1;
    }
  }

  /** Byte-wise copy of bytes that lie outside the destination. */
  method MemCpy(dst: array<byte>, off: nat, src: seq<byte>)
    requires off + |src| <= dst.Length
    modifies dst
    ensures dst[..] == Blit(old(dst[..]), off, src)
  {
    var i := 0;
    while i < |src|
      invariant 0 <= i <= |src|
      invariant forall k :: 0 <= k < dst.Length && !(off <= k < off + i) ==> dst[k] == old(dst[k])
      invariant forall k :: 0 <= k < i ==> dst[off + k] == src[k]
    {
      dst[off + i] := src[i];
      i := i + 1;
    }
  }

  /** Rounding up to a multiple of four, with the 32-bit wrap of `v + 3`. */
  function Align4(v: u32): (r: u32)
    ensures if v <= 0xffff_fffc then v <= r < v + 4 && r % 4 == 0 else r == 0
  {
    Mask4(Add32(v, 3));
    RoundUp4(v);
    And(Add32(v, 3), 0xffff_fffc)
  }

  lemma RoundUp4(v: u32)
    ensures var r := Add32(v, 3) - Add32(v, 3) % 4;
            if v <= 0xffff_fffc then v <= r < v + 4 && r % 4 == 0 else r == 0
  {
  }

  lemma Mask4(x: u32)
    ensures And(x, 0xffff_fffc) == x - x % 4
  {
    hide And;
    Pow2Values();
    AndHigh(x, 2, 32);
  }

  datatype Aligned = Aligned(value: u32) | Unaligned(out: u32)

  /** Checked rounding up to a power of two: refused when the alignment is not a power of two or
      the addition wraps. */
  function AlignUpChecked(value: u32, alignment: u32): Aligned {
    if alignment == 0 || And(alignment, alignment - 1) != 0 then Unaligned(value)
    else if AddOverflow(value, alignment - 1) then Unaligned(0)
    else Aligned(And(Add32(value, alignment - 1), TWO32 - alignment))
  }

  /** For a power of two the result is the least multiple of it that is not below the value, and
      the only refusal is a result that needs more than 32 bits. */
  lemma AlignUpMeaning(value: u32, k: nat)
    requires k < 32
    ensures Pow2(k) < TWO32
    ensures var r := AlignUpChecked(value, Pow2(k));
            if value + Pow2(k) - 1 < TWO32
            then r.Aligned? && r.value % Pow2(k) == 0 && value <= r.value < value + Pow2(k)
            else r == Unaligned(0)
  {
    hide And, AlignUpChecked;
    Pow2Values();
    Pow2Monotone(k + 1, 32);
    PowerOfTwoTest(Pow2(k));
    AlignUpByMask(value, Pow2(k));
    if value + Pow2(k) - 1 < TWO32 {
      MaskRoundsUp(value, k);
    }
  }

  lemma MaskRoundsUp(value: u32, k: nat)
    requires k <= 32 && value + Pow2(k) - 1 < TWO32
    ensures var y := And(value + Pow2(k) - 1, TWO32 - Pow2(k));
            y % Pow2(k) == 0 && value <= y < value + Pow2(k)
  {
    hide And;
    Pow2Values();
    var x := value + Pow2(k) - 1;
    AndHigh(x, k, 32);
    RoundDown(x, Pow2(k));
  }

  lemma AlignUpByMask(value: u32, m: u32)
    requires m > 0 && And(m, m - 1) == 0
    ensures AlignUpChecked(value, m) ==
            if value + m - 1 < TWO32 then Aligned(And(value + m - 1, TWO32 - m)) else Unaligned(0)
  {
    hide And;
  }

  lemma RoundDown(x: nat, m: nat)
    requires m > 0
    ensures (x - x % m) % m == 0 && x - m < x - x % m <= x
  {
    assert x == x / m * m + x % m;
    DivModUnique(x - x % m, m, x / m, 0);
  }

  function AlignUp(value: u32, alignment: u32): u32 {
    match AlignUpChecked(value, alignment)
    case Aligned(v) => v
    case Unaligned(_) => 0
  }
}
