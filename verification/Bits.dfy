/** Bit masks as numbers: bit 0 is the least significant, and testing bit `i` drops `i` bits first. */
module Bits {

  function Pow2(n: nat): (r: nat)
    ensures r > 0
  {
    if n == 0 then 1 else 2 * Pow2(n - 1)
  }

  function MaskOf(bits: seq<bool>): (r: nat)
    ensures r < Pow2(|bits|)
  {
    if bits == [] then 0 else (if bits[0] then 1 else 0) + 2 * MaskOf(bits[1..])
  }

  predicate Bit(mask: nat, i: nat)
    decreases i
  {
    if i == 0 then mask % 2 == 1 else Bit(mask / 2, i - 1)
  }

  /** The bits of a mask are the bits it was made from, and none beyond them. */
  lemma {:induction false} MaskBit(bits: seq<bool>, i: nat)
    ensures Bit(MaskOf(bits), i) == (i < |bits| && bits[i])
  {
    if bits == [] {
      ZeroBit(i);
    } else if i > 0 {
      MaskBit(bits[1..], i - 1);
    }
  }

  lemma {:induction false} ZeroBit(i: nat)
    ensures !Bit(0, i)
  {
    if i > 0 {
      ZeroBit(i - 1);
    }
  }

  /** A mask is zero exactly when no bit is set. */
  lemma {:induction false} MaskZero(bits: seq<bool>)
    ensures MaskOf(bits) == 0 <==> forall i :: 0 <= i < |bits| ==> !bits[i]
  {
    if bits != [] {
      MaskZero(bits[1..]);
      assert forall i :: 0 < i < |bits| ==> bits[i] == bits[1..][i - 1];
    }
  }

  /** Setting one more bit above the ones already set adds its power of two. */
  lemma {:induction false} MaskAppend(bits: seq<bool>, b: bool)
    ensures MaskOf(bits + [b]) == MaskOf(bits) + if b then Pow2(|bits|) else 0
  {
    if bits == [] {
      assert bits + [b] == [b];
      assert [b][1..] == [];
    } else {
      MaskAppend(bits[1..], b);
      assert (bits + [b])[1..] == bits[1..] + [b];
    }
  }

  lemma {:induction false} Pow2Monotone(a: nat, b: nat)
    requires a <= b
    ensures Pow2(a) <= Pow2(b)
  {
    if a < b {
      Pow2Monotone(a, b - 1);
    }
  }

  lemma Pow2Digit(n: nat)
    ensures Pow2(n + 4) == 0x10 * Pow2(n)
  {
    assert Pow2(n + 4) == 2 * Pow2(n + 3) && Pow2(n + 3) == 2 * Pow2(n + 2) && Pow2(n + 2) == 2 * Pow2(n + 1);
  }

  lemma Pow2FourDigits(n: nat)
    ensures Pow2(n + 16) == 0x1_0000 * Pow2(n)
  {
    Pow2Digit(n);
    Pow2Digit(n + 4);
    Pow2Digit(n + 8);
    Pow2Digit(n + 12);
  }

  lemma Pow2EightDigits(n: nat)
    ensures Pow2(n + 32) == 0x1_0000_0000 * Pow2(n)
  {
    Pow2FourDigits(n);
    Pow2FourDigits(n + 16);
  }

  lemma Pow2SixteenDigits(n: nat)
    ensures Pow2(n + 64) == 0x1_0000_0000_0000_0000 * Pow2(n)
  {
    Pow2EightDigits(n);
    Pow2EightDigits(n + 32);
  }

  /** At most 64 bits make a u64 mask. */
  lemma MaskFitsU64(bits: seq<bool>, spare: nat)
    requires |bits| + spare == 64
    ensures MaskOf(bits) <= 0xFFFF_FFFF_FFFF_FFFF
  {
    Pow2Monotone(|bits|, |bits| + spare);
    Pow2SixteenDigits(|bits| + spare - 64);
  }

  /** The `width` lowest bits of `n`, least significant first. */
  function BitsOf(n: nat, width: nat): (r: seq<bool>)
    ensures |r| == width
  {
    seq(width, i requires 0 <= i < width => Bit(n, i))
  }

  /** A number below 2^width is the mask of its bits, so its bits determine it. */
  lemma {:induction false} MaskOfBits(n: nat, width: nat)
    requires n < Pow2(width)
    ensures MaskOf(BitsOf(n, width)) == n
  {
    if width > 0 {
      MaskOfBits(n / 2, width - 1);
      assert BitsOf(n, width)[1..] == BitsOf(n / 2, width - 1);
    }
  }

  lemma MaskInjective(a: seq<bool>, b: seq<bool>)
    requires |a| == |b| && MaskOf(a) == MaskOf(b)
    ensures a == b
  {
    forall i | 0 <= i < |a|
      ensures a[i] == b[i]
    {
      MaskBit(a, i);
      MaskBit(b, i);
    }
  }

  /** Bits four places up are the bits of the number without its low hexadecimal digit. */
  lemma BitAboveDigit(n: nat, i: nat)
    ensures Bit(n, i + 4) == Bit(n / 0x10, i)
  {
    assert n / 2 / 2 / 2 / 2 == n / 0x10;
    assert Bit(n, i + 4) == Bit(n / 2, i + 3);
    assert Bit(n / 2, i + 3) == Bit(n / 2 / 2, i + 2);
    assert Bit(n / 2 / 2, i + 2) == Bit(n / 2 / 2 / 2, i + 1);
  }
}
