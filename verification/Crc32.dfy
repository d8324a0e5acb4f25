/**
 The CRC-32 of section 8 of RFC 1952, computed bit by bit as the Hub framing does, and
 why it catches every alteration confined to four consecutive bytes. The register is the
 32 bits of the word, least significant first.
 */
module Crc32 {
  import opened Wire
  import opened Sequences
  import opened Bits

  type Register = r: seq<bool> | |r| == 32 witness seq(32, _ => false)

  const POLYNOMIAL: nat := 0xEDB8_8320

  function Poly(): Register { BitsOf(POLYNOMIAL, 32) }

  function Ones(): Register { seq(32, _ => true) }

  function Xor(a: Register, b: Register): (r: Register)
    ensures forall i :: 0 <= i < 32 ==> r[i] == (a[i] != b[i])
  {
    seq(32, i requires 0 <= i < 32 => a[i] != b[i])
  }

  /** `crc >> 1`. */
  function Halve(r: Register): Register { r[1..] + [false] }

  /** One bit of the division: shift right, and add the polynomial if a one fell out. */
  function Shift(r: Register): Register {
    if r[0] then Xor(Poly(), Halve(r)) else Halve(r)
  }

  function ShiftN(r: Register, n: nat): Register {
    if n == 0 then r else Shift(ShiftN(r, n - 1))
  }

  function StepByte(r: Register, b: byte): Register {
    ShiftN(Xor(r, BitsOf(b, 32)), 8)
  }

  function Update(r: Register, bytes: seq<byte>): Register {
    if bytes == [] then r else StepByte(Update(r, bytes[..|bytes| - 1]), bytes[|bytes| - 1])
  }

  function Checksum(bytes: seq<byte>): u32 {
    Pow2Of32();
    MaskOf(Xor(Update(Ones(), bytes), Ones()))
  }

  lemma Pow2Of32()
    ensures Pow2(32) == 0x1_0000_0000 && Pow2(8) == 0x100
  {
    assert Pow2(8) == 0x100;
    assert Pow2(16) == 0x1_0000;
    assert Pow2(24) == 0x100_0000;
  }

  // ----- the division step is linear and loses nothing -----

  lemma PolyTopBit()
    ensures Poly()[31]
  {
    BitAboveDigit(0xEDB8_8320, 27);
    BitAboveDigit(0xEDB_8832, 23);
    BitAboveDigit(0xED_B883, 19);
    BitAboveDigit(0xE_DB88, 15);
    BitAboveDigit(0xEDB8, 11);
    BitAboveDigit(0xEDB, 7);
    BitAboveDigit(0xED, 3);
  }

  lemma ShiftInjective(x: Register, y: Register)
    requires Shift(x) == Shift(y)
    ensures x == y
  {
    PolyTopBit();
    assert Shift(x)[31] == x[0] && Shift(y)[31] == y[0];
    assert Halve(x) == Halve(y) by {
      if x[0] {
        XorCancels(Poly(), Halve(x), Halve(y));
      }
    }
    assert x == [x[0]] + Halve(x)[..31] && y == [y[0]] + Halve(y)[..31];
  }

  lemma ShiftLinear(x: Register, y: Register)
    ensures Shift(Xor(x, y)) == Xor(Shift(x), Shift(y))
  {
    forall i | 0 <= i < 32
      ensures Shift(Xor(x, y))[i] == Xor(Shift(x), Shift(y))[i]
    {
    }
  }

  lemma {:induction false} ShiftNInjective(x: Register, y: Register, n: nat)
    requires ShiftN(x, n) == ShiftN(y, n)
    ensures x == y
  {
    if n > 0 {
      ShiftInjective(ShiftN(x, n - 1), ShiftN(y, n - 1));
      ShiftNInjective(x, y, n - 1);
    }
  }

  lemma {:induction false} ShiftNLinear(x: Register, y: Register, n: nat)
    ensures ShiftN(Xor(x, y), n) == Xor(ShiftN(x, n), ShiftN(y, n))
  {
    if n > 0 {
      ShiftNLinear(x, y, n - 1);
      ShiftLinear(ShiftN(x, n - 1), ShiftN(y, n - 1));
    }
  }

  lemma {:induction false} ShiftNCompose(x: Register, m: nat, n: nat)
    ensures ShiftN(ShiftN(x, m), n) == ShiftN(x, m + n)
  {
    if n > 0 {
      ShiftNCompose(x, m, n - 1);
    }
  }

  /** Shifting out `n` zero bits just moves the rest down. */
  lemma {:induction false} ShiftNOfZeros(x: Register, n: nat)
    requires n <= 32 && forall i :: 0 <= i < n ==> !x[i]
    ensures ShiftN(x, n) == x[n..] + seq(n, _ => false)
  {
    if n > 0 {
      ShiftNOfZeros(x, n - 1);
    }
  }

  lemma XorCancels(a: Register, b: Register, c: Register)
    requires Xor(a, b) == Xor(a, c)
    ensures b == c
  {
    assert forall i :: 0 <= i < 32 ==> Xor(a, b)[i] == Xor(a, c)[i];
  }

  lemma XorCommutes(a: Register, b: Register)
    ensures Xor(a, b) == Xor(b, a)
  {
  }

  // ----- a window of up to four bytes enters the register as one word -----

  /** The bits of up to four bytes laid out in a word, first byte lowest. */
  function WindowWord(w: seq<byte>): Register
    requires |w| <= 4
  {
    seq(32, i requires 0 <= i < 32 => i / 8 < |w| && Bit(w[i / 8], i % 8))
  }

  lemma {:induction false} BitBeyondByte(n: nat, i: nat)
    requires n < Pow2(i)
    ensures !Bit(n, i)
  {
    if i > 0 {
      BitBeyondByte(n / 2, i - 1);
    }
  }

  lemma WindowOfByte(b: byte, i: nat)
    requires i < 32
    ensures BitsOf(b, 32)[i] == (i < 8 && Bit(b, i))
  {
    if i >= 8 {
      Pow2Of32();
      Pow2Monotone(8, i);
      BitBeyondByte(b, i);
    }
  }

  /** The last byte of a window, still waiting behind the bits of the bytes before it. */
  function Delayed(b: byte, k: nat): Register
    requires k < 4
  {
    seq(32, i requires 0 <= i < 32 => i / 8 == k && Bit(b, i % 8))
  }

  lemma DelayedArrives(b: byte, k: nat)
    requires k < 4
    ensures ShiftN(Delayed(b, k), 8 * k) == BitsOf(b, 32)
  {
    ShiftNOfZeros(Delayed(b, k), 8 * k);
    forall i | 0 <= i < 32
      ensures ShiftN(Delayed(b, k), 8 * k)[i] == BitsOf(b, 32)[i]
    {
      WindowOfByte(b, i);
      if i + 8 * k < 32 {
        assert ShiftN(Delayed(b, k), 8 * k)[i] == Delayed(b, k)[i + 8 * k];
        assert (i + 8 * k) / 8 == k <==> i < 8;
      }
    }
  }

  lemma WindowSplits(x: Register, w: seq<byte>)
    requires 0 < |w| <= 4
    ensures Xor(Xor(x, WindowWord(w[..|w| - 1])), Delayed(w[|w| - 1], |w| - 1)) == Xor(x, WindowWord(w))
  {
    var k := |w| - 1;
    forall i | 0 <= i < 32
      ensures (WindowWord(w[..k])[i] != Delayed(w[k], k)[i]) == WindowWord(w)[i]
    {
    }
  }

  /** Feeding up to four bytes is adding them as one word and shifting it through. */
  lemma {:induction false} UpdateWindow(x: Register, w: seq<byte>)
    requires |w| <= 4
    ensures Update(x, w) == ShiftN(Xor(x, WindowWord(w)), 8 * |w|)
  {
    if w == [] {
      assert Xor(x, WindowWord(w)) == x;
    } else {
      var k, b := |w| - 1, w[|w| - 1];
      var y := Xor(x, WindowWord(w[..k]));
      UpdateWindow(x, w[..k]);
      DelayedArrives(b, k);
      ShiftNLinear(y, Delayed(b, k), 8 * k);
      ShiftNCompose(Xor(y, Delayed(b, k)), 8 * k, 8);
      WindowSplits(x, w);
    }
  }

  lemma WindowInjective(v: seq<byte>, w: seq<byte>)
    requires |v| == |w| <= 4 && WindowWord(v) == WindowWord(w)
    ensures v == w
  {
    forall k | 0 <= k < |w|
      ensures v[k] == w[k]
    {
      forall j | 0 <= j < 8
        ensures BitsOf(v[k], 8)[j] == BitsOf(w[k], 8)[j]
      {
        assert WindowWord(v)[8 * k + j] == Bit(v[k], j) && WindowWord(w)[8 * k + j] == Bit(w[k], j);
      }
      assert BitsOf(v[k], 8) == BitsOf(w[k], 8);
      Pow2Of32();
      MaskOfBits(v[k], 8);
      MaskOfBits(w[k], 8);
    }
  }

  // ----- whole messages -----

  lemma {:induction false} UpdateConcat(r: Register, a: seq<byte>, b: seq<byte>)
    ensures Update(r, a + b) == Update(Update(r, a), b)
  {
    if b == [] {
      assert a + b == a;
    } else {
      var n := |b| - 1;
      UpdateConcat(r, a, b[..n]);
      assert (a + b)[..|a + b| - 1] == a + b[..n];
    }
  }

  lemma {:induction false} UpdateInjective(x: Register, y: Register, bytes: seq<byte>)
    requires Update(x, bytes) == Update(y, bytes)
    ensures x == y
  {
    if bytes != [] {
      var n := |bytes| - 1;
      var b := BitsOf(bytes[n], 32);
      var x', y' := Update(x, bytes[..n]), Update(y, bytes[..n]);
      ShiftNInjective(Xor(x', b), Xor(y', b), 8);
      XorCommutes(x', b);
      XorCommutes(y', b);
      XorCancels(b, x', y');
      UpdateInjective(x, y, bytes[..n]);
    }
  }

  /**
   Any change confined to four consecutive bytes changes the checksum, whatever surrounds
   them and however long the message is.
   */
  lemma BurstChangesChecksum(pre: seq<byte>, v: seq<byte>, w: seq<byte>, post: seq<byte>)
    requires |v| == |w| <= 4
    ensures Checksum(pre + v + post) == Checksum(pre + w + post) <==> v == w
  {
    if Checksum(pre + v + post) == Checksum(pre + w + post) {
      var r := Update(Ones(), pre);
      UpdateConcat(Ones(), pre, v);
      UpdateConcat(Ones(), pre + v, post);
      UpdateConcat(Ones(), pre, w);
      UpdateConcat(Ones(), pre + w, post);
      var x, y := Update(Update(r, v), post), Update(Update(r, w), post);
      MaskInjective(Xor(x, Ones()), Xor(y, Ones()));
      XorCommutes(x, Ones());
      XorCommutes(y, Ones());
      XorCancels(Ones(), x, y);
      UpdateInjective(Update(r, v), Update(r, w), post);
      UpdateWindow(r, v);
      UpdateWindow(r, w);
      ShiftNInjective(Xor(r, WindowWord(v)), Xor(r, WindowWord(w)), 8 * |v|);
      XorCancels(r, WindowWord(v), WindowWord(w));
      WindowInjective(v, w);
    }
  }

  /** The accumulator loop over chunks: however the bytes are split, the result is the checksum of them all. */
  method Crc32Chunks(chunks: seq<seq<byte>>) returns (crc: u32)
    ensures crc == Checksum(Flatten(chunks))
  {
    var r: Register := Ones();
    for c := 0 to |chunks|
      invariant r == Update(Ones(), Flatten(chunks[..c]))
    {
      var chunk := chunks[c];
      assert chunks[..c + 1][..c] == chunks[..c];
      ghost var start := r;
      for i := 0 to |chunk|
        invariant r == Update(start, chunk[..i])
      {
        assert chunk[..i + 1][..i] == chunk[..i];
        r := Xor(r, BitsOf(chunk[i], 32));
        ghost var mixed := r;
        for bit := 0 to 8
          invariant r == ShiftN(mixed, bit)
        {
          r := Shift(r);
        }
      }
      assert chunk[..|chunk|] == chunk;
      UpdateConcat(Ones(), Flatten(chunks[..c]), chunk);
    }
    assert chunks[..|chunks|] == chunks;
    Pow2Of32();
    crc := MaskOf(Xor(r, Ones()));
  }
}
