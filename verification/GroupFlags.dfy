/**
 The group-present bitset that opens a fixed state's contents: one bit a group, least
 significant first, at least one byte.
 */
module GroupFlags {
  import opened Wire
  import opened Bits

  function FlagByte(flags: seq<bool>): byte
    requires |flags| <= 8
  {
    Pow2Monotone(|flags|, 8);
    MaskOf(flags)
  }

  /** Where the byte whose first flag is `start` ends. */
  function FlagEnd(count: nat, start: nat): nat { if start + 8 <= count then start + 8 else count }

  function EncodeFrom(flags: seq<bool>, start: nat): seq<byte>
    requires start <= |flags|
    decreases |flags| - start
  {
    var end := FlagEnd(|flags|, start);
    [FlagByte(flags[start..end])] + if end == |flags| then [] else EncodeFrom(flags, end)
  }

  function EncodeFlags(flags: seq<bool>): seq<byte> { EncodeFrom(flags, 0) }

  /** Reads the bytes after the flags already known; bits above the last group are ignored. */
  function DecodeFrom(flags: seq<bool>, count: nat, s: seq<byte>): (r: Decoded<seq<bool>>)
    requires |flags| <= count
    ensures r.Ok? ==> |r.value| == count
    decreases count - |flags|
  {
    var (b, rest) :- ReadByte(s);
    var end := FlagEnd(count, |flags|);
    var flags' := flags + BitsOf(b, end - |flags|);
    if end == count then Ok(flags', rest) else DecodeFrom(flags', count, rest)
  }

  function DecodeFlags(count: nat, s: seq<byte>): (r: Decoded<seq<bool>>)
    ensures r.Ok? ==> |r.value| == count
  {
    DecodeFrom([], count, s)
  }

  lemma FlagByteBits(flags: seq<bool>)
    requires |flags| <= 8
    ensures BitsOf(FlagByte(flags), |flags|) == flags
  {
    forall i | 0 <= i < |flags|
      ensures Bit(FlagByte(flags), i) == flags[i]
    {
      MaskBit(flags, i);
    }
  }

  lemma {:induction false} DecodeInvertsEncode(flags: seq<bool>, start: nat, rest: seq<byte>)
    requires start <= |flags|
    ensures DecodeFrom(flags[..start], |flags|, EncodeFrom(flags, start) + rest) == Ok(flags, rest)
    decreases |flags| - start
  {
    var end := FlagEnd(|flags|, start);
    FlagByteBits(flags[start..end]);
    assert flags[..start] + flags[start..end] == flags[..end];
    if end == |flags| {
      assert (EncodeFrom(flags, start) + rest)[1..] == rest;
      assert flags[..end] == flags;
    } else {
      assert (EncodeFrom(flags, start) + rest)[1..] == EncodeFrom(flags, end) + rest;
      DecodeInvertsEncode(flags, end, rest);
    }
  }

  lemma FlagsRoundTrip(flags: seq<bool>, rest: seq<byte>)
    ensures DecodeFlags(|flags|, EncodeFlags(flags) + rest) == Ok(flags, rest)
  {
    assert flags[..0] == [];
    DecodeInvertsEncode(flags, 0, rest);
  }

  /** Group `g`'s flag is bit `g % 8` of byte `g / 8`, counted from the byte whose first flag is `start`. */
  lemma {:induction false} FlagBitAt(flags: seq<bool>, start: nat, g: nat)
    requires start <= g < |flags|
    ensures (g - start) / 8 < |EncodeFrom(flags, start)|
    ensures Bit(EncodeFrom(flags, start)[(g - start) / 8], (g - start) % 8) == flags[g]
    decreases |flags| - start
  {
    var end := FlagEnd(|flags|, start);
    if g < end {
      MaskBit(flags[start..end], g - start);
    } else {
      FlagBitAt(flags, end, g);
      assert (g - start) / 8 == (g - end) / 8 + 1;
    }
  }

  /** One byte for every eight flags begun, and at least one. */
  lemma {:induction false} FlagsLength(flags: seq<bool>, start: nat)
    requires start <= |flags|
    ensures |EncodeFrom(flags, start)| == if |flags| - start <= 8 then 1 else (|flags| - start + 7) / 8
    decreases |flags| - start
  {
    var end := FlagEnd(|flags|, start);
    if end < |flags| {
      FlagsLength(flags, end);
    }
  }

  /** Ors one bit after another into a mask. */
  method PackMask(bits: seq<bool>) returns (mask: nat)
    ensures mask == MaskOf(bits) < Pow2(|bits|)
  {
    mask := 0;
    for i := 0 to |bits|
      invariant mask == MaskOf(bits[..i])
    {
      MaskAppend(bits[..i], bits[i]);
      assert bits[..i + 1] == bits[..i] + [bits[i]];
      if bits[i] {
        mask := mask + Pow2(i);
      }
    }
    assert bits[..|bits|] == bits;
  }

  method PackByte(flags: seq<bool>) returns (b: byte)
    requires |flags| <= 8
    ensures b == FlagByte(flags)
  {
    var mask := PackMask(flags);
    assert mask == FlagByte(flags);
    b := mask;
  }

  function FlagByteCount(count: nat): nat { if count <= 8 then 1 else (count + 7) / 8 }

  /** The next byte and the ones after it, behind the bytes already written. */
  lemma {:induction false} EncodeStep(flags: seq<bool>, start: nat, out: seq<byte>)
    requires start <= |flags|
    ensures var end := FlagEnd(|flags|, start);
            out + EncodeFrom(flags, start)
            == out + [FlagByte(flags[start..end])] + if end == |flags| then [] else EncodeFrom(flags, end)
  {
  }

  method WriteGroupPresentFlags(flags: seq<bool>) returns (out: seq<byte>)
    ensures out == EncodeFlags(flags)
  {
    out := [];
    var byteCount := FlagByteCount(|flags|);
    for i := 0 to byteCount
      invariant i < byteCount ==> 8 * i <= |flags| && out + EncodeFrom(flags, 8 * i) == EncodeFlags(flags)
      invariant i == byteCount ==> out == EncodeFlags(flags)
    {
      var end := FlagEnd(|flags|, 8 * i);
      var b := PackByte(flags[8 * i..end]);
      EncodeStep(flags, 8 * i, out);
      out := out + [b];
    }
  }

  method ReadGroupPresentFlags(count: nat, s: seq<byte>) returns (r: Decoded<seq<bool>>)
    ensures r == DecodeFlags(count, s)
  {
    var flags, rest := [], s;
    var byteCount := FlagByteCount(count);
    for i := 0 to byteCount
      invariant i < byteCount ==> |flags| == 8 * i <= count && DecodeFlags(count, s) == DecodeFrom(flags, count, rest)
      invariant i == byteCount ==> DecodeFlags(count, s) == Ok(flags, rest)
    {
      var b :- ReadByte(rest);
      var end := FlagEnd(count, |flags|);
      var chunk := [];
      for bit := 0 to end - |flags|
        invariant chunk == BitsOf(b.0, bit)
      {
        chunk := chunk + [Bit(b.0, bit)];
      }
      flags, rest := flags + chunk, b.1;
    }
    r := Ok(flags, rest);
  }
}
