/**
 Variable-length unsigned integers.

 The leading one bits of the first byte tell how many bytes follow. The first byte
 also holds the lowest bits of the value, and the bytes after it hold the rest, least
 significant first. Masks and shifts are written as remainders and divisions by
 powers of two, and the `|` of disjoint shifted parts as a sum.
 */
module Vlq {
  import opened Wire

  function Pow256(n: nat): nat {
    if n == 0 then 1 else 0x100 * Pow256(n - 1)
  }

  /** The `n` lowest bytes of `v`, least significant first. */
  function LowBytes(v: nat, n: nat): (r: seq<byte>)
    ensures |r| == n
    decreases n, v
  {
    if n == 0 then [] else [v % 0x100] + LowBytes(v / 0x100, n - 1)
  }

  function FromLowBytes(s: seq<byte>): (r: nat)
    ensures r < Pow256(|s|)
  {
    if s == [] then 0 else (s[0] as int) + 0x100 * FromLowBytes(s[1..])
  }

  lemma {:induction false} LowBytesRoundTrip(v: nat, n: nat)
    requires v < Pow256(n)
    ensures FromLowBytes(LowBytes(v, n)) == v
  {
    if n > 0 {
      LowBytesRoundTrip(v / 0x100, n - 1);
      assert LowBytes(v, n)[1..] == LowBytes(v / 0x100, n - 1);
    }
  }

  /** A first byte holding a tag and the lowest bits of the value, then `extra` bytes with the rest. */
  function Pack(first: byte, high: nat, extra: nat): (r: seq<byte>)
    ensures |r| == 1 + extra
  {
    [first] + LowBytes(high, extra)
  }

  const UNDERRUN: Error := BufferUnderrun(1, 0)

  function EncodeU16(v: u16): (r: seq<byte>) {
    if v < 0x80 then [v]
    else if v < 0x4000 then Pack(0x80 + v % 0x40, v / 0x40, 1)
    else Pack(0xC0 + v % 0x20, v / 0x20, 2)
  }

  function EncodeU32(v: u32): (r: seq<byte>) {
    if v < 0x80 then [v]
    else if v < 0x4000 then Pack(0x80 + v % 0x40, v / 0x40, 1)
    else if v < 0x20_0000 then Pack(0xC0 + v % 0x20, v / 0x20, 2)
    else if v < 0x1000_0000 then Pack(0xE0 + v % 0x10, v / 0x10, 3)
    else Pack(0xF0 + v % 8, v / 8, 4)
  }

  /**
   The source has a five-byte arm for values below 2^27, placed after the four-byte
   arm for values below 2^28. No value reaches it, so it is not written here.
   */
  function EncodeU64(v: u64): (r: seq<byte>) {
    if v < 0x80 then [v]
    else if v < 0x4000 then Pack(0x80 + v % 0x40, v / 0x40, 1)
    else if v < 0x20_0000 then Pack(0xC0 + v % 0x20, v / 0x20, 2)
    else if v < 0x1000_0000 then Pack(0xE0 + v % 0x10, v / 0x10, 3)
    else if v < 0x0400_0000_0000 then Pack(0xF8 + v % 4, v / 4, 5)
    else if v < 0x0002_0000_0000_0000 then Pack(0xFC + v % 2, v / 2, 6)
    else if v < 0x0100_0000_0000_0000 then Pack(0xFE, v, 7)
    else Pack(0xFF, v, 8)
  }

  /** How many bytes follow a first byte of at least 0x80, for the narrow and for the wide decoder. */
  function Extra32(first: byte): nat {
    if first < 0xC0 then 1 else if first < 0xE0 then 2 else if first < 0xF0 then 3 else 4
  }

  function Extra64(first: byte): nat {
    if first < 0xC0 then 1 else if first < 0xE0 then 2 else if first < 0xF0 then 3 else if first < 0xF8 then 4
    else if first < 0xFC then 5 else if first < 0xFE then 6 else if first < 0xFF then 7 else 8
  }

  /** The value made of the first byte's low bits and the bytes after it. */
  function Join32(first: byte, high: nat): nat {
    if first < 0xC0 then first % 0x40 + 0x40 * high
    else if first < 0xE0 then first % 0x20 + 0x20 * high
    else if first < 0xF0 then first % 0x10 + 0x10 * high
    else first % 8 + 8 * high
  }

  function Join64(first: byte, high: nat): nat {
    if first < 0xF8 then Join32(first, high)
    else if first < 0xFC then first % 4 + 4 * high
    else if first < 0xFE then first % 2 + 2 * high
    else high
  }

  /** Bits shifted out above bit 31 by the fifth byte are lost. */
  function DecodeU32(s: seq<byte>): (r: Decoded<u32>)
    ensures r.Ok? ==> SuffixOf(r.rest, s) && |r.rest| < |s|
  {
    if s == [] then Err(UNDERRUN)
    else if s[0] < 0x80 then Ok(s[0], s[1..])
    else
      var end := 1 + Extra32(s[0]);
      if |s| < end then Err(UNDERRUN)
      else Ok(Join32(s[0], FromLowBytes(s[1..end])) % 0x1_0000_0000, s[end..])
  }

  function DecodeU16(s: seq<byte>): (r: Decoded<u16>)
    ensures r.Ok? ==> SuffixOf(r.rest, s) && |r.rest| < |s|
  {
    var (v, rest) :- DecodeU32(s);
    if v > 0xFFFF then Err(ContainerOverflow(v, 0xFFFF)) else Ok(v, rest)
  }

  function DecodeU64(s: seq<byte>): (r: Decoded<u64>)
    ensures r.Ok? ==> SuffixOf(r.rest, s) && |r.rest| < |s|
  {
    if s == [] then Err(UNDERRUN)
    else if s[0] < 0x80 then Ok(s[0], s[1..])
    else
      var end := 1 + Extra64(s[0]);
      if |s| < end then Err(UNDERRUN)
      else Ok(Join64(s[0], FromLowBytes(s[1..end])) % 0x1_0000_0000_0000_0000, s[end..])
  }

  /** Wire lengths as the bundle sizer computes them. */
  function U32Len(v: u32): nat {
    if v < 0x80 then 1 else if v < 0x4000 then 2 else if v < 0x20_0000 then 3 else if v < 0x1000_0000 then 4 else 5
  }

  function U64Len(v: u64): nat {
    if v < 0x80 then 1 else if v < 0x4000 then 2 else if v < 0x20_0000 then 3 else if v < 0x1000_0000 then 4
    else if v < 0x0400_0000_0000 then 6 else if v < 0x0002_0000_0000_0000 then 7
    else if v < 0x0100_0000_0000_0000 then 8 else 9
  }

  lemma Pow256Values()
    ensures Pow256(1) == 0x100 && Pow256(2) == 0x1_0000 && Pow256(3) == 0x100_0000
    ensures Pow256(4) == 0x1_0000_0000 && Pow256(5) == 0x100_0000_0000
    ensures Pow256(6) == 0x1_0000_0000_0000 && Pow256(7) == 0x100_0000_0000_0000
    ensures Pow256(8) == 0x1_0000_0000_0000_0000
  {
  }

  lemma PackSlices(first: byte, high: nat, extra: nat, rest: seq<byte>)
    requires high < Pow256(extra)
    ensures var s := Pack(first, high, extra) + rest;
            s[0] == first && FromLowBytes(s[1..1 + extra]) == high && s[1 + extra..] == rest
  {
    assert (Pack(first, high, extra) + rest)[1..1 + extra] == LowBytes(high, extra);
    LowBytesRoundTrip(high, extra);
  }

  lemma DecodePacked32(first: byte, high: nat, extra: nat, rest: seq<byte>, v: u32)
    requires 0x80 <= first && extra == Extra32(first) && high < Pow256(extra) && v == Join32(first, high)
    ensures DecodeU32(Pack(first, high, extra) + rest) == Ok(v, rest)
  {
    PackSlices(first, high, extra, rest);
  }

  lemma DecodePacked64(first: byte, high: nat, extra: nat, rest: seq<byte>, v: u64)
    requires 0x80 <= first && extra == Extra64(first) && high < Pow256(extra) && v == Join64(first, high)
    ensures DecodeU64(Pack(first, high, extra) + rest) == Ok(v, rest)
  {
    PackSlices(first, high, extra, rest);
  }

  /** Every u32 decodes from its encoding, leaving exactly the bytes that followed it. */
  lemma U32RoundTrip(v: u32, rest: seq<byte>)
    ensures DecodeU32(EncodeU32(v) + rest) == Ok(v, rest)
    ensures |EncodeU32(v)| == U32Len(v)
  {
    Pow256Values();
    if v < 0x80 {
      assert ([v] + rest)[1..] == rest;
    } else if v < 0x4000 {
      DecodePacked32(0x80 + v % 0x40, v / 0x40, 1, rest, v);
    } else if v < 0x20_0000 {
      DecodePacked32(0xC0 + v % 0x20, v / 0x20, 2, rest, v);
    } else if v < 0x1000_0000 {
      DecodePacked32(0xE0 + v % 0x10, v / 0x10, 3, rest, v);
    } else {
      DecodePacked32(0xF0 + v % 8, v / 8, 4, rest, v);
    }
  }

  /** The u16 codec is the u32 codec on small values, byte for byte. */
  lemma U16RoundTrip(v: u16, rest: seq<byte>)
    ensures EncodeU16(v) == EncodeU32(v)
    ensures DecodeU16(EncodeU16(v) + rest) == Ok(v, rest)
  {
    U32RoundTrip(v, rest);
  }

  lemma U64RoundTripShort(v: u64, rest: seq<byte>)
    requires v < 0x1000_0000
    ensures DecodeU64(EncodeU64(v) + rest) == Ok(v, rest)
  {
    Pow256Values();
    if v < 0x80 {
      assert ([v] + rest)[1..] == rest;
    } else if v < 0x4000 {
      DecodePacked64(0x80 + v % 0x40, v / 0x40, 1, rest, v);
    } else if v < 0x20_0000 {
      DecodePacked64(0xC0 + v % 0x20, v / 0x20, 2, rest, v);
    } else {
      DecodePacked64(0xE0 + v % 0x10, v / 0x10, 3, rest, v);
    }
  }

  lemma U64RoundTripLong(v: u64, rest: seq<byte>)
    requires v >= 0x1000_0000
    ensures DecodeU64(EncodeU64(v) + rest) == Ok(v, rest)
  {
    Pow256Values();
    if v < 0x0400_0000_0000 {
      DecodePacked64(0xF8 + v % 4, v / 4, 5, rest, v);
    } else if v < 0x0002_0000_0000_0000 {
      DecodePacked64(0xFC + v % 2, v / 2, 6, rest, v);
    } else if v < 0x0100_0000_0000_0000 {
      DecodePacked64(0xFE, v, 7, rest, v);
    } else {
      DecodePacked64(0xFF, v, 8, rest, v);
    }
  }

  /** Every u64 decodes from its encoding, whose length is the one the sizer computes and never five. */
  lemma U64RoundTrip(v: u64, rest: seq<byte>)
    ensures DecodeU64(EncodeU64(v) + rest) == Ok(v, rest)
    ensures |EncodeU64(v)| == U64Len(v) != 5
  {
    if v < 0x1000_0000 {
      U64RoundTripShort(v, rest);
    } else {
      U64RoundTripLong(v, rest);
    }
  }

  /** The wide decoder reads everything the narrow encoder writes, five-byte values included. */
  lemma U64DecoderReadsU32Encodings(v: u32, rest: seq<byte>)
    ensures DecodeU64(EncodeU32(v) + rest) == Ok(v, rest)
  {
    Pow256Values();
    if v < 0x1000_0000 {
      U64RoundTrip(v, rest);
    } else {
      DecodePacked64(0xF0 + v % 8, v / 8, 4, rest, v);
    }
  }

  /** A value that does not fit 16 bits is refused by the u16 decoder. */
  lemma U16OverflowRefused(v: u32, rest: seq<byte>)
    requires v > 0xFFFF
    ensures DecodeU16(EncodeU32(v) + rest) == Err(ContainerOverflow(v, 0xFFFF))
  {
    U32RoundTrip(v, rest);
  }

  /** An encoding cut short anywhere is refused for want of bytes. */
  lemma TruncatedRefused(v: u32, w: u64, n: nat)
    ensures n < |EncodeU32(v)| ==> DecodeU32(EncodeU32(v)[..n]) == Err(BufferUnderrun(1, 0))
    ensures n < |EncodeU64(w)| ==> DecodeU64(EncodeU64(w)[..n]) == Err(BufferUnderrun(1, 0))
  {
  }
}
