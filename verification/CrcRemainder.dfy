/**
 The checksum as a remainder. Polynomials over GF(2) are the sets of their exponents, sums are
 symmetric differences, and a product is a sum of shifted copies. Up to the complement at
 either end, the checksum of a message is its remainder modulo the CRC-32 polynomial of
 section 8 of RFC 1952, bits taken least significant first within each byte.
 */
module CrcRemainder {
  import opened Wire
  import opened Bits
  import opened Crc32

  /** The exponents of x^32 + x^26 + x^23 + x^22 + x^16 + x^12 + x^11 + x^10 + x^8 + x^7 + x^5 + x^4 + x^2 + x + 1. */
  predicate Exponent(e: int) {
    || e == 32 || e == 26 || e == 23 || e == 22 || e == 16 || e == 12 || e == 11 || e == 10
    || e == 8 || e == 7 || e == 5 || e == 4 || e == 2 || e == 1 || e == 0
  }

  const GENERATOR: set<nat> := set e: nat | e < 33 && Exponent(e)

  function Sum(a: set<nat>, b: set<nat>): set<nat> { (a - b) + (b - a) }

  /** The product with x^n. */
  ghost function Raise(a: set<nat>, n: nat): (r: set<nat>)
    ensures forall e: nat :: e in r <==> e >= n && e - n in a
  {
    var r := set e | e in a :: e + n;
    assert forall e: nat :: e in a ==> e + n in r;
    r
  }

  /** The product of the generator with the polynomial of these coefficients, lowest first. */
  ghost function Times(q: seq<bool>): set<nat> {
    if q == [] then {}
    else Sum(Times(q[..|q| - 1]), if q[|q| - 1] then Raise(GENERATOR, |q| - 1) else {})
  }

  /** The two differ by a multiple of the generator. */
  ghost predicate Congruent(a: set<nat>, b: set<nat>) { exists q :: Sum(a, b) == Times(q) }

  // ----- congruence is one -----

  lemma {:induction false} SumLaws(a: set<nat>, b: set<nat>, c: set<nat>)
    ensures Sum(a, b) == Sum(b, a) && Sum(a, Sum(b, c)) == Sum(Sum(a, b), c) && Sum(a, a) == {} && Sum(a, {}) == a
  {
  }

  lemma {:induction false} RaiseLaws(a: set<nat>, b: set<nat>, m: nat, n: nat)
    ensures Raise(Sum(a, b), n) == Sum(Raise(a, n), Raise(b, n))
    ensures Raise(Raise(a, m), n) == Raise(a, m + n)
    ensures Raise(a, 0) == a && Raise({}, n) == {}
  {
    assert forall e: nat :: e in Raise(Raise(a, m), n) <==> e in Raise(a, m + n);
  }

  function Zeros(n: nat): seq<bool> { seq(n, _ => false) }

  lemma {:induction false} TimesPadded(q: seq<bool>, n: nat)
    ensures Times(q + Zeros(n)) == Times(q)
  {
    if n == 0 {
      assert q + Zeros(0) == q;
    } else {
      TimesPadded(q, n - 1);
      assert (q + Zeros(n))[..|q| + n - 1] == q + Zeros(n - 1);
    }
  }

  function Pointwise(p: seq<bool>, q: seq<bool>): (r: seq<bool>)
    requires |p| == |q|
    ensures |r| == |p|
  {
    seq(|p|, i requires 0 <= i < |p| => p[i] != q[i])
  }

  lemma {:induction false} TimesSum(p: seq<bool>, q: seq<bool>)
    requires |p| == |q|
    ensures Times(Pointwise(p, q)) == Sum(Times(p), Times(q))
  {
    if p != [] {
      var n := |p| - 1;
      TimesSum(p[..n], q[..n]);
      assert Pointwise(p, q)[..n] == Pointwise(p[..n], q[..n]);
    }
  }

  lemma {:induction false} TimesRaised(q: seq<bool>, n: nat)
    ensures Times(Zeros(n) + q) == Raise(Times(q), n)
  {
    if q == [] {
      assert Zeros(n) + q == [] + Zeros(n);
      TimesPadded([], n);
      RaiseLaws({}, {}, 0, n);
    } else {
      var m := |q| - 1;
      TimesRaised(q[..m], n);
      assert (Zeros(n) + q)[..n + m] == Zeros(n) + q[..m];
      RaiseLaws(Times(q[..m]), Raise(GENERATOR, m), 0, n);
      RaiseLaws(GENERATOR, {}, m, n);
    }
  }

  lemma {:induction false} CongruentSums(a: set<nat>, b: set<nat>, c: set<nat>, d: set<nat>)
    requires Congruent(a, b) && Congruent(c, d)
    ensures Congruent(Sum(a, c), Sum(b, d))
  {
    var p :| Sum(a, b) == Times(p);
    var q :| Sum(c, d) == Times(q);
    var p', q' := p + Zeros(|q|), q + Zeros(|p|);
    TimesPadded(p, |q|);
    TimesPadded(q, |p|);
    TimesSum(p', q');
    assert Sum(Sum(a, c), Sum(b, d)) == Sum(Sum(a, b), Sum(c, d));
    assert Sum(Sum(a, c), Sum(b, d)) == Times(Pointwise(p', q'));
  }

  lemma {:induction false} CongruentRaised(a: set<nat>, b: set<nat>, n: nat)
    requires Congruent(a, b)
    ensures Congruent(Raise(a, n), Raise(b, n))
  {
    var q :| Sum(a, b) == Times(q);
    TimesRaised(q, n);
    RaiseLaws(a, b, 0, n);
    assert Sum(Raise(a, n), Raise(b, n)) == Times(Zeros(n) + q);
  }

  lemma {:induction false} CongruentItself(a: set<nat>)
    ensures Congruent(a, a)
  {
    assert Sum(a, a) == Times([]);
  }

  lemma {:induction false} CongruentTransitive(a: set<nat>, b: set<nat>, c: set<nat>)
    requires Congruent(a, b) && Congruent(b, c)
    ensures Congruent(a, c)
  {
    CongruentSums(a, b, b, c);
    var q :| Sum(Sum(a, b), Sum(b, c)) == Times(q);
    assert Sum(Sum(a, b), Sum(b, c)) == Sum(a, c);
  }

  /** A multiple of the generator that is not zero has degree 32 or more. */
  lemma {:induction false} MultiplesAreLong(q: seq<bool>)
    ensures forall e :: e in Times(q) ==> e < |q| + 32
    ensures Times(q) != {} ==> exists e :: e in Times(q) && e >= 32
  {
    if q != [] {
      var n := |q| - 1;
      MultiplesAreLong(q[..n]);
      if q[n] {
        assert n + 32 in Raise(GENERATOR, n) && n + 32 in Times(q);
      } else {
        assert Times(q) == Times(q[..n]);
      }
    }
  }

  /** So remainders are unique: two polynomials of degree below 32 are congruent only if they are equal. */
  lemma {:induction false} RemainderUnique(a: set<nat>, b: set<nat>)
    requires (forall e :: e in a || e in b ==> e < 32) && Congruent(a, b)
    ensures a == b
  {
    var q :| Sum(a, b) == Times(q);
    MultiplesAreLong(q);
    assert Sum(a, b) == {};
  }

  // ----- the constant is the generator -----

  /** The generator's coefficients below x^32, highest first. */
  predicate Spells(c: seq<bool>) {
    |c| == 32 && forall i :: 0 <= i < 32 ==> c[i] == Exponent(31 - i)
  }

  function One(b: bool): nat { if b then 1 else 0 }

  lemma {:induction false} MaskOfFour(bits: seq<bool>)
    requires |bits| >= 4
    ensures MaskOf(bits)
         == One(bits[0]) + 2 * One(bits[1]) + 4 * One(bits[2]) + 8 * One(bits[3]) + 0x10 * MaskOf(bits[4..])
  {
    assert bits[1..][1..] == bits[2..] && bits[2..][1..] == bits[3..] && bits[3..][1..] == bits[4..];
    assert MaskOf(bits) == One(bits[0]) + 2 * MaskOf(bits[1..]);
    assert MaskOf(bits[1..]) == One(bits[1]) + 2 * MaskOf(bits[2..]);
    assert MaskOf(bits[2..]) == One(bits[2]) + 2 * MaskOf(bits[3..]);
    assert MaskOf(bits[3..]) == One(bits[3]) + 2 * MaskOf(bits[4..]);
  }

  /** Four coefficients make one more hexadecimal digit. */
  lemma {:induction false} DigitAt(c: seq<bool>, k: nat, b0: bool, b1: bool, b2: bool, b3: bool, more: nat)
    requires Spells(c) && k <= 28 && MaskOf(c[k + 4..]) == more
    requires Exponent(31 - k) == b0 && Exponent(30 - k) == b1 && Exponent(29 - k) == b2 && Exponent(28 - k) == b3
    ensures MaskOf(c[k..]) == One(b0) + 2 * One(b1) + 4 * One(b2) + 8 * One(b3) + 0x10 * more
  {
    var tail := c[k..];
    assert tail[0] == b0 && tail[1] == b1 && tail[2] == b2 && tail[3] == b3 && tail[4..] == c[k + 4..];
    MaskOfFour(tail);
  }

  lemma {:induction false} UpperDigits(c: seq<bool>)
    requires Spells(c)
    ensures MaskOf(c[16..]) == 0xEDB8
  {
    assert c[32..] == [];
    DigitAt(c, 28, false, true, true, true, 0);
    DigitAt(c, 24, true, false, true, true, 0xE);
    DigitAt(c, 20, true, true, false, true, 0xED);
    DigitAt(c, 16, false, false, false, true, 0xEDB);
  }

  lemma {:induction false} LowerDigits(c: seq<bool>)
    requires Spells(c) && MaskOf(c[16..]) == 0xEDB8
    ensures MaskOf(c[0..]) == 0xEDB8_8320
  {
    DigitAt(c, 12, false, false, false, true, 0xEDB8);
    DigitAt(c, 8, true, true, false, false, 0xE_DB88);
    DigitAt(c, 4, false, true, false, false, 0xED_B883);
    DigitAt(c, 0, false, false, false, false, 0xEDB_8832);
  }

  lemma {:induction false} CoefficientsMakeConstant(c: seq<bool>)
    requires Spells(c)
    ensures MaskOf(c) == 0xEDB8_8320
  {
    UpperDigits(c);
    LowerDigits(c);
    assert c[0..] == c;
  }

  /** The constant's bits are the generator's exponents below 32, highest first. */
  lemma {:induction false} PolyIsGenerator(i: nat)
    requires i < 32
    ensures Poly()[i] <==> Exponent(31 - i)
  {
    var c := seq(32, j requires 0 <= j < 32 => Exponent(31 - j));
    CoefficientsMakeConstant(c);
    MaskBit(c, i);
  }

  // ----- the register divides -----

  /** The polynomial of some bits, highest exponent first. */
  ghost function Terms(bits: seq<bool>): (v: set<nat>)
    ensures forall e: nat :: e in v <==> e < |bits| && bits[|bits| - 1 - e]
  {
    set i | 0 <= i < |bits| && bits[i] :: |bits| - 1 - i
  }

  lemma {:induction false} XorAdds(a: Register, b: Register)
    ensures Terms(Xor(a, b)) == Sum(Terms(a), Terms(b))
  {
  }

  /** Halving multiplies by x and loses x^32. */
  lemma {:induction false} HalveRaises(r: Register)
    ensures Raise(Terms(r), 1) == Terms(Halve(r)) + if r[0] then {32} else {}
  {
    var raised, halved := Raise(Terms(r), 1), Terms(Halve(r));
    forall e: nat
      ensures e in raised <==> e in halved || (e == 32 && r[0])
    {
    }
  }

  /** The generator is x^32 and what the register adds for it. */
  lemma {:induction false} GeneratorSplits()
    ensures GENERATOR == Terms(Poly()) + {32} && 32 !in Terms(Poly())
  {
    forall e: nat
      ensures e in GENERATOR <==> e in Terms(Poly()) || e == 32
    {
      if e < 32 {
        PolyIsGenerator(31 - e);
      }
    }
  }

  lemma {:induction false} OnceGenerator(q: seq<bool>)
    requires |q| == 1 && q[0]
    ensures Times(q) == GENERATOR
  {
    var n := |q| - 1;
    assert q[..n] == [];
    RaiseLaws(GENERATOR, {}, 0, 0);
  }

  lemma {:induction false} OneSubtraction(low: set<nat>, halved: set<nat>, raised: set<nat>, g: set<nat>)
    requires g == low + {32} && 32 !in low
    requires raised == halved + {32} && 32 !in halved
    ensures Sum(Sum(low, halved), raised) == g
  {
  }

  /** One bit of the division multiplies by x, modulo the generator. */
  lemma {:induction false} ShiftMultiplies(r: Register)
    ensures Congruent(Terms(Shift(r)), Raise(Terms(r), 1))
  {
    HalveRaises(r);
    if r[0] {
      GeneratorSplits();
      XorAdds(Poly(), Halve(r));
      OneSubtraction(Terms(Poly()), Terms(Halve(r)), Raise(Terms(r), 1), GENERATOR);
      OnceGenerator([true]);
    } else {
      CongruentItself(Terms(Shift(r)));
    }
  }

  lemma {:induction false} ShiftNMultiplies(r: Register, n: nat)
    ensures Congruent(Terms(ShiftN(r, n)), Raise(Terms(r), n))
  {
    if n == 0 {
      RaiseLaws(Terms(r), {}, 0, 0);
      CongruentItself(Terms(r));
    } else {
      ShiftNMultiplies(r, n - 1);
      ShiftMultiplies(ShiftN(r, n - 1));
      CongruentRaised(Terms(ShiftN(r, n - 1)), Raise(Terms(r), n - 1), 1);
      RaiseLaws(Terms(r), {}, n - 1, 1);
      CongruentTransitive(Terms(ShiftN(r, n)), Raise(Terms(ShiftN(r, n - 1)), 1), Raise(Terms(r), n));
    }
  }

  // ----- messages -----

  /** A byte's bits as they are sent, least significant first. */
  function SentBits(b: byte): (r: seq<bool>)
    ensures |r| == 8
  {
    BitsOf(b, 8)
  }

  /** The bits of a message as they are sent. */
  function MessageBits(bytes: seq<byte>): (r: seq<bool>)
    ensures |r| == 8 * |bytes|
  {
    if bytes == [] then [] else MessageBits(bytes[..|bytes| - 1]) + SentBits(bytes[|bytes| - 1])
  }

  lemma {:induction false} TermsConcat(a: seq<bool>, b: seq<bool>)
    ensures Terms(a + b) == Sum(Raise(Terms(a), |b|), Terms(b))
  {
    forall e: nat
      ensures e in Terms(a + b) <==> e in Sum(Raise(Terms(a), |b|), Terms(b))
    {
    }
  }

  lemma {:induction false} ByteEntersHigh(b: byte)
    ensures Terms(BitsOf(b, 32)) == Raise(Terms(SentBits(b)), 24)
  {
    var word: Register := BitsOf(b, 32);
    forall e: nat
      ensures e in Terms(word) <==> e in Raise(Terms(SentBits(b)), 24)
    {
      if e < 32 {
        WindowOfByte(b, 31 - e);
      }
    }
  }

  /** One byte: the register times x^8 plus the byte times x^32. */
  lemma {:induction false} StepDivides(r: Register, b: byte)
    ensures Congruent(Terms(StepByte(r, b)), Sum(Raise(Terms(r), 8), Raise(Terms(SentBits(b)), 32)))
  {
    var mixed := Xor(r, BitsOf(b, 32));
    ShiftNMultiplies(mixed, 8);
    XorAdds(r, BitsOf(b, 32));
    ByteEntersHigh(b);
    RaiseLaws(Terms(r), Raise(Terms(SentBits(b)), 24), 0, 8);
    RaiseLaws(Terms(SentBits(b)), {}, 24, 8);
  }

  /** Thirty-two ones. */
  const ALL_ONES: set<nat> := set e: nat | e < 32

  lemma {:induction false} OnesTerms()
    ensures Terms(Ones()) == ALL_ONES
  {
  }

  /** What is divided: the first 32 bits of the message complemented, by adding ones, and 32 zero bits behind it. */
  ghost function Dividend(bytes: seq<byte>): set<nat> {
    Sum(Raise(ALL_ONES, 8 * |bytes|), Raise(Terms(MessageBits(bytes)), 32))
  }

  /** The register holds the dividend's remainder modulo the generator. */
  lemma {:induction false} RegisterIsRemainder(bytes: seq<byte>)
    ensures Congruent(Terms(Update(Ones(), bytes)), Dividend(bytes))
  {
    if bytes == [] {
      OnesTerms();
      RaiseLaws(Terms(Ones()), {}, 0, 0);
      assert Terms([]) == {};
      RaiseLaws({}, {}, 0, 32);
      SumLaws(Terms(Ones()), {}, {});
      CongruentItself(Terms(Ones()));
    } else {
      var before, b := bytes[..|bytes| - 1], bytes[|bytes| - 1];
      var r := Update(Ones(), before);
      RegisterIsRemainder(before);
      StepDivides(r, b);
      DividendStep(before, b);
      assert bytes == before + [b];
      CongruentRaised(Terms(r), Dividend(before), 8);
      CongruentItself(Raise(Terms(SentBits(b)), 32));
      CongruentSums(Raise(Terms(r), 8), Raise(Dividend(before), 8), Raise(Terms(SentBits(b)), 32),
                    Raise(Terms(SentBits(b)), 32));
      CongruentTransitive(Terms(Update(Ones(), bytes)), Sum(Raise(Terms(r), 8), Raise(Terms(SentBits(b)), 32)),
                          Dividend(bytes));
    }
  }

  lemma {:induction false} RaisedSums(ones: set<nat>, message: set<nat>, sent: set<nat>, n: nat)
    ensures Sum(Raise(ones, n + 8), Raise(Sum(Raise(message, 8), sent), 32))
         == Sum(Raise(Sum(Raise(ones, n), Raise(message, 32)), 8), Raise(sent, 32))
  {
    RaiseLaws(Raise(message, 8), sent, 0, 32);
    RaiseLaws(Raise(ones, n), Raise(message, 32), 0, 8);
    RaiseLaws(ones, {}, n, 8);
    RaiseLaws(message, {}, 8, 32);
    RaiseLaws(message, {}, 32, 8);
    SumLaws(Raise(ones, n + 8), Raise(message, 40), Raise(sent, 32));
  }

  lemma {:induction false} DividendStep(bytes: seq<byte>, b: byte)
    ensures Dividend(bytes + [b]) == Sum(Raise(Dividend(bytes), 8), Raise(Terms(SentBits(b)), 32))
  {
    assert (bytes + [b])[..|bytes|] == bytes;
    TermsConcat(MessageBits(bytes), SentBits(b));
    RaisedSums(ALL_ONES, Terms(MessageBits(bytes)), Terms(SentBits(b)), 8 * |bytes|);
  }

  /** The polynomial a checksum stands for: the complement of its bits, least significant bit at x^31. */
  ghost function ChecksumTerms(crc: u32): (r: set<nat>)
    ensures forall e: nat :: e in r <==> e < 32 && !Bit(crc, 31 - e)
  {
    set i | 0 <= i < 32 && !Bit(crc, i) :: 31 - i
  }

  lemma {:induction false} ComplementTerms(crc: u32)
    ensures Terms(Xor(BitsOf(crc, 32), Ones())) == ChecksumTerms(crc)
  {
    var bits: Register := BitsOf(crc, 32);
    forall e: nat
      ensures e in Terms(Xor(bits, Ones())) <==> e in ChecksumTerms(crc)
    {
      if e < 32 {
        assert bits[31 - e] == Bit(crc, 31 - e);
      }
    }
  }

  /**
   The checksum is the CRC-32 of section 8 of RFC 1952: of all 32-bit numbers, exactly the
   one whose complement is the remainder of the message, its first 32 bits complemented
   and 32 zero bits behind it, modulo the generator.
   */
  lemma {:induction false} ChecksumIsRemainder(bytes: seq<byte>, crc: u32)
    ensures crc == Checksum(bytes) <==> Congruent(ChecksumTerms(crc), Dividend(bytes))
  {
    var r := Update(Ones(), bytes);
    RegisterIsRemainder(bytes);
    ChecksumBits(bytes);
    ComplementTerms(Checksum(bytes));
    ComplementTerms(crc);
    if Congruent(ChecksumTerms(crc), Dividend(bytes)) {
      CongruentSymmetric(Terms(r), Dividend(bytes));
      CongruentTransitive(ChecksumTerms(crc), Dividend(bytes), Terms(r));
      RemainderUnique(ChecksumTerms(crc), Terms(r));
      SameTerms(Xor(BitsOf(crc, 32), Ones()), r);
      SameChecksum(crc, bytes);
    }
  }

  lemma {:induction false} CongruentSymmetric(a: set<nat>, b: set<nat>)
    requires Congruent(a, b)
    ensures Congruent(b, a)
  {
    var q :| Sum(a, b) == Times(q);
    SumLaws(a, b, {});
    assert Sum(b, a) == Times(q);
  }

  lemma {:induction false} SameTerms(a: Register, b: Register)
    requires Terms(a) == Terms(b)
    ensures a == b
  {
    forall i | 0 <= i < 32
      ensures a[i] == b[i]
    {
      assert a[i] <==> (31 - i) as nat in Terms(a);
    }
  }

  lemma {:induction false} ChecksumBits(bytes: seq<byte>)
    ensures Xor(BitsOf(Checksum(bytes), 32), Ones()) == Update(Ones(), bytes)
  {
    var out := Xor(Update(Ones(), bytes), Ones());
    forall i | 0 <= i < 32
      ensures Bit(Checksum(bytes), i) == out[i]
    {
      MaskBit(out, i);
    }
  }

  lemma {:induction false} SameChecksum(crc: u32, bytes: seq<byte>)
    requires Xor(BitsOf(crc, 32), Ones()) == Update(Ones(), bytes)
    ensures crc == Checksum(bytes)
  {
    var bits: Register := BitsOf(crc, 32);
    assert bits == Xor(Update(Ones(), bytes), Ones()) by {
      forall i | 0 <= i < 32
        ensures bits[i] == Xor(Update(Ones(), bytes), Ones())[i]
      {
        assert Xor(bits, Ones())[i] == Update(Ones(), bytes)[i];
      }
    }
    Pow2Of32();
    MaskOfBits(crc, 32);
  }
}
