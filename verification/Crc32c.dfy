/** CRC-32C as the depot slug computation uses it (src/environment.rs): a
    reflected, table-free, bit-at-a-time register that can be chained.

    The loop works on machine words; what it computes is a remainder of
    polynomials over the two-element field: the remainder of textbook long
    division by the Castagnoli generator. */
module Crc32c {
  import opened Polynomials

  /** The reflected Castagnoli polynomial. */
  const POLY: bv32 := 0x82F6_3B78

  // ---- The register, as the loop steps it ----

  function BitStep(c: bv32): bv32 {
    if c & 1 != 0 then (c >> 1) ^ POLY else c >> 1
  }

  function Widened(b: bv8): bv32 {
    b as bv32
  }

  /** Bring a message byte into the low end of the register. */
  function WithByte(c: bv32, b: bv8): bv32 {
    c ^ Widened(b)
  }

  function Complement(c: bv32): bv32 {
    !c
  }

  function Steps(c: bv32, n: nat): bv32
    decreases n, c
  {
    if n == 0 then c else Steps(BitStep(c), n - 1)
  }

  /** The register after `bytes`, before the final complement. */
  function Update(c: bv32, bytes: seq<bv8>): bv32
    decreases bytes
  {
    if bytes == [] then c else Update(Steps(WithByte(c, bytes[0]), 8), bytes[1..])
  }

  function Crc(bytes: seq<bv8>, crc: bv32): bv32 {
    Complement(Update(Complement(crc), bytes))
  }

  method Crc32c(bytes: seq<bv8>, crc: bv32) returns (r: bv32)
    ensures r == Crc(bytes, crc)
  {
    var c := Complement(crc);
    for i := 0 to |bytes|
      invariant Update(c, bytes[i..]) == Update(Complement(crc), bytes)
    {
      assert bytes[i..][0] == bytes[i] && bytes[i..][1..] == bytes[i + 1..];
      c := WithByte(c, bytes[i]);
      ghost var mixed := c;
      for k := 0 to 8
        invariant Steps(c, 8 - k) == Steps(mixed, 8)
      {
        c := BitStep(c);
      }
    }
    r := Complement(c);
  }

  lemma {:induction false} UpdateConcat(c: bv32, a: seq<bv8>, b: seq<bv8>)
    ensures Update(c, a + b) == Update(Update(c, a), b)
    decreases a
  {
    if a == [] {
      assert a + b == b;
    } else {
      assert (a + b)[0] == a[0] && (a + b)[1..] == a[1..] + b;
      UpdateConcat(Steps(WithByte(c, a[0]), 8), a[1..], b);
    }
  }

  lemma ComplementTwice(c: bv32)
    ensures Complement(Complement(c)) == c
  {
  }

  /** Feeding one message after another equals feeding their concatenation,
      which is what hashing a UUID and then a tree hash relies on. */
  lemma {:induction false} CrcChains(a: seq<bv8>, b: seq<bv8>, crc: bv32)
    ensures Crc(b, Crc(a, crc)) == Crc(a + b, crc)
  {
    UpdateConcat(Complement(crc), a, b);
    ComplementTwice(Update(Complement(crc), a));
  }

  // ---- The register as a polynomial ----

  /** The bits of a byte, most significant first. */
  function HighBits(w: bv8): (p: Poly)
    ensures |p| == 8
  {
    [w & 128 != 0, w & 64 != 0, w & 32 != 0, w & 16 != 0, w & 8 != 0, w & 4 != 0, w & 2 != 0, w & 1 != 0]
  }

  lemma GeneratorOfStandard()
    ensures GENERATOR == HighBits(0x1E) + HighBits(0xDC) + HighBits(0x6F) + HighBits(0x41)
  {
  }

  function Half(w: bv32): bv32 {
    w >> 1
  }

  /** The low `n` bits of `w`, least significant first. A register of the
      reflected loop holds its highest-degree coefficient in its lowest bit. */
  function LowBits(w: bv32, n: nat): (bits: seq<bool>)
    ensures |bits| == n
    decreases n, w
  {
    if n == 0 then [] else [w & 1 != 0] + LowBits(Half(w), n - 1)
  }

  function Coefficients(c: bv32): (p: Poly)
    ensures |p| == 32
  {
    LowBits(c, 32)
  }

  /** A message in transmission order: each byte least significant bit first. */
  function Bits(bytes: seq<bv8>): (bits: Poly)
    ensures |bits| == 8 * |bytes|
  {
    if bytes == [] then [] else LowBits(Widened(bytes[0]), 8) + Bits(bytes[1..])
  }

  // ---- From words to polynomials ----

  function Shifted(w: bv32, n: nat): bv32
    decreases n, w
  {
    if n == 0 then w else Shifted(Half(w), n - 1)
  }

  lemma EightHalves(w: bv32)
    ensures Half(Half(Half(Half(Half(Half(Half(Half(w)))))))) == w >> 8
  {
  }

  lemma {:induction false} ShiftedByEight(w: bv32, n: nat)
    ensures Shifted(w, n + 8) == Shifted(w >> 8, n)
  {
    EightHalves(w);
    var w2 := Half(Half(w));
    var w4 := Half(Half(w2));
    var w6 := Half(Half(w4));
    assert Shifted(w, n + 8) == Shifted(w2, n + 6);
    assert Shifted(w2, n + 6) == Shifted(w4, n + 4);
    assert Shifted(w4, n + 4) == Shifted(w6, n + 2);
    assert Shifted(w6, n + 2) == Shifted(Half(Half(w6)), n);
  }

  lemma FourBytes(w: bv32, w1: bv32, w2: bv32, w3: bv32)
    requires w1 == w >> 8 && w2 == w1 >> 8 && w3 == w2 >> 8
    ensures w3 >> 8 == 0
  {
  }

  lemma {:induction false} NothingAboveBit31(w: bv32)
    ensures Shifted(w, 32) == 0
  {
    var w1 := w >> 8;
    var w2 := w1 >> 8;
    var w3 := w2 >> 8;
    ShiftedByEight(w, 24);
    ShiftedByEight(w1, 16);
    ShiftedByEight(w2, 8);
    ShiftedByEight(w3, 0);
    FourBytes(w, w1, w2, w3);
  }

  lemma {:induction false} LowBitsOneMore(w: bv32, n: nat)
    ensures LowBits(w, n + 1) == LowBits(w, n) + [Shifted(w, n) & 1 != 0]
    decreases n
  {
    if n > 0 {
      LowBitsOneMore(Half(w), n - 1);
    }
  }

  lemma {:induction false} LowBitsShift(c: bv32)
    ensures Coefficients(Half(c)) == Coefficients(c)[1..] + [false]
  {
    LowBitsOneMore(Half(c), 31);
    NothingAboveBit31(c);
    assert Shifted(c, 32) == Shifted(Half(c), 31);
  }

  lemma XorHalf(a: bv32, b: bv32)
    ensures Half(a ^ b) == Half(a) ^ Half(b)
    ensures ((a ^ b) & 1 != 0) == ((a & 1 != 0) != (b & 1 != 0))
  {
  }

  lemma {:induction false} LowBitsXor(a: bv32, b: bv32, x: bv32, n: nat)
    requires x == a ^ b
    ensures LowBits(x, n) == Xor(LowBits(a, n), LowBits(b, n))
    decreases n
  {
    if n > 0 {
      XorHalf(a, b);
      LowBitsXor(Half(a), Half(b), Half(x), n - 1);
      UnfoldXor(a, b, x, n);
    }
  }

  lemma UnfoldXor(a: bv32, b: bv32, x: bv32, n: nat)
    requires n > 0
    requires (x & 1 != 0) == ((a & 1 != 0) != (b & 1 != 0))
    requires LowBits(Half(x), n - 1) == Xor(LowBits(Half(a), n - 1), LowBits(Half(b), n - 1))
    ensures LowBits(x, n) == Xor(LowBits(a, n), LowBits(b, n))
  {
  }

  function ByteBits(w: bv32): (p: Poly)
    ensures |p| == 8
  {
    [w & 1 != 0, w & 2 != 0, w & 4 != 0, w & 8 != 0, w & 16 != 0, w & 32 != 0, w & 64 != 0, w & 128 != 0]
  }

  lemma HalfBits(w: bv32)
    ensures ByteBits(Half(w))[..7] == ByteBits(w)[1..]
  {
  }

  lemma {:induction false} OneByte(w: bv32, n: nat)
    ensures LowBits(w, n + 8) == ByteBits(w) + LowBits(w >> 8, n)
  {
    EightHalves(w);
    LowBitsSplit(w, 8, n);
    ShiftedByEight(w, 0);
    EightBits(w);
  }

  lemma {:induction false} EightBits(w: bv32)
    ensures LowBits(w, 8) == ByteBits(w)
  {
    EightBitsFrom(w, 8);
  }

  lemma {:induction false} EightBitsFrom(w: bv32, n: nat)
    requires n <= 8
    ensures LowBits(w, n) == ByteBits(w)[..n]
    decreases n
  {
    if n > 0 {
      HalfBits(w);
      EightBitsFrom(Half(w), n - 1);
      assert ByteBits(w)[..n] == [w & 1 != 0] + ByteBits(w)[1..][..n - 1];
      assert ByteBits(Half(w))[..n - 1] == ByteBits(Half(w))[..7][..n - 1];
    }
  }

  lemma PolyBytes()
    ensures POLY >> 8 == 0x82F63B && (0x82F63B as bv32) >> 8 == 0x82F6
    ensures (0x82F6 as bv32) >> 8 == 0x82 && (0x82 as bv32) >> 8 == 0
  {
  }

  lemma GeneratorBytes()
    ensures ByteBits(POLY) == HighBits(0x1E) && ByteBits(0x82F63B) == HighBits(0xDC)
    ensures ByteBits(0x82F6) == HighBits(0x6F) && ByteBits(0x82) == HighBits(0x41)
  {
  }

  lemma {:induction false} PolyInBytes()
    ensures Coefficients(POLY) == ByteBits(POLY) + ByteBits(0x82F63B) + ByteBits(0x82F6) + ByteBits(0x82)
  {
    PolyBytes();
    OneByte(POLY, 24);
    OneByte(0x82F63B, 16);
    OneByte(0x82F6, 8);
    OneByte(0x82, 0);
  }

  /** The word of the loop, read from its lowest bit, is the generator of section 12.1
      of RFC 3720, 0x11EDC6F41, below its leading coefficient. */
  lemma GeneratorWord()
    ensures Coefficients(POLY) == GENERATOR
    ensures Coefficients(POLY) == HighBits(0x1E) + HighBits(0xDC) + HighBits(0x6F) + HighBits(0x41)
  {
    PolyInBytes();
    GeneratorBytes();
    GeneratorOfStandard();
  }

  /** The word step is multiplication by x modulo the generator. */
  lemma {:induction false} StepTimesX(c: bv32)
    ensures Coefficients(BitStep(c)) == TimesX(Coefficients(c))
  {
    LowBitsShift(c);
    if c & 1 != 0 {
      LowBitsXor(Half(c), POLY, BitStep(c), 32);
      GeneratorWord();
    }
  }

  /** `bits` added into the leading coefficients of `p`, then all of them
      shifted out. */
  lemma {:induction false} StepsAbsorb(c: bv32, p: Poly, bits: Poly)
    requires |p| == 32 && |bits| <= 32
    requires Coefficients(c) == Mix(bits, p)
    ensures Coefficients(Steps(c, |bits|)) == AbsorbAll(p, bits)
    decreases bits
  {
    if bits == [] {
      assert Mix(bits, p) == p;
    } else {
      var q := p[0 := p[0] != bits[0]];
      StepTimesX(c);
      assert Mix(bits, p)[0] == q[0];
      assert Mix(bits, p)[1..] == Mix(bits[1..], p[1..]);
      assert Coefficients(c)[1..] + [false] == Mix(bits[1..], q[1..] + [false]);
      if q[0] {
        assert Xor(Mix(bits[1..], q[1..] + [false]), GENERATOR) == Mix(bits[1..], Xor(q[1..] + [false], GENERATOR));
      }
      StepsAbsorb(BitStep(c), Absorb(p, bits[0]), bits[1..]);
    }
  }

  lemma {:induction false} LowBitsOfZero(n: nat)
    ensures LowBits(0, n) == Zeros(n)
    decreases n
  {
    if n > 0 {
      LowBitsOfZero(n - 1);
    }
  }

  lemma {:induction false} LowBitsSplit(w: bv32, n: nat, m: nat)
    ensures LowBits(w, n + m) == LowBits(w, n) + LowBits(Shifted(w, n), m)
    decreases n
  {
    if n > 0 {
      LowBitsSplit(Half(w), n - 1, m);
    }
  }

  lemma WidenedHasEightBits(b: bv8)
    ensures Widened(b) >> 8 == 0
  {
  }

  lemma {:induction false} WidenedBits(b: bv8)
    ensures Coefficients(Widened(b)) == LowBits(Widened(b), 8) + Zeros(24)
  {
    var w := Widened(b);
    LowBitsSplit(w, 8, 24);
    ShiftedByEight(w, 0);
    WidenedHasEightBits(b);
    LowBitsOfZero(24);
  }

  lemma {:induction false} LowByteMixes(c: bv32, w: bv32, x: bv32, q: Poly)
    requires x == c ^ w && |q| == 8 && Coefficients(w) == q + Zeros(24)
    ensures Coefficients(x) == Mix(q, Coefficients(c))
  {
    LowBitsXor(c, w, x, 32);
    XorIsMix(Coefficients(c), q);
  }

  lemma {:induction false} ByteMixes(c: bv32, b: bv8)
    ensures Coefficients(WithByte(c, b)) == Mix(LowBits(Widened(b), 8), Coefficients(c))
  {
    WidenedBits(b);
    LowByteMixes(c, Widened(b), WithByte(c, b), LowBits(Widened(b), 8));
  }

  lemma {:induction false} UpdateAbsorbs(c: bv32, bytes: seq<bv8>)
    ensures Coefficients(Update(c, bytes)) == AbsorbAll(Coefficients(c), Bits(bytes))
    decreases bytes
  {
    if bytes != [] {
      var first := LowBits(Widened(bytes[0]), 8);
      var x := WithByte(c, bytes[0]);
      ByteMixes(c, bytes[0]);
      StepsAbsorb(x, Coefficients(c), first);
      UpdateAbsorbs(Steps(x, 8), bytes[1..]);
      AbsorbConcat(Coefficients(c), first, Bits(bytes[1..]));
    }
  }

  // ---- The two inversions ----

  /** A polynomial with every coefficient turned over. */
  function Negated(p: Poly): (r: Poly)
    ensures |r| == |p| && forall i :: 0 <= i < |p| ==> r[i] != p[i]
  {
    seq(|p|, i requires 0 <= i < |p| => !p[i])
  }

  lemma ComplementIsXor(c: bv32)
    ensures Complement(c) == c ^ 0xFFFF_FFFF
  {
  }

  lemma OnesInBytes()
    ensures (0xFFFF_FFFF as bv32) >> 8 == 0xFF_FFFF && (0xFF_FFFF as bv32) >> 8 == 0xFFFF
    ensures (0xFFFF as bv32) >> 8 == 0xFF && (0xFF as bv32) >> 8 == 0
    ensures ByteBits(0xFFFF_FFFF) == ByteBits(0xFF_FFFF) == ByteBits(0xFFFF) == ByteBits(0xFF) == Negated(Zeros(8))
  {
  }

  lemma {:induction false} OnesAreSet()
    ensures Coefficients(0xFFFF_FFFF) == Negated(Zeros(32))
  {
    OnesInBytes();
    OneByte(0xFFFF_FFFF, 24);
    OneByte(0xFF_FFFF, 16);
    OneByte(0xFFFF, 8);
    OneByte(0xFF, 0);
    var ones := Negated(Zeros(8));
    assert Negated(Zeros(32)) == ones + ones + ones + ones;
  }

  /** Complementing the register turns over its coefficients. */
  lemma {:induction false} ComplementNegates(c: bv32)
    ensures Coefficients(Complement(c)) == Negated(Coefficients(c))
  {
    hide LowBits;
    ComplementIsXor(c);
    LowBitsXor(c, 0xFFFF_FFFF, Complement(c), 32);
    OnesAreSet();
  }

  /** The reference form: the checksum, with its coefficients turned over, is the
      remainder, under division by the Castagnoli generator, of the message followed
      by 32 zeros, with the turned-over initial value mixed into its first 32
      coefficients. */
  lemma {:induction false} CrcIsRemainder(bytes: seq<bv8>, crc: bv32)
    ensures Negated(Coefficients(Crc(bytes, crc))) == Remainder(Mix(Negated(Coefficients(crc)), Bits(bytes) + Zeros(32)))
  {
    ComplementNegates(Crc(bytes, crc));
    ComplementNegates(crc);
    ComplementTwice(Update(Complement(crc), bytes));
    UpdateAbsorbs(Complement(crc), bytes);
    AbsorbDivides(Coefficients(Complement(crc)), Bits(bytes));
  }

  /** The customary check value: the checksum of the nine digits from 1 to 9. */
  lemma CheckValue()
    ensures Crc([0x31, 0x32, 0x33, 0x34, 0x35, 0x36, 0x37, 0x38, 0x39], 0) == 0xE306_9283
  {
    assert Steps(WithByte(0xFFFFFFFF, 0x31), 8) == 0x6F0A661C;
    assert Steps(WithByte(0x6F0A661C, 0x32), 8) == 0x8CAA3B9F;
    assert Steps(WithByte(0x8CAA3B9F, 0x33), 8) == 0xEF84D04D;
    assert Steps(WithByte(0xEF84D04D, 0x34), 8) == 0x09C50B11;
    assert Steps(WithByte(0x09C50B11, 0x35), 8) == 0xE72EDCCA;
    assert Steps(WithByte(0xE72EDCCA, 0x36), 8) == 0xBECA8E79;
    assert Steps(WithByte(0xBECA8E79, 0x37), 8) == 0xEDBD6815;
    assert Steps(WithByte(0xEDBD6815, 0x38), 8) == 0x9F787F65;
    assert Steps(WithByte(0x9F787F65, 0x39), 8) == 0x1CF96D7C;
    hide Steps, WithByte;
    var digits: seq<bv8> := [0x31, 0x32, 0x33, 0x34, 0x35, 0x36, 0x37, 0x38, 0x39];
  }
}
