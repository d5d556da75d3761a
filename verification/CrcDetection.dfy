/** What the checksum always detects (src/environment.rs): two messages of equal
    length collide exactly when their difference is divisible by the generator, so
    they are told apart whenever their differences fit in 32 consecutive bits, or
    are odd in number. */
module CrcDetection {
  import opened Polynomials
  import opened Crc32c

  lemma LowBitDecides(a: bv32, b: bv32)
    requires Half(a) == Half(b) && (a & 1 != 0) == (b & 1 != 0)
    ensures a == b
  {
  }

  lemma {:induction false} LowBitsInjective(a: bv32, b: bv32, n: nat)
    requires LowBits(a, n) == LowBits(b, n) && Shifted(a, n) == Shifted(b, n)
    ensures a == b
    decreases n
  {
    if n > 0 {
      assert LowBits(a, n)[0] == LowBits(b, n)[0];
      assert LowBits(a, n)[1..] == LowBits(Half(a), n - 1) && LowBits(b, n)[1..] == LowBits(Half(b), n - 1);
      LowBitsInjective(Half(a), Half(b), n - 1);
      LowBitDecides(a, b);
    }
  }

  lemma WidenedInjective(a: bv8, b: bv8)
    requires Widened(a) == Widened(b)
    ensures a == b
  {
    assert Widened(a) as bv8 == Widened(b) as bv8;
  }

  lemma {:induction false} BitsInjective(a: seq<bv8>, b: seq<bv8>)
    requires Bits(a) == Bits(b)
    ensures a == b
  {
    if a != [] {
      var x, y := Widened(a[0]), Widened(b[0]);
      assert Bits(a)[..8] == LowBits(x, 8) && Bits(b)[..8] == LowBits(y, 8);
      assert Bits(a)[8..] == Bits(a[1..]) && Bits(b)[8..] == Bits(b[1..]);
      ShiftedByEight(x, 0);
      ShiftedByEight(y, 0);
      WidenedHasEightBits(a[0]);
      WidenedHasEightBits(b[0]);
      LowBitsInjective(x, y, 8);
      WidenedInjective(a[0], b[0]);
      BitsInjective(a[1..], b[1..]);
    }
  }

  /** Two messages of equal length collide exactly when their differences leave an
      empty register empty. */
  lemma {:induction false} CollisionIsZeroRegister(a: seq<bv8>, b: seq<bv8>, crc: bv32)
    requires |a| == |b|
    ensures Crc(a, crc) == Crc(b, crc) <==> AbsorbAll(Zeros(32), Xor(Bits(a), Bits(b))) == Zeros(32)
  {
    var c := Complement(crc);
    var x, y := Update(c, a), Update(c, b);
    ComplementTwice(x);
    ComplementTwice(y);
    var p, q := Coefficients(x), Coefficients(y);
    UpdateAbsorbs(c, a);
    UpdateAbsorbs(c, b);
    RegisterIsLinear(Coefficients(c), Coefficients(c), Bits(a), Bits(b));
    assert Xor(Coefficients(c), Coefficients(c)) == Zeros(32);
    if Xor(p, q) == Zeros(32) {
      assert p == q;
      NothingAboveBit31(x);
      NothingAboveBit31(y);
      LowBitsInjective(x, y, 32);
    }
    if x == y {
      assert Xor(p, q) == Zeros(32);
    }
  }

  /** Two messages of equal length collide exactly when the polynomial of their
      differences, followed by 32 zeros, is a multiple of the generator. */
  lemma {:induction false} CollisionIsMultiple(a: seq<bv8>, b: seq<bv8>, crc: bv32)
    requires |a| == |b|
    ensures Crc(a, crc) == Crc(b, crc) <==>
      exists q: Poly :: |q| == 8 * |a| && Multiply(q, DIVISOR) == Xor(Bits(a), Bits(b)) + Zeros(32)
  {
    var d := Xor(Bits(a), Bits(b));
    CollisionIsZeroRegister(a, b, crc);
    AbsorbDivides(Zeros(32), d);
    assert Mix(Zeros(32), d + Zeros(32)) == d + Zeros(32);
    ZeroRemainderIsMultiple(d + Zeros(32));
  }

  /** Distinct messages of equal length that differ only inside 32 consecutive
      bits, wherever those start, never share a checksum. */
  lemma {:induction false} DetectsBursts(a: seq<bv8>, b: seq<bv8>, crc: bv32, at: nat)
    requires |a| == |b| && a != b
    requires forall i :: 0 <= i < 8 * |a| && Bits(a)[i] != Bits(b)[i] ==> at <= i < at + 32
    ensures Crc(a, crc) != Crc(b, crc)
  {
    var d := Xor(Bits(a), Bits(b));
    if forall k :: 0 <= k < |d| ==> !d[k] {
      assert Bits(a) == Bits(b) by {
        assert forall i :: 0 <= i < |d| ==> d[i] == (Bits(a)[i] != Bits(b)[i]);
      }
      BitsInjective(a, b);
    }
    BurstInMessage(d, at);
    CollisionIsZeroRegister(a, b, crc);
  }

  lemma {:induction false} BitsConcat(a: seq<bv8>, b: seq<bv8>)
    ensures Bits(a + b) == Bits(a) + Bits(b)
  {
    if a == [] {
      assert a + b == b;
    } else {
      assert (a + b)[1..] == a[1..] + b;
      BitsConcat(a[1..], b);
    }
  }

  /** The byte-aligned case: any change confined to four consecutive bytes. */
  lemma {:induction false} DetectsFourByteChanges(before: seq<bv8>, x: seq<bv8>, y: seq<bv8>, after: seq<bv8>, crc: bv32)
    requires |x| == |y| <= 4 && x != y
    ensures Crc(before + x + after, crc) != Crc(before + y + after, crc)
  {
    var a, b := before + x + after, before + y + after;
    BitsConcat(before + x, after);
    BitsConcat(before + y, after);
    BitsConcat(before, x);
    BitsConcat(before, y);
    assert a[|before|..|before| + |x|] == x && b[|before|..|before| + |x|] == y;
    DetectsBursts(a, b, crc, 8 * |before|);
  }

  /** Any odd number of flipped bits, anywhere in a message, is detected. */
  lemma {:induction false} DetectsOddFlips(a: seq<bv8>, b: seq<bv8>, crc: bv32)
    requires |a| == |b| && Odd(Xor(Bits(a), Bits(b)))
    ensures Crc(a, crc) != Crc(b, crc)
  {
    ZerosAreEven(32);
    RegisterParity(Zeros(32), Xor(Bits(a), Bits(b)));
    CollisionIsZeroRegister(a, b, crc);
  }
}
