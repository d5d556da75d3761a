/** Polynomials over the two-element field, as coefficient sequences, and a
    register of 32 coefficients that absorbs a message modulo the generator. */
module Polynomials {
  /** Coefficients, highest degree first. */
  type Poly = seq<bool>

  /** The generator's coefficients below the leading x^32. */
  const GENERATOR: Poly := [
    false, false, false, true, true, true, true, false,
    true, true, false, true, true, true, false, false,
    false, true, true, false, true, true, true, true,
    false, true, false, false, false, false, false, true]

  function Zeros(n: nat): (p: Poly)
    ensures |p| == n && forall i :: 0 <= i < n ==> !p[i]
  {
    seq(n, _ => false)
  }

  /** Addition of polynomials of equal length, which is also subtraction. */
  function Xor(p: Poly, q: Poly): (r: Poly)
    requires |p| == |q|
    ensures |r| == |p| && forall i :: 0 <= i < |p| ==> r[i] == (p[i] != q[i])
  {
    seq(|p|, i requires 0 <= i < |p| => p[i] != q[i])
  }

  /** `q` with `p` added into its leading coefficients. */
  function Mix(p: Poly, q: Poly): (r: Poly)
    requires |p| <= |q|
    ensures |r| == |q|
  {
    Xor(p, q[..|p|]) + q[|p|..]
  }

  /** Long division by the generator: while the dividend has more than 32
      coefficients, cancel its leading one by subtracting the generator. */
  function Remainder(dividend: Poly): (r: Poly)
    requires |dividend| >= 32
    ensures |r| == 32
    decreases |dividend|
  {
    if |dividend| == 32 then dividend
    else if dividend[0] then Remainder(Mix(GENERATOR, dividend[1..]))
    else Remainder(dividend[1..])
  }

  // ---- Multiples of the generator ----

  /** The generator with its leading coefficient. */
  const DIVISOR: Poly := [true] + GENERATOR

  /** Schoolbook multiplication: a copy of `g` for each coefficient of `q` that is
      set, shifted to its place. */
  function Multiply(q: Poly, g: Poly): (r: Poly)
    requires g != []
    ensures |r| == |q| + |g| - 1
  {
    if q == [] then Zeros(|g| - 1)
    else
      var rest := [false] + Multiply(q[1..], g);
      if q[0] then Mix(g, rest) else rest
  }

  /** Subtracting the shifted generator cancels a leading coefficient and changes
      what follows as the rest of the generator does. */
  lemma CancelLeading(g: Poly, rest: Poly)
    requires |g| <= |rest|
    ensures Mix([true] + g, [false] + rest) == [true] + Mix(g, rest)
    ensures Mix(g, Mix(g, rest)) == rest
  {
  }

  lemma DivisionStep(g: Poly, b: bool, rest: Poly, product: Poly, left: Poly)
    requires |g| <= |rest| == |product| == |left|
    requires (if b then Mix(g, rest) else rest) == Xor(product, left)
    ensures [b] + rest == Xor(if b then Mix([true] + g, [false] + product) else [false] + product, [false] + left)
  {
    hide Mix, Xor;
    CancelLeading(g, rest);
    CancelLeading(g, product);
    MixOverXor(g, product, left);
    XorCons(true, false, Mix(g, product), left);
    XorCons(false, false, product, left);
  }

  lemma MixOverXor(g: Poly, p: Poly, q: Poly)
    requires |g| <= |p| == |q|
    ensures Mix(g, Xor(p, q)) == Xor(Mix(g, p), q)
  {
  }

  lemma XorCons(x: bool, y: bool, p: Poly, q: Poly)
    requires |p| == |q|
    ensures Xor([x] + p, [y] + q) == [x != y] + Xor(p, q)
  {
  }

  /** Division: every dividend is a multiple of the generator plus its remainder. */
  lemma {:induction false} Division(dividend: Poly) returns (q: Poly)
    requires |dividend| >= 32
    ensures |q| == |dividend| - 32 && dividend == Xor(Multiply(q, DIVISOR), Zeros(|q|) + Remainder(dividend))
    decreases |dividend|
  {
    if |dividend| == 32 {
      q := [];
    } else {
      var rest := dividend[1..];
      var next := if dividend[0] then Mix(GENERATOR, rest) else rest;
      var tail := Division(next);
      q := [dividend[0]] + tail;
      assert q[1..] == tail;
      var product, left := Multiply(tail, DIVISOR), Zeros(|tail|) + Remainder(next);
      DivisionStep(GENERATOR, dividend[0], rest, product, left);
      MoreZeros(|tail|, Remainder(next));
      assert Remainder(dividend) == Remainder(next);
      assert Multiply(q, DIVISOR) == if dividend[0] then Mix(DIVISOR, [false] + product) else [false] + product;
      hide Mix, Xor, Zeros, Multiply, Remainder;
      assert dividend == [dividend[0]] + rest;
    }
  }

  lemma MoreZeros(n: nat, p: Poly)
    ensures Zeros(n + 1) + p == [false] + (Zeros(n) + p)
  {
  }

  lemma {:induction false} MultiplesLeaveNothing(q: Poly)
    ensures Remainder(Multiply(q, DIVISOR)) == Zeros(32)
    decreases q
  {
    if q != [] {
      var product := Multiply(q[1..], DIVISOR);
      CancelLeading(GENERATOR, product);
      MultiplesLeaveNothing(q[1..]);
      var d := Multiply(q, DIVISOR);
      assert d == [q[0]] + if q[0] then Mix(GENERATOR, product) else product;
      hide Mix, Multiply, Zeros;
      assert d[1..] == if q[0] then Mix(GENERATOR, product) else product;
    }
  }

  /** The remainder is zero exactly for the multiples of the generator. */
  lemma {:induction false} ZeroRemainderIsMultiple(dividend: Poly)
    requires |dividend| >= 32
    ensures Remainder(dividend) == Zeros(32) <==> exists q: Poly :: |q| == |dividend| - 32 && Multiply(q, DIVISOR) == dividend
  {
    if Remainder(dividend) == Zeros(32) {
      var q := Division(dividend);
      assert Zeros(|q|) + Zeros(32) == Zeros(|dividend|);
      assert Xor(Multiply(q, DIVISOR), Zeros(|dividend|)) == Multiply(q, DIVISOR);
    }
    if q: Poly :| |q| == |dividend| - 32 && Multiply(q, DIVISOR) == dividend {
      MultiplesLeaveNothing(q);
    }
  }

  // ---- A register that absorbs a message ----

  /** Multiply by x and reduce modulo the generator. */
  function TimesX(p: Poly): (r: Poly)
    requires |p| == 32
    ensures |r| == 32
  {
    var q := p[1..] + [false];
    if p[0] then Xor(q, GENERATOR) else q
  }

  /** Take in the next message coefficient. */
  function Absorb(p: Poly, b: bool): (r: Poly)
    requires |p| == 32
    ensures |r| == 32
  {
    TimesX(p[0 := p[0] != b])
  }

  function AbsorbAll(p: Poly, bits: Poly): (r: Poly)
    requires |p| == 32
    ensures |r| == 32
    decreases bits
  {
    if bits == [] then p else AbsorbAll(Absorb(p, bits[0]), bits[1..])
  }

  lemma {:induction false} AbsorbConcat(p: Poly, a: Poly, b: Poly)
    requires |p| == 32
    ensures AbsorbAll(p, a + b) == AbsorbAll(AbsorbAll(p, a), b)
    decreases a
  {
    if a == [] {
      assert a + b == b;
    } else {
      assert (a + b)[0] == a[0] && (a + b)[1..] == a[1..] + b;
      AbsorbConcat(Absorb(p, a[0]), a[1..], b);
    }
  }

  /** Absorbing a message coefficient by coefficient is long division of the
      message, followed by 32 zeros and with the register mixed in in front. */
  lemma {:induction false} AbsorbDivides(p: Poly, bits: Poly)
    requires |p| == 32
    ensures AbsorbAll(p, bits) == Remainder(Mix(p, bits + Zeros(32)))
    decreases bits
  {
    var d := Mix(p, bits + Zeros(32));
    if bits == [] {
      assert d == p;
    } else {
      var rest := bits[1..] + Zeros(32);
      var q := p[1..] + [false];
      assert (bits + Zeros(32))[1..] == rest;
      assert d[0] == (p[0] != bits[0]);
      assert d[1..] == Mix(q, rest);
      if d[0] {
        assert Mix(GENERATOR, d[1..]) == Mix(Xor(q, GENERATOR), rest);
      }
      assert p[0 := d[0]][1..] == p[1..];
      AbsorbDivides(Absorb(p, bits[0]), bits[1..]);
    }
  }

  lemma XorIsMix(p: Poly, q: Poly)
    requires |p| == 32 && |q| == 8
    ensures Xor(p, q + Zeros(24)) == Mix(q, p)
  {
  }

  // ---- What the register cannot miss ----

  /** Only the pattern of differences decides whether two messages collide. */
  lemma {:induction false} RegisterIsLinear(p: Poly, q: Poly, a: Poly, b: Poly)
    requires |p| == |q| == 32 && |a| == |b|
    ensures Xor(AbsorbAll(p, a), AbsorbAll(q, b)) == AbsorbAll(Xor(p, q), Xor(a, b))
    decreases a
  {
    if a != [] {
      assert Xor(a, b)[1..] == Xor(a[1..], b[1..]);
      assert Absorb(Xor(p, q), a[0] != b[0]) == Xor(Absorb(p, a[0]), Absorb(q, b[0]));
      RegisterIsLinear(Absorb(p, a[0]), Absorb(q, b[0]), a[1..], b[1..]);
    }
  }

  /** A register that up to 31 further coefficients bring to zero has nothing
      set beyond them: the generator's constant term would show. */
  lemma {:induction false} ZeroedIsShort(p: Poly, bits: Poly)
    requires |p| == 32 && |bits| <= 31
    requires AbsorbAll(p, bits) == Zeros(32)
    ensures forall i :: |bits| <= i < 32 ==> !p[i]
    decreases bits
  {
    if bits != [] {
      var d := Absorb(p, bits[0]);
      ZeroedIsShort(d, bits[1..]);
      assert !d[31] && GENERATOR[31];
      forall i | |bits| <= i < 32
        ensures !p[i]
      {
        assert d[i - 1] == p[i];
      }
    }
  }

  lemma {:induction false} QuietUntilSet(bits: Poly, i: nat)
    requires i <= |bits|
    requires forall k :: 0 <= k < i ==> !bits[k]
    ensures AbsorbAll(Zeros(32), bits) == AbsorbAll(Zeros(32), bits[i..])
    decreases i
  {
    if i > 0 {
      assert Absorb(Zeros(32), false) == Zeros(32);
      assert bits[1..][i - 1..] == bits[i..];
      QuietUntilSet(bits[1..], i - 1);
    }
  }

  lemma {:induction false} BurstNeverCancels(bits: Poly)
    requires |bits| <= 32
    requires exists k :: 0 <= k < |bits| && bits[k]
    ensures AbsorbAll(Zeros(32), bits) != Zeros(32)
    decreases bits
  {
    if bits[0] {
      if AbsorbAll(Zeros(32), bits) == Zeros(32) {
        var p := Absorb(Zeros(32), true);
        assert p[31] by {
          assert GENERATOR[31];
        }
        ZeroedIsShort(p, bits[1..]);
        assert false;
      }
    } else {
      var k :| 0 <= k < |bits| && bits[k];
      assert bits[1..][k - 1];
      assert Absorb(Zeros(32), false) == Zeros(32);
      BurstNeverCancels(bits[1..]);
    }
  }

  lemma {:induction false} ZeroTail(p: Poly, bits: Poly)
    requires |p| == 32 && AbsorbAll(p, bits) == Zeros(32)
    requires forall k :: 0 <= k < |bits| ==> !bits[k]
    ensures p == Zeros(32)
    decreases bits
  {
    if bits != [] {
      var d := Absorb(p, false);
      ZeroTail(d, bits[1..]);
      assert p[0 := p[0] != false] == p;
      assert GENERATOR[31] && !d[31];
      forall i | 0 <= i < 32
        ensures !p[i]
      {
        if i > 0 {
          assert d[i - 1] == p[i];
        }
      }
    }
  }

  lemma SplitBurst(d: Poly, at: nat, end: nat)
    requires at <= end <= |d|
    ensures d[at..] == d[at..end] + d[end..]
  {
  }

  lemma {:induction false} BurstInMessage(d: Poly, at: nat)
    requires exists k :: 0 <= k < |d| && d[k]
    requires forall i :: 0 <= i < |d| && d[i] ==> at <= i < at + 32
    ensures AbsorbAll(Zeros(32), d) != Zeros(32)
  {
    var k :| 0 <= k < |d| && d[k];
    var end := if at + 32 <= |d| then at + 32 else |d|;
    QuietUntilSet(d, at);
    var burst := d[at..end];
    assert burst[k - at];
    BurstNeverCancels(burst);
    SplitBurst(d, at, end);
    AbsorbConcat(Zeros(32), burst, d[end..]);
    if AbsorbAll(Zeros(32), d) == Zeros(32) {
      ZeroTail(AbsorbAll(Zeros(32), burst), d[end..]);
    }
  }

  // ---- Parity: the generator is divisible by x + 1 ----

  /** Whether an odd number of coefficients is set. */
  function Odd(p: Poly): bool {
    if p == [] then false else p[0] != Odd(p[1..])
  }

  lemma {:induction false} OddConcat(p: Poly, q: Poly)
    ensures Odd(p + q) == (Odd(p) != Odd(q))
  {
    if p == [] {
      assert p + q == q;
    } else {
      assert (p + q)[1..] == p[1..] + q;
      OddConcat(p[1..], q);
    }
  }

  lemma {:induction false} OddXor(p: Poly, q: Poly)
    requires |p| == |q|
    ensures Odd(Xor(p, q)) == (Odd(p) != Odd(q))
  {
    if p != [] {
      assert Xor(p, q)[1..] == Xor(p[1..], q[1..]);
      OddXor(p[1..], q[1..]);
    }
  }

  lemma OddNibble(a: bool, b: bool, c: bool, d: bool, rest: Poly)
    ensures Odd([a, b, c, d] + rest) == (a != (b != (c != (d != Odd(rest)))))
  {
    var p := [a, b, c, d] + rest;
    var q := p[1..][1..];
    assert Odd(p) == (a != (b != Odd(q)));
    assert Odd(q) == (c != (d != Odd(q[1..][1..])));
    assert q[1..][1..] == rest;
  }

  lemma GeneratorIsOdd()
    ensures Odd(GENERATOR)
  {
    var g7 := [false, false, false, true] + [];
    var g6 := [false, true, false, false] + g7;
    var g5 := [true, true, true, true] + g6;
    var g4 := [false, true, true, false] + g5;
    var g3 := [true, true, false, false] + g4;
    var g2 := [true, true, false, true] + g3;
    var g1 := [true, true, true, false] + g2;
    OddNibble(false, false, false, true, []);
    OddNibble(false, true, false, false, g7);
    OddNibble(true, true, true, true, g6);
    OddNibble(false, true, true, false, g5);
    OddNibble(true, true, false, false, g4);
    OddNibble(true, true, false, true, g3);
    OddNibble(true, true, true, false, g2);
    OddNibble(false, false, false, true, g1);
    assert GENERATOR == [false, false, false, true] + g1;
  }

  lemma {:induction false} AbsorbParity(p: Poly, b: bool)
    requires |p| == 32
    ensures Odd(Absorb(p, b)) == (Odd(p) != b)
  {
    var q := p[1..] + [false];
    OddConcat(p[1..], [false]);
    OddXor(q, GENERATOR);
    GeneratorIsOdd();
    assert p[0 := p[0] != b][1..] == p[1..];
  }

  lemma {:induction false} RegisterParity(p: Poly, bits: Poly)
    requires |p| == 32
    ensures Odd(AbsorbAll(p, bits)) == (Odd(p) != Odd(bits))
    decreases bits
  {
    if bits != [] {
      AbsorbParity(p, bits[0]);
      RegisterParity(Absorb(p, bits[0]), bits[1..]);
    }
  }

  lemma {:induction false} ZerosAreEven(n: nat)
    ensures !Odd(Zeros(n))
  {
    if n > 0 {
      assert Zeros(n)[1..] == Zeros(n - 1);
      ZerosAreEven(n - 1);
    }
  }
}
