/** Arithmetic in GF(2^8), the finite field of FIPS 197 section 4: a byte
    b7..b0 is the polynomial b7*x^7 + ... + b0 with coefficients in GF(2),
    addition is exclusive or, and multiplication is polynomial
    multiplication reduced modulo m(x) = x^8 + x^4 + x^3 + x + 1 (0x11B).

    `Mul` is the reference product: the shift-and-add method of section
    4.2.1, which multiplies by x with `XTime` once per bit of the second
    operand. Everything here is stated on exact bytes 0..255; the loop the
    client actually runs, with its unmasked intermediate values, is modelled
    in the ShamirClient module and shown equal to `Mul`. */
module GF256 {
  import opened Bits

  type byte = x: int | 0 <= x < 256

  const Poly: nat := 0x11B

  /** Field addition (and subtraction): bitwise exclusive or. */
  function Add(a: byte, b: byte): (r: byte)
    ensures r == Xor(a, b)
  {
    Pow2Byte();
    XorBelow(a, b, 8);
    Xor(a, b)
  }

  lemma Pow2Byte()
    ensures Pow2(7) == 128 && Pow2(8) == 256
  {
  }

  /** Multiplication by x (FIPS 197 section 4.2.1): shift left, and when
      the bit shifted out was set, reduce by exclusive or with 0x1B (m(x)
      without its x^8 term). */
  function XTime(a: byte): (r: byte)
    ensures a < 128 ==> r == 2 * a
    ensures a >= 128 ==> r == Xor(2 * a - 256, 0x1B)
  {
    if a < 128 then 2 * a
    else
      Pow2Byte();
      XorBelow(2 * a - 256, 0x1B, 8);
      Xor(2 * a - 256, 0x1B)
  }

  /** `a` when the lowest bit of `b` is set, else 0. */
  function Sel(a: byte, b: nat): (r: byte)
    ensures b % 2 == 1 ==> r == a
    ensures b % 2 == 0 ==> r == 0
  {
    if b % 2 == 1 then a else 0
  }

  /** The shift-and-add product of `a` and `b`: bit i of `b` contributes
      x^i * a. The recursion stops once the remaining bits of `b` are all
      zero; for a byte `b` that is at most eight steps. */
  function Peasant(a: byte, b: nat): byte
    decreases b
  {
    if b == 0 then 0
    else Add(Sel(a, b), Peasant(XTime(a), b / 2))
  }

  /** The field product. */
  function Mul(a: byte, b: byte): byte
  {
    Peasant(a, b)
  }

  // ---------------------------------------------------------------- addition

  lemma AddComm(a: byte, b: byte)
    ensures Add(a, b) == Add(b, a)
  {
    XorComm(a, b);
  }

  lemma AddAssoc(a: byte, b: byte, c: byte)
    ensures Add(Add(a, b), c) == Add(a, Add(b, c))
  {
    XorAssoc(a, b, c);
  }

  /** Every element is its own additive inverse, so subtraction is addition. */
  lemma AddSelf(a: byte)
    ensures Add(a, a) == 0
  {
    XorSelf(a);
  }

  lemma AddZero(a: byte)
    ensures Add(a, 0) == a && Add(0, a) == a
  {
    XorZero(a);
  }

  lemma Add4(p: byte, q: byte, r: byte, s: byte)
    ensures Add(Add(p, q), Add(r, s)) == Add(Add(p, r), Add(q, s))
  {
    Xor4(p, q, r, s);
  }

  /** `Add(a, b) == c` can be solved for either operand. */
  lemma AddCancel(a: byte, b: byte, c: byte)
    requires Add(a, b) == c
    ensures a == Add(c, b) && b == Add(a, c)
  {
    AddAssoc(a, b, b);
    AddSelf(b);
    AddZero(a);
    AddComm(a, b);
    AddAssoc(b, a, a);
    AddSelf(a);
    AddZero(b);
    AddComm(a, c);
  }

  /** Two elements are equal exactly when their difference is zero. */
  lemma AddZeroIff(u: byte, v: byte)
    ensures Add(u, v) == 0 <==> u == v
  {
    if u == v {
      AddSelf(u);
    } else if Add(u, v) == 0 {
      AddCancel(u, v, 0);
      AddZero(v);
    }
  }

  // ------------------------------------------------------------------- xtime

  /** XTime is linear: it distributes over addition. */
  lemma XTimeLinear(a: byte, c: byte)
    ensures XTime(Add(a, c)) == Add(XTime(a), XTime(c))
  {
    if a < 128 && c < 128 {
      XTimeLinearLow(a, c);
    } else if a >= 128 && c < 128 {
      XTimeLinearMixed(a, c);
    } else if a < 128 && c >= 128 {
      XTimeLinearMixed(c, a);
      AddComm(a, c);
      AddComm(XTime(a), XTime(c));
    } else {
      XTimeLinearHigh(a, c);
    }
  }

  lemma XTimeLinearLow(a: byte, c: byte)
    requires a < 128 && c < 128
    ensures XTime(Add(a, c)) == Add(XTime(a), XTime(c))
  {
    Pow2Byte();
    XorBelow(a, c, 7);
    XorDouble(a, c);
  }

  lemma XTimeLinearMixed(a: byte, c: byte)
    requires a >= 128 && c < 128
    ensures XTime(Add(a, c)) == Add(XTime(a), XTime(c))
  {
    Pow2Byte();
    var a' := a - 128;
    XorHigh(a', c, 7);
    XorBelow(a', c, 7);
    assert Add(a, c) == Xor(a', c) + 128;
    XorDouble(a', c);
    assert XTime(Add(a, c)) == Xor(Xor(2 * a', 2 * c), 0x1B);
    XorSwap(2 * a', 2 * c, 0x1B);
  }

  lemma XTimeLinearHigh(a: byte, c: byte)
    requires a >= 128 && c >= 128
    ensures XTime(Add(a, c)) == Add(XTime(a), XTime(c))
  {
    XTimeHighSum(a, c);
    XTimeHighPair(a, c);
  }

  /** The two top bits cancel, so the sum is below 128 and xtime doubles it. */
  lemma XTimeHighSum(a: byte, c: byte)
    requires a >= 128 && c >= 128
    ensures XTime(Add(a, c)) == Xor(2 * (a - 128), 2 * (c - 128))
  {
    Pow2Byte();
    var a', c' := a - 128, c - 128;
    XorHighBoth(a', c', 7);
    XorBelow(a', c', 7);
    XorDouble(a', c');
  }

  /** Both reductions add 0x1B, and the two cancel. */
  lemma XTimeHighPair(a: byte, c: byte)
    requires a >= 128 && c >= 128
    ensures Add(XTime(a), XTime(c)) == Xor(2 * (a - 128), 2 * (c - 128))
  {
    var a', c' := a - 128, c - 128;
    Xor4(2 * a', 0x1B, 2 * c', 0x1B);
    XorSelf(0x1B);
    XorZero(Xor(2 * a', 2 * c'));
  }

  // ----------------------------------------------------- shift-and-add product

  /** The recursion step also holds once `b` is zero. */
  lemma PeasantUnfold(a: byte, b: nat)
    ensures Peasant(a, b) == Add(Sel(a, b), Peasant(XTime(a), b / 2))
  {
    if b == 0 {
      AddZero(0);
    }
  }

  lemma {:induction false} PeasantZeroLeft(b: nat)
    ensures Peasant(0, b) == 0
    decreases b
  {
    if b > 0 {
      PeasantZeroLeft(b / 2);
      AddZero(0);
    }
  }

  lemma SelLinearLeft(a: byte, c: byte, b: nat)
    ensures Sel(Add(a, c), b) == Add(Sel(a, b), Sel(c, b))
  {
    AddZero(0);
  }

  lemma SelLinearRight(a: byte, b: nat, d: nat)
    ensures Sel(a, Xor(b, d)) == Add(Sel(a, b), Sel(a, d))
  {
    XorStep(b, d);
    SelParity(a, Xor(b, d), b, d);
  }

  lemma SelParity(a: byte, e: nat, u: nat, v: nat)
    requires e % 2 == (u % 2 + v % 2) % 2
    ensures Sel(a, e) == Add(Sel(a, u), Sel(a, v))
  {
    AddZero(a);
    AddZero(0);
    AddSelf(a);
  }

  /** The product is linear in its first operand. */
  lemma {:induction false} PeasantLinearLeft(a: byte, c: byte, b: nat)
    ensures Peasant(Add(a, c), b) == Add(Peasant(a, b), Peasant(c, b))
    decreases b
  {
    if b == 0 {
      AddZero(0);
    } else {
      XTimeLinear(a, c);
      SelLinearLeft(a, c, b);
      PeasantLinearLeft(XTime(a), XTime(c), b / 2);
      Add4(Sel(a, b), Sel(c, b), Peasant(XTime(a), b / 2), Peasant(XTime(c), b / 2));
    }
  }

  /** The product is linear in its second operand. */
  lemma {:induction false} PeasantLinearRight(a: byte, b: nat, d: nat)
    ensures Peasant(a, Xor(b, d)) == Add(Peasant(a, b), Peasant(a, d))
    decreases b + d
  {
    if b == 0 || d == 0 {
      XorZero(b);
      XorZero(d);
      AddZero(Peasant(a, b));
      AddZero(Peasant(a, d));
    } else {
      XorStep(b, d);
      PeasantUnfold(a, Xor(b, d));
      SelLinearRight(a, b, d);
      PeasantLinearRight(XTime(a), b / 2, d / 2);
      Add4(Sel(a, b), Sel(a, d), Peasant(XTime(a), b / 2), Peasant(XTime(a), d / 2));
    }
  }

  /** Multiplying the first operand by x multiplies the product by x. */
  lemma {:induction false} PeasantXTime(a: byte, b: nat)
    ensures Peasant(XTime(a), b) == XTime(Peasant(a, b))
    decreases b
  {
    if b > 0 {
      PeasantXTime(XTime(a), b / 2);
      XTimeLinear(Sel(a, b), Peasant(XTime(a), b / 2));
    }
  }

  /** The product of 2^j with `b` is `b` shifted up by j, as long as
      nothing reaches bit 8 (so no reduction happens). */
  lemma {:induction false} PeasantPow2(j: nat, b: nat)
    requires Pow2(j) < 256 && b * Pow2(j) < 256
    ensures Peasant(Pow2(j), b) == b * Pow2(j)
    decreases b
  {
    var p := Pow2(j);
    if b == 1 {
      AddZero(p);
    } else if b >= 2 {
      MulAtLeast(2 * p, b / 2);
      PeasantPow2(j + 1, b / 2);
      PeasantPow2Step(j, b);
    }
  }

  lemma PeasantPow2Step(j: nat, b: nat)
    requires b >= 2 && Pow2(j + 1) < 256 && b * Pow2(j) < 256
    requires Peasant(Pow2(j + 1), b / 2) == (b / 2) * Pow2(j + 1)
    ensures Peasant(Pow2(j), b) == b * Pow2(j)
  {
    var p := Pow2(j);
    assert p < 128 by {
      MulAtLeast(p, b / 2);
    }
    assert XTime(p) == Pow2(j + 1);
    var r, m := b % 2, b / 2;
    assert Sel(p, b) == r * p;
    assert Peasant(p, b) == Xor(r * p, m * Pow2(j + 1));
    XorDisjoint(r, m, j);
    ShiftSum(r, m, p);
  }

  lemma ShiftSum(r: nat, m: nat, p: nat)
    ensures r * p + m * (2 * p) == (r + 2 * m) * p
  {
  }

  // ------------------------------------------------------------ field laws

  lemma MulOneLeft(b: byte)
    ensures Mul(1, b) == b
  {
    PeasantPow2(0, b);
  }

  lemma MulOneRight(a: byte)
    ensures Mul(a, 1) == a
  {
    AddZero(a);
  }

  lemma MulZero(a: byte)
    ensures Mul(a, 0) == 0 && Mul(0, a) == 0
  {
    PeasantZeroLeft(a);
  }

  lemma SelMul(a: byte, b: byte, c: nat)
    ensures Sel(Mul(a, b), c) == Mul(Sel(a, c), b)
  {
    MulZero(b);
  }

  /** (a * b) * c == (a * c) * b. */
  lemma {:induction false} Shuffle(a: byte, b: byte, c: nat)
    ensures Peasant(Mul(a, b), c) == Mul(Peasant(a, c), b)
    decreases c
  {
    if c == 0 {
      MulZero(b);
    } else {
      PeasantXTime(a, b);
      Shuffle(XTime(a), b, c / 2);
      SelMul(a, b, c);
      PeasantLinearLeft(Sel(a, c), Peasant(XTime(a), c / 2), b);
    }
  }

  lemma MulComm(a: byte, b: byte)
    ensures Mul(a, b) == Mul(b, a)
  {
    Shuffle(1, a, b);
    MulOneLeft(a);
    MulOneLeft(b);
  }

  lemma MulAssoc(a: byte, b: byte, c: byte)
    ensures Mul(Mul(a, b), c) == Mul(a, Mul(b, c))
  {
    Shuffle(b, a, c);
    MulComm(a, b);
    MulComm(Mul(b, c), a);
  }

  lemma MulDistLeft(a: byte, b: byte, c: byte)
    ensures Mul(a, Add(b, c)) == Add(Mul(a, b), Mul(a, c))
  {
    PeasantLinearRight(a, b, c);
  }

  lemma MulDistRight(a: byte, b: byte, c: byte)
    ensures Mul(Add(a, b), c) == Add(Mul(a, c), Mul(b, c))
  {
    PeasantLinearLeft(a, b, c);
  }
}
