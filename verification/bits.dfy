/** Non-negative integers read as bit strings: powers of two and bitwise
    exclusive or. JavaScript's `^`, `&`, `<<` and `>>` work on 32-bit
    integers; every operand the modelled code feeds them is a small
    non-negative value, so they are modelled on `nat`, with `x & 1` as
    `x % 2`, `x >> 1` as `x / 2`, `x << 1` as `2 * x` and `x & 0xFF` as
    `x % 256`. */
module Bits {

  function Pow2(k: nat): (r: nat)
    ensures r >= 1
  {
    if k == 0 then 1 else 2 * Pow2(k - 1)
  }

  /** Bitwise exclusive or, bit 0 first. */
  function Xor(a: nat, b: nat): nat
    decreases a + b
  {
    if a == 0 then b
    else if b == 0 then a
    else (a % 2 + b % 2) % 2 + 2 * Xor(a / 2, b / 2)
  }

  /** The lowest bit of `Xor(a, b)` is the exclusive or of the lowest bits,
      and the remaining bits are the exclusive or of the remaining bits. */
  lemma XorStep(a: nat, b: nat)
    ensures Xor(a, b) % 2 == (a % 2 + b % 2) % 2
    ensures Xor(a, b) / 2 == Xor(a / 2, b / 2)
  {
    XorZero(a / 2);
    XorZero(b / 2);
    if a != 0 && b != 0 {
      var t, x := (a % 2 + b % 2) % 2, Xor(a / 2, b / 2);
      assert Xor(a, b) == t + 2 * x;
      HalveSum(t, x);
    }
  }

  lemma HalveSum(t: nat, x: nat)
    requires t <= 1
    ensures (t + 2 * x) % 2 == t && (t + 2 * x) / 2 == x
  {
  }

  /** Two naturals with the same lowest bit and the same upper bits are equal. */
  lemma SameBits(x: nat, y: nat)
    requires x % 2 == y % 2 && x / 2 == y / 2
    ensures x == y
  {
  }

  lemma {:induction false} XorComm(a: nat, b: nat)
    ensures Xor(a, b) == Xor(b, a)
    decreases a + b
  {
    if a != 0 && b != 0 {
      XorComm(a / 2, b / 2);
    }
  }

  lemma {:induction false} XorAssoc(a: nat, b: nat, c: nat)
    ensures Xor(Xor(a, b), c) == Xor(a, Xor(b, c))
    decreases a + b + c
  {
    if a + b + c != 0 {
      XorAssoc(a / 2, b / 2, c / 2);
      XorAssocStep(a, b, c);
    }
  }

  /** One bit of `XorAssoc`: if the upper bits regroup, the whole does. */
  lemma XorAssocStep(a: nat, b: nat, c: nat)
    requires Xor(Xor(a / 2, b / 2), c / 2) == Xor(a / 2, Xor(b / 2, c / 2))
    ensures Xor(Xor(a, b), c) == Xor(a, Xor(b, c))
  {
    XorAssocParity(a, b, c);
    XorAssocHalf(a, b, c);
    SameBits(Xor(Xor(a, b), c), Xor(a, Xor(b, c)));
  }

  lemma XorAssocParity(a: nat, b: nat, c: nat)
    ensures Xor(Xor(a, b), c) % 2 == Xor(a, Xor(b, c)) % 2
  {
    XorParity(a, b);
    XorParity(Xor(a, b), c);
    XorParity(b, c);
    XorParity(a, Xor(b, c));
  }

  lemma XorAssocHalf(a: nat, b: nat, c: nat)
    ensures Xor(Xor(a, b), c) / 2 == Xor(Xor(a / 2, b / 2), c / 2)
    ensures Xor(a, Xor(b, c)) / 2 == Xor(a / 2, Xor(b / 2, c / 2))
  {
    XorStep(a, b);
    XorStep(Xor(a, b), c);
    XorStep(b, c);
    XorStep(a, Xor(b, c));
  }

  /** Bit 0 of an exclusive or is set exactly when the operands' bits 0 differ. */
  lemma XorParity(a: nat, b: nat)
    ensures Xor(a, b) % 2 == if a % 2 == b % 2 then 0 else 1
  {
    XorStep(a, b);
  }

  lemma {:induction false} XorSelf(a: nat)
    ensures Xor(a, a) == 0
    decreases a
  {
    if a != 0 {
      XorStep(a, a);
      XorSelf(a / 2);
      SameBits(Xor(a, a), 0);
    }
  }

  lemma XorZero(a: nat)
    ensures Xor(a, 0) == a && Xor(0, a) == a
  {
    if a != 0 {
      assert Xor(a, 0) == a;
    }
  }

  /** Exclusive or of two numbers below 2^k stays below 2^k. */
  lemma {:induction false} XorBelow(a: nat, b: nat, k: nat)
    requires a < Pow2(k) && b < Pow2(k)
    ensures Xor(a, b) < Pow2(k)
    decreases k
  {
    if k > 0 {
      XorStep(a, b);
      XorBelow(a / 2, b / 2, k - 1);
    }
  }

  /** Euclidean division is unique. */
  lemma DivModUnique(x: int, d: int, q: int, r: int)
    requires d > 0 && x == d * q + r && 0 <= r < d
    ensures x / d == q && x % d == r
  {
    var q', r' := x / d, x % d;
    assert x == d * q' + r';
    assert d * q - d * q' == r' - r;
    assert d * (q - q') == d * q - d * q';
    if q > q' {
      MulAtLeast(d, q - q');
      assert false;
    } else if q < q' {
      MulAtLeast(d, q' - q);
      assert false;
    }
  }

  lemma MulAtLeast(d: int, e: int)
    ensures d > 0 && e >= 1 ==> d * e >= d
  {
    if d > 0 && e >= 1 {
      assert d * e == d * (e - 1) + d;
    }
  }

  lemma ModPow2Split(x: nat, k: nat)
    requires k >= 1
    ensures x % Pow2(k) == x % 2 + 2 * ((x / 2) % Pow2(k - 1))
  {
    var p := Pow2(k - 1);
    var q := x / 2;
    var q1, r1 := q / p, q % p;
    assert x == 2 * q + x % 2;
    assert q == p * q1 + r1;
    assert x == (2 * p) * q1 + (2 * r1 + x % 2);
    DivModUnique(x, 2 * p, q1, 2 * r1 + x % 2);
  }

  /** The low k bits of an exclusive or depend only on the low k bits of the operands. */
  lemma {:induction false} XorLow(a: nat, b: nat, k: nat)
    ensures Xor(a, b) % Pow2(k) == Xor(a % Pow2(k), b % Pow2(k))
    decreases k
  {
    if k > 0 {
      var A, B := a % Pow2(k), b % Pow2(k);
      XorLow(a / 2, b / 2, k - 1);
      LowBits(a, k);
      LowBits(b, k);
      LowBits(Xor(a, b), k);
      XorStep(a, b);
      XorStep(A, B);
      SameBits(Xor(a, b) % Pow2(k), Xor(A, B));
    }
  }

  /** The low k bits of x: bit 0 of x, then the low k - 1 bits of x / 2. */
  lemma LowBits(x: nat, k: nat)
    requires k >= 1
    ensures (x % Pow2(k)) % 2 == x % 2 && (x % Pow2(k)) / 2 == (x / 2) % Pow2(k - 1)
  {
    ModPow2Split(x, k);
    HalveSum(x % 2, (x / 2) % Pow2(k - 1));
  }

  /** Setting bit k of one operand sets bit k of the result. */
  lemma {:induction false} XorHigh(x: nat, y: nat, k: nat)
    requires x < Pow2(k) && y < Pow2(k)
    ensures Xor(x + Pow2(k), y) == Xor(x, y) + Pow2(k)
    decreases k
  {
    if k > 0 {
      var p := Pow2(k - 1);
      HalfBelow(x, p);
      HalfBelow(y, p);
      XorHigh(x / 2, y / 2, k - 1);
      XorHighStep(x, y, p);
    }
  }

  /** One bit of `XorHigh`: if the claim holds for the upper bits, it holds. */
  lemma XorHighStep(x: nat, y: nat, p: nat)
    requires Xor(x / 2 + p, y / 2) == Xor(x / 2, y / 2) + p
    ensures Xor(x + 2 * p, y) == Xor(x, y) + 2 * p
  {
    var xy := Xor(x, y);
    AddEven(x, p);
    AddEven(xy, p);
    XorStep(x + 2 * p, y);
    XorStep(x, y);
    SameBits(Xor(x + 2 * p, y), xy + 2 * p);
  }

  /** Adding an even number keeps bit 0 and adds half of it to the rest. */
  lemma AddEven(v: nat, m: nat)
    ensures (v + 2 * m) % 2 == v % 2 && (v + 2 * m) / 2 == v / 2 + m
  {
  }

  lemma HalfBelow(x: nat, p: nat)
    requires x < 2 * p
    ensures x / 2 < p
  {
  }

  lemma XorDouble(x: nat, y: nat)
    ensures Xor(2 * x, 2 * y) == 2 * Xor(x, y)
  {
    XorStep(2 * x, 2 * y);
    SameBits(Xor(2 * x, 2 * y), 2 * Xor(x, y));
  }

  /** A single bit at position j and a multiple of 2^(j+1) share no bit, so
      their exclusive or is their sum. */
  lemma {:induction false} XorDisjoint(r: nat, m: nat, j: nat)
    requires r <= 1
    ensures Xor(r * Pow2(j), m * Pow2(j + 1)) == r * Pow2(j) + m * Pow2(j + 1)
    decreases j
  {
    if j == 0 {
      assert r * Pow2(0) == r && m * Pow2(1) == 2 * m;
      XorStep(r, 2 * m);
      HalveSum(r, m);
      XorZero(m);
      SameBits(Xor(r, 2 * m), r + 2 * m);
    } else {
      MulDouble(r, j - 1);
      MulDouble(m, j);
      XorDisjoint(r, m, j - 1);
      XorDouble(r * Pow2(j - 1), m * Pow2(j));
    }
  }

  lemma MulDouble(c: nat, k: nat)
    ensures c * Pow2(k + 1) == 2 * (c * Pow2(k))
  {
    assert Pow2(k + 1) == 2 * Pow2(k);
  }

  /** Regrouping four operands of exclusive or. */
  lemma Xor4(p: nat, q: nat, r: nat, s: nat)
    ensures Xor(Xor(p, q), Xor(r, s)) == Xor(Xor(p, r), Xor(q, s))
  {
    XorAssoc(p, q, Xor(r, s));
    XorAssoc(q, r, s);
    XorComm(q, r);
    XorAssoc(r, q, s);
    XorAssoc(p, r, Xor(q, s));
  }

  /** Exchanging the last two operands of a chain of exclusive ors. */
  lemma XorSwap(x: nat, y: nat, z: nat)
    ensures Xor(Xor(x, y), z) == Xor(Xor(x, z), y)
  {
    XorAssoc(x, y, z);
    XorComm(y, z);
    XorAssoc(x, z, y);
  }

  /** Setting bit k of a number below 2^k is an exclusive or with 2^k. */
  lemma XorTopBit(x: nat, k: nat)
    requires x < Pow2(k)
    ensures Xor(x, Pow2(k)) == x + Pow2(k)
  {
    XorHigh(0, x, k);
    XorZero(x);
    XorComm(Pow2(k), x);
  }

  /** Two numbers that both have bit k set as their top bit: the bit cancels. */
  lemma XorHighBoth(x: nat, y: nat, k: nat)
    requires x < Pow2(k) && y < Pow2(k)
    ensures Xor(x + Pow2(k), y + Pow2(k)) == Xor(x, y)
  {
    XorTopBit(x, k);
    XorTopBit(y, k);
    Xor4(x, Pow2(k), y, Pow2(k));
    XorSelf(Pow2(k));
    XorZero(Xor(x, y));
  }

  lemma {:induction false} Pow2Mono(i: nat, j: nat)
    requires i <= j
    ensures Pow2(i) <= Pow2(j)
    decreases j
  {
    if i < j {
      Pow2Mono(i, j - 1);
    }
  }
}
