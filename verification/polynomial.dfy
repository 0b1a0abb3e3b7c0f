/** Polynomials over GF(2^8), as coefficient sequences lowest degree first.
    The client never builds a polynomial: shares are points of a polynomial
    chosen by the splitting side, which is not part of this model. This
    module is the specification side used to state what reconstruction
    computes, and it proves the one fact everything rests on: a polynomial
    with fewer coefficients than it has distinct roots is zero everywhere,
    so two polynomials of degree below n that agree on n distinct points
    agree everywhere. */
module Polynomial {
  import opened GF256
  import opened GF256Inverse

  type Poly = seq<byte>

  /** Horner evaluation: p[0] + x * (p[1] + x * (...)). */
  function Eval(p: Poly, x: byte): byte
    decreases |p|
  {
    if |p| == 0 then 0 else Add(p[0], Mul(x, Eval(p[1..], x)))
  }

  /** The secret of a sharing polynomial is its value at 0. */
  lemma EvalAtZero(p: Poly)
    ensures Eval(p, 0) == if |p| == 0 then 0 else p[0]
  {
    if |p| > 0 {
      MulZero(Eval(p[1..], 0));
      AddZero(p[0]);
    }
  }

  /** Coefficient-wise sum. */
  function PolyAdd(p: Poly, q: Poly): (r: Poly)
    ensures |r| == if |p| < |q| then |q| else |p|
    decreases |p| + |q|
  {
    if |p| == 0 then q
    else if |q| == 0 then p
    else [Add(p[0], q[0])] + PolyAdd(p[1..], q[1..])
  }

  /** The sum of two polynomials evaluates to the sum of their values. */
  lemma {:induction false} EvalAdd(p: Poly, q: Poly, x: byte)
    ensures Eval(PolyAdd(p, q), x) == Add(Eval(p, x), Eval(q, x))
    decreases |p| + |q|
  {
    if |p| == 0 {
      AddComm(0, Eval(q, x));
      AddZero(Eval(q, x));
    } else if |q| == 0 {
      AddZero(Eval(p, x));
    } else {
      var t := PolyAdd(p[1..], q[1..]);
      EvalAdd(p[1..], q[1..], x);
      AddStep(p, q, t, x);
    }
  }

  lemma AddStep(p: Poly, q: Poly, t: Poly, x: byte)
    requires |p| > 0 && |q| > 0
    requires Eval(t, x) == Add(Eval(p[1..], x), Eval(q[1..], x))
    ensures Eval([Add(p[0], q[0])] + t, x) == Add(Eval(p, x), Eval(q, x))
  {
    var r := [Add(p[0], q[0])] + t;
    assert r[1..] == t;
    var u, v := Eval(p[1..], x), Eval(q[1..], x);
    MulDistLeft(x, u, v);
    Add4(p[0], Mul(x, u), q[0], Mul(x, v));
  }

  /** Every coefficient multiplied by `c`. */
  function Scale(c: byte, p: Poly): (r: Poly)
    ensures |r| == |p|
    decreases |p|
  {
    if |p| == 0 then [] else [Mul(c, p[0])] + Scale(c, p[1..])
  }

  /** A scaled polynomial evaluates to `c` times the value. */
  lemma {:induction false} EvalScale(c: byte, p: Poly, x: byte)
    ensures Eval(Scale(c, p), x) == Mul(c, Eval(p, x))
    decreases |p|
  {
    if |p| == 0 {
      MulZero(c);
    } else {
      EvalScale(c, p[1..], x);
      ScaleStep(c, p, Scale(c, p[1..]), x);
    }
  }

  lemma ScaleStep(c: byte, p: Poly, t: Poly, x: byte)
    requires |p| > 0
    requires Eval(t, x) == Mul(c, Eval(p[1..], x))
    ensures Eval([Mul(c, p[0])] + t, x) == Mul(c, Eval(p, x))
  {
    var r := [Mul(c, p[0])] + t;
    assert r[1..] == t;
    var u := Eval(p[1..], x);
    MulAssoc(x, c, u);
    MulAssoc(c, x, u);
    MulComm(x, c);
    MulDistLeft(c, p[0], Mul(x, u));
  }

  lemma ConstEval(c: byte, x: byte)
    ensures Eval([c], x) == c
  {
    assert [c][1..] == [];
    MulZero(x);
    AddZero(c);
  }

  /** The product p(x) * (x + a). A non-zero polynomial gains one degree. */
  function MulLinear(p: Poly, a: byte): (r: Poly)
    ensures |r| == if |p| == 0 then 0 else |p| + 1
    decreases |p|
  {
    if |p| == 0 then [] else [Mul(p[0], a)] + PolyAdd([p[0]], MulLinear(p[1..], a))
  }

  lemma {:induction false} EvalMulLinear(p: Poly, a: byte, x: byte)
    ensures Eval(MulLinear(p, a), x) == Mul(Eval(p, x), Add(x, a))
    decreases |p|
  {
    if |p| == 0 {
      MulZero(Add(x, a));
    } else {
      EvalMulLinear(p[1..], a, x);
      ConstEval(p[0], x);
      EvalAdd([p[0]], MulLinear(p[1..], a), x);
      LinearStep(p, a, PolyAdd([p[0]], MulLinear(p[1..], a)), x);
    }
  }

  lemma LinearStep(p: Poly, a: byte, t: Poly, x: byte)
    requires |p| > 0
    requires Eval(t, x) == Add(p[0], Mul(Eval(p[1..], x), Add(x, a)))
    ensures Eval([Mul(p[0], a)] + t, x) == Mul(Eval(p, x), Add(x, a))
  {
    var r := [Mul(p[0], a)] + t;
    assert r[1..] == t;
    var u := Eval(p[1..], x);
    var c := p[0];
    // (c + x u)(x + a) = c a + x (c + u (x + a))
    MulDistRight(c, Mul(x, u), Add(x, a));
    MulDistLeft(c, x, a);
    MulAssoc(x, u, Add(x, a));
    MulDistLeft(x, c, Mul(u, Add(x, a)));
    MulComm(c, x);
    // c (x + a) + x u (x + a) = (c x + c a) + x (u (x + a))
    // x (c + u (x + a)) + c a = (x c + x (u (x + a))) + c a
    AddComm(Mul(c, x), Mul(c, a));
    AddAssoc(Mul(c, a), Mul(c, x), Mul(x, Mul(u, Add(x, a))));
  }

  /** Synthetic division by (x + a): for a non-empty `p`,
      p(x) + p(a) == (x + a) * q(x) with q one coefficient shorter. */
  function Synth(p: Poly, a: byte): (q: Poly)
    ensures |q| == if |p| == 0 then 0 else |p| - 1
    decreases |p|
  {
    if |p| <= 1 then [] else [Eval(p[1..], a)] + Synth(p[1..], a)
  }

  lemma {:induction false} SynthDiv(p: Poly, a: byte, x: byte)
    requires |p| > 0
    ensures Add(Eval(p, x), Eval(p, a)) == Mul(Add(x, a), Eval(Synth(p, a), x))
    decreases |p|
  {
    var c := p[0];
    if |p| == 1 {
      assert p[1..] == [];
      MulZero(x);
      MulZero(a);
      AddZero(c);
      AddSelf(c);
      MulZero(Add(x, a));
    } else {
      var t := p[1..];
      SynthDiv(t, a, x);
      SynthStep(c, Eval(t, x), Eval(t, a), Eval(Synth(t, a), x), a, x);
      var q := Synth(p, a);
      assert q[1..] == Synth(t, a);
    }
  }

  /** The algebra of one synthetic-division step: with
      P(x) = c + x T(x) and T(x) + T(a) = (x + a) Q(x),
      P(x) + P(a) = (x + a) (T(a) + x Q(x)). */
  lemma SynthStep(c: byte, tx: byte, ta: byte, qx: byte, a: byte, x: byte)
    requires Add(tx, ta) == Mul(Add(x, a), qx)
    ensures Add(Add(c, Mul(x, tx)), Add(c, Mul(a, ta))) == Mul(Add(x, a), Add(ta, Mul(x, qx)))
  {
    var s := Add(x, a);
    // left side: x tx + a ta, since c + c = 0
    Add4(c, Mul(x, tx), c, Mul(a, ta));
    AddSelf(c);
    AddZero(Add(Mul(x, tx), Mul(a, ta)));
    // x tx = x (ta + s qx) = x ta + x s qx
    AddCancel(tx, ta, Mul(s, qx));
    AddComm(Mul(s, qx), ta);
    MulDistLeft(x, ta, Mul(s, qx));
    // a ta + x ta = s ta
    MulDistRight(x, a, ta);
    // right side: s ta + s x qx
    MulDistLeft(s, ta, Mul(x, qx));
    MulAssoc(x, s, qx);
    MulAssoc(s, x, qx);
    MulComm(x, s);
    MulComm(a, ta);
    MulComm(x, ta);
    MulComm(s, ta);
    AddComm(Mul(x, ta), Mul(x, Mul(s, qx)));
    AddAssoc(Mul(x, Mul(s, qx)), Mul(x, ta), Mul(a, ta));
    AddComm(Mul(x, Mul(s, qx)), Mul(s, ta));
  }

  /** The points of `xs` are pairwise distinct. */
  predicate Distinct(xs: seq<byte>)
  {
    forall i, j :: 0 <= i < |xs| && 0 <= j < |xs| && i != j ==> xs[i] != xs[j]
  }

  /** A polynomial with at most n coefficients that vanishes at n distinct
      points is the zero function. */
  lemma {:induction false} ManyRoots(p: Poly, xs: seq<byte>)
    requires Distinct(xs) && |p| <= |xs|
    requires forall i :: 0 <= i < |xs| ==> Eval(p, xs[i]) == 0
    ensures forall x: byte :: Eval(p, x) == 0
    decreases |xs|
  {
    if |p| > 0 {
      var a := xs[|xs| - 1];
      var rest := xs[..|xs| - 1];
      var q := Synth(p, a);
      forall x: byte
        ensures Eval(p, x) == Mul(Add(x, a), Eval(q, x))
      {
        SynthDiv(p, a, x);
        AddZero(Eval(p, x));
      }
      forall i | 0 <= i < |rest|
        ensures Eval(q, rest[i]) == 0
      {
        assert rest[i] == xs[i];
        AddZeroIff(rest[i], a);
        NoZeroDivisors(Add(rest[i], a), Eval(q, rest[i]));
      }
      ManyRoots(q, rest);
      forall x: byte
        ensures Eval(p, x) == 0
      {
        MulZero(Add(x, a));
      }
    }
  }

  /** Two polynomials of degree below n that agree on n distinct points
      agree everywhere. */
  lemma Uniqueness(p: Poly, q: Poly, xs: seq<byte>)
    requires Distinct(xs) && |p| <= |xs| && |q| <= |xs|
    requires forall i :: 0 <= i < |xs| ==> Eval(p, xs[i]) == Eval(q, xs[i])
    ensures forall x: byte :: Eval(p, x) == Eval(q, x)
  {
    var d := PolyAdd(p, q);
    forall i | 0 <= i < |xs|
      ensures Eval(d, xs[i]) == 0
    {
      EvalAdd(p, q, xs[i]);
      AddSelf(Eval(p, xs[i]));
    }
    ManyRoots(d, xs);
    forall x: byte
      ensures Eval(p, x) == Eval(q, x)
    {
      EvalAdd(p, q, x);
      AddCancel(Eval(p, x), Eval(q, x), 0);
      AddZero(Eval(q, x));
    }
  }
}
