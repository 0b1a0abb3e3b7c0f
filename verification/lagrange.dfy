/** Lagrange interpolation over GF(2^8) as `ShamirClient.interpolate`
    computes it: for each share i a basis value, the product over every
    other share j of (x + x_j) / (x_i + x_j), then the sum of the
    y_i * basis_i. Two shares with the same x make a denominator zero and
    the division throws.

    The two loops are modelled as functions over a prefix of the share
    list (`BasisUpTo`, `SumUpTo`), so that each recursive call is one more
    loop iteration. They are written against a division operation `div`
    and use nothing of it but the laws `IsDivision` states; `Interpolate`
    runs them with `GF256Inverse.Div`, which obeys those laws
    (`DivIsDivision`). Next to the loops, `BasisPoly` and `LagrangePoly`
    build the same sums as polynomials in x. The results: the computation
    fails exactly when two x coordinates coincide; otherwise it evaluates
    the unique polynomial of degree below n through the shares, so it
    recovers every polynomial of degree below n from its points. */
module Lagrange {
  import opened Wrappers
  import opened GF256
  import opened GF256Inverse
  import opened Polynomial

  /** One share of one byte position: the index `x` and the value `y`. */
  datatype Point = Point(x: byte, y: byte)

  function Xs(s: seq<Point>): (xs: seq<byte>)
    ensures |xs| == |s| && forall i :: 0 <= i < |s| ==> xs[i] == s[i].x
  {
    seq(|s|, i requires 0 <= i < |s| => s[i].x)
  }

  type Division = (byte, byte) -> Result<byte, string>

  /** What the loops rely on: dividing by zero fails with the
      division-by-zero message, and any other quotient times the divisor
      gives back the dividend. */
  ghost predicate DivLaw(r: Result<byte, string>, a: byte, b: byte)
  {
    if b == 0 then r == Failure(DivisionByZero) else r.Success? && Mul(r.value, b) == a
  }

  ghost predicate IsDivision(div: Division)
  {
    forall a: byte, b: byte {:trigger DivLaw(div(a, b), a, b)} :: DivLaw(div(a, b), a, b)
  }

  /** The field's division obeys those laws. */
  lemma DivIsDivision()
    ensures IsDivision(Div)
  {
    forall a: byte, b: byte
      ensures DivLaw(Div(a, b), a, b)
    {
      DivCorrect(a, b);
    }
  }

  /** The basis value of share `i` at `x` after the inner loop has seen the
      shares 0..n-1. */
  function BasisUpTo(div: Division, s: seq<Point>, i: nat, x: byte, n: nat): Result<byte, string>
    requires i < |s| && n <= |s|
    decreases n
  {
    if n == 0 then Success(1)
    else
      var b :- BasisUpTo(div, s, i, x, n - 1);
      var j := n - 1;
      if j == i then Success(b)
      else
        var t :- div(Add(x, s[j].x), Add(s[i].x, s[j].x));
        Success(Mul(b, t))
  }

  /** The accumulated result after the outer loop has seen shares 0..n-1. */
  function SumUpTo(div: Division, s: seq<Point>, x: byte, n: nat): Result<byte, string>
    requires n <= |s|
    decreases n
  {
    if n == 0 then Success(0)
    else
      var r :- SumUpTo(div, s, x, n - 1);
      var b :- BasisUpTo(div, s, n - 1, x, |s|);
      Success(Add(r, Mul(s[n - 1].y, b)))
  }

  /** `interpolate(shares, x)`: fails, with the division-by-zero message,
      exactly when two shares have the same x. */
  function Interpolate(s: seq<Point>, x: byte): (r: Result<byte, string>)
    ensures r.Failure? <==> !Distinct(Xs(s))
    ensures r.Failure? ==> r.error == DivisionByZero
  {
    DivIsDivision();
    SumFails(Div, s, x, |s|);
    ClashIffNotDistinct(s);
    SumUpTo(Div, s, x, |s|)
  }

  // ------------------------------------------------------------ the error

  /** Share j (j != i) collides with share i. */
  predicate Clash(s: seq<Point>, i: nat, j: nat)
    requires i < |s| && j < |s|
  {
    j != i && s[j].x == s[i].x
  }

  /** Some share among 0..n-1 collides with share i. */
  predicate ClashBelow(s: seq<Point>, i: nat, n: nat)
    requires i < |s| && n <= |s|
  {
    exists j :: 0 <= j < n && Clash(s, i, j)
  }

  lemma ClashBelowStep(s: seq<Point>, i: nat, n: nat)
    requires i < |s| && 0 < n <= |s|
    ensures ClashBelow(s, i, n) <==> ClashBelow(s, i, n - 1) || Clash(s, i, n - 1)
  {
    if Clash(s, i, n - 1) {
      assert 0 <= n - 1 < n && Clash(s, i, n - 1);
    }
    if ClashBelow(s, i, n - 1) {
      var w :| 0 <= w < n - 1 && Clash(s, i, w);
      assert 0 <= w < n && Clash(s, i, w);
    }
  }

  /** Without a collision among shares 0..n-1, there is none among
      0..n-2 either, and share n-1 (if it is not share i) has another x. */
  lemma NoClashStep(s: seq<Point>, i: nat, n: nat)
    requires i < |s| && 0 < n <= |s| && !ClashBelow(s, i, n)
    ensures !ClashBelow(s, i, n - 1)
    ensures n - 1 != i ==> s[n - 1].x != s[i].x
  {
    ClashBelowStep(s, i, n);
  }

  /** The inner loop fails exactly when it has met a share with the same
      x as share i, and then with the division-by-zero message. */
  lemma {:induction false} BasisFails(div: Division, s: seq<Point>, i: nat, x: byte, n: nat)
    requires IsDivision(div) && i < |s| && n <= |s|
    ensures BasisUpTo(div, s, i, x, n).Failure? <==> ClashBelow(s, i, n)
    ensures BasisUpTo(div, s, i, x, n).Failure? ==> BasisUpTo(div, s, i, x, n).error == DivisionByZero
    decreases n
  {
    if n > 0 {
      BasisFails(div, s, i, x, n - 1);
      var j := n - 1;
      ClashBelowStep(s, i, n);
      AddZeroIff(s[i].x, s[j].x);
      assert DivLaw(div(Add(x, s[j].x), Add(s[i].x, s[j].x)), Add(x, s[j].x), Add(s[i].x, s[j].x));
    }
  }

  /** Some share among 0..n-1 collides with another share. */
  predicate ClashUpTo(s: seq<Point>, n: nat)
    requires n <= |s|
  {
    exists i :: 0 <= i < n && ClashBelow(s, i, |s|)
  }

  lemma ClashUpToStep(s: seq<Point>, n: nat)
    requires 0 < n <= |s|
    ensures ClashUpTo(s, n) <==> ClashUpTo(s, n - 1) || ClashBelow(s, n - 1, |s|)
  {
    if ClashBelow(s, n - 1, |s|) {
      assert 0 <= n - 1 < n && ClashBelow(s, n - 1, |s|);
    }
    if ClashUpTo(s, n - 1) {
      var w :| 0 <= w < n - 1 && ClashBelow(s, w, |s|);
      assert 0 <= w < n && ClashBelow(s, w, |s|);
    }
  }

  /** The outer loop fails exactly when one of the shares it has visited
      collides with another, and then with the division-by-zero message. */
  lemma {:induction false} SumFails(div: Division, s: seq<Point>, x: byte, n: nat)
    requires IsDivision(div) && n <= |s|
    ensures SumUpTo(div, s, x, n).Failure? <==> ClashUpTo(s, n)
    ensures SumUpTo(div, s, x, n).Failure? ==> SumUpTo(div, s, x, n).error == DivisionByZero
    decreases n
  {
    if n > 0 {
      SumFails(div, s, x, n - 1);
      BasisFails(div, s, n - 1, x, |s|);
      ClashUpToStep(s, n);
    }
  }

  /** A collision anywhere is the same as the x coordinates not being
      pairwise distinct. */
  lemma ClashIffNotDistinct(s: seq<Point>)
    ensures ClashUpTo(s, |s|) <==> !Distinct(Xs(s))
  {
    var xs := Xs(s);
    if !Distinct(xs) {
      var i, j :| 0 <= i < |xs| && 0 <= j < |xs| && i != j && xs[i] == xs[j];
      assert Clash(s, i, j);
      assert ClashBelow(s, i, |s|);
    }
    if ClashUpTo(s, |s|) {
      var i :| 0 <= i < |s| && ClashBelow(s, i, |s|);
      var j :| 0 <= j < |s| && Clash(s, i, j);
      assert xs[i] == xs[j];
    }
  }

  /** Pairwise distinct x values: no share collides with another. */
  lemma DistinctNoClash(s: seq<Point>, i: nat)
    requires Distinct(Xs(s)) && i < |s|
    ensures !ClashBelow(s, i, |s|)
  {
  }

  // ------------------------------------------------------- as polynomials

  /** The basis product of share i over shares 0..n-1, as a polynomial in
      x: every other share j contributes the factor (x + x_j) times the
      inverse 1 / (x_i + x_j) (skipped when that inverse does not exist). */
  function BasisPoly(div: Division, s: seq<Point>, i: nat, n: nat): (b: Poly)
    requires i < |s| && n <= |s|
    ensures |b| <= if i < n then n else n + 1
    decreases n
  {
    if n == 0 then [1]
    else
      var b := BasisPoly(div, s, i, n - 1);
      var j := n - 1;
      if j == i then b
      else
        match div(1, Add(s[i].x, s[j].x))
        case Success(c) => Scale(c, MulLinear(b, s[j].x))
        case Failure(_) => b
  }

  /** One step of `BasisPoly` when share n-1 is another share and the
      inverse exists. */
  lemma BasisPolyStep(div: Division, s: seq<Point>, i: nat, n: nat)
    requires i < |s| && 0 < n <= |s| && n - 1 != i
    requires div(1, Add(s[i].x, s[n - 1].x)).Success?
    ensures BasisPoly(div, s, i, n)
      == Scale(div(1, Add(s[i].x, s[n - 1].x)).value, MulLinear(BasisPoly(div, s, i, n - 1), s[n - 1].x))
  {
  }

  /** One step of the inner loop when share n-1 is another share and the
      division succeeds. */
  lemma BasisUpToStep(div: Division, s: seq<Point>, i: nat, x: byte, n: nat)
    requires i < |s| && 0 < n <= |s| && n - 1 != i
    requires BasisUpTo(div, s, i, x, n - 1).Success?
    requires div(Add(x, s[n - 1].x), Add(s[i].x, s[n - 1].x)).Success?
    ensures BasisUpTo(div, s, i, x, n)
      == Success(Mul(BasisUpTo(div, s, i, x, n - 1).value, div(Add(x, s[n - 1].x), Add(s[i].x, s[n - 1].x)).value))
  {
  }

  /** With no collision, the inner loop evaluates the basis polynomial. */
  lemma {:induction false} BasisValue(div: Division, s: seq<Point>, i: nat, x: byte, n: nat)
    requires IsDivision(div) && i < |s| && n <= |s| && !ClashBelow(s, i, n)
    ensures BasisUpTo(div, s, i, x, n) == Success(Eval(BasisPoly(div, s, i, n), x))
    decreases n
  {
    if n == 0 {
      ConstEval(1, x);
    } else {
      NoClashStep(s, i, n);
      BasisValue(div, s, i, x, n - 1);
      if n - 1 != i {
        BasisValueStep(div, s, i, x, n);
      }
    }
  }

  /** One iteration of the inner loop on another share with a different x. */
  lemma BasisValueStep(div: Division, s: seq<Point>, i: nat, x: byte, n: nat)
    requires IsDivision(div) && i < |s| && 0 < n <= |s| && n - 1 != i && s[n - 1].x != s[i].x
    requires BasisUpTo(div, s, i, x, n - 1) == Success(Eval(BasisPoly(div, s, i, n - 1), x))
    ensures BasisUpTo(div, s, i, x, n) == Success(Eval(BasisPoly(div, s, i, n), x))
  {
    var j := n - 1;
    var b := BasisPoly(div, s, i, j);
    var d := Add(s[i].x, s[j].x);
    var u := Add(x, s[j].x);
    AddZeroIff(s[i].x, s[j].x);
    assert DivLaw(div(u, d), u, d);
    assert DivLaw(div(1, d), 1, d);
    BasisPolyStep(div, s, i, n);
    BasisUpToStep(div, s, i, x, n);
    QuotientFactor(Eval(b, x), div(u, d).value, div(1, d).value, u, d);
    FactorEval(b, s[j].x, div(1, d).value, x);
  }

  /** The factor share j contributes, evaluated: c * (b(x) * (x + a)). */
  lemma FactorEval(b: Poly, a: byte, c: byte, x: byte)
    ensures Eval(Scale(c, MulLinear(b, a)), x) == Mul(c, Mul(Eval(b, x), Add(x, a)))
  {
    EvalMulLinear(b, a, x);
    EvalScale(c, MulLinear(b, a), x);
  }

  /** One factor of the inner loop: if q * d == u and c * d == 1, then
      b * q == c * (b * u). */
  lemma QuotientFactor(b: byte, q: byte, c: byte, u: byte, d: byte)
    requires Mul(q, d) == u && Mul(c, d) == 1
    ensures Mul(b, q) == Mul(c, Mul(b, u))
  {
    var bq := Mul(b, q);
    // b u = b (q d) = (b q) d
    MulAssoc(b, q, d);
    // c ((b q) d) = (b q) (c d) = b q
    MulComm(bq, d);
    MulAssoc(c, d, bq);
    MulOneLeft(bq);
  }

  /** The basis polynomial of share i is 1 at x_i ... */
  lemma {:induction false} BasisAtOwn(div: Division, s: seq<Point>, i: nat, n: nat)
    requires IsDivision(div) && i < |s| && n <= |s| && !ClashBelow(s, i, n)
    ensures Eval(BasisPoly(div, s, i, n), s[i].x) == 1
    decreases n
  {
    if n == 0 {
      ConstEval(1, s[i].x);
    } else {
      NoClashStep(s, i, n);
      BasisAtOwn(div, s, i, n - 1);
      if n - 1 != i {
        BasisAtOwnStep(div, s, i, n);
      }
    }
  }

  lemma BasisAtOwnStep(div: Division, s: seq<Point>, i: nat, n: nat)
    requires IsDivision(div) && i < |s| && 0 < n <= |s| && n - 1 != i && s[n - 1].x != s[i].x
    requires Eval(BasisPoly(div, s, i, n - 1), s[i].x) == 1
    ensures Eval(BasisPoly(div, s, i, n), s[i].x) == 1
  {
    var j := n - 1;
    var d := Add(s[i].x, s[j].x);
    AddZeroIff(s[i].x, s[j].x);
    assert DivLaw(div(1, d), 1, d);
    BasisPolyStep(div, s, i, n);
    FactorEval(BasisPoly(div, s, i, j), s[j].x, div(1, d).value, s[i].x);
    MulOneLeft(d);
  }

  /** ... and 0 at every other share it has seen. */
  lemma {:induction false} BasisAtOther(div: Division, s: seq<Point>, i: nat, k: nat, n: nat)
    requires IsDivision(div) && i < |s| && k < n <= |s| && k != i && !ClashBelow(s, i, n)
    ensures Eval(BasisPoly(div, s, i, n), s[k].x) == 0
    decreases n
  {
    NoClashStep(s, i, n);
    if n - 1 == i {
      BasisAtOther(div, s, i, k, n - 1);
    } else {
      if k != n - 1 {
        BasisAtOther(div, s, i, k, n - 1);
      }
      BasisAtOtherStep(div, s, i, k, n);
    }
  }

  lemma BasisAtOtherStep(div: Division, s: seq<Point>, i: nat, k: nat, n: nat)
    requires IsDivision(div) && i < |s| && k < n <= |s| && n - 1 != i && s[n - 1].x != s[i].x
    requires k == n - 1 || Eval(BasisPoly(div, s, i, n - 1), s[k].x) == 0
    ensures Eval(BasisPoly(div, s, i, n), s[k].x) == 0
  {
    var j := n - 1;
    var d := Add(s[i].x, s[j].x);
    AddZeroIff(s[i].x, s[j].x);
    assert DivLaw(div(1, d), 1, d);
    BasisPolyStep(div, s, i, n);
    FactorRoot(BasisPoly(div, s, i, j), s[j].x, s[k].x, div(1, d).value);
  }

  /** A root of b, or the point a itself, is a root of c * b(x) * (x + a). */
  lemma FactorRoot(b: Poly, a: byte, y: byte, c: byte)
    requires Eval(b, y) == 0 || y == a
    ensures Eval(Scale(c, MulLinear(b, a)), y) == 0
  {
    EvalMulLinear(b, a, y);
    EvalScale(c, MulLinear(b, a), y);
    AddSelf(a);
    MulZero(Eval(b, y));
    MulZero(Add(y, a));
    MulZero(c);
  }

  /** The interpolating polynomial over shares 0..n-1: the sum of
      y_i * basis_i. */
  function LagrangePoly(div: Division, s: seq<Point>, n: nat): (p: Poly)
    requires n <= |s|
    ensures |p| <= |s|
    decreases n
  {
    if n == 0 then []
    else PolyAdd(LagrangePoly(div, s, n - 1), Scale(s[n - 1].y, BasisPoly(div, s, n - 1, |s|)))
  }

  lemma LagrangePolyStep(div: Division, s: seq<Point>, n: nat)
    requires 0 < n <= |s|
    ensures LagrangePoly(div, s, n)
      == PolyAdd(LagrangePoly(div, s, n - 1), Scale(s[n - 1].y, BasisPoly(div, s, n - 1, |s|)))
  {
  }

  /** One successful step of the outer loop, unfolded. */
  lemma SumStep(div: Division, s: seq<Point>, x: byte, n: nat)
    requires 0 < n <= |s|
    requires SumUpTo(div, s, x, n - 1).Success? && BasisUpTo(div, s, n - 1, x, |s|).Success?
    ensures SumUpTo(div, s, x, n)
      == Success(Add(SumUpTo(div, s, x, n - 1).value, Mul(s[n - 1].y, BasisUpTo(div, s, n - 1, x, |s|).value)))
  {
  }

  /** Adding the term y * b to the polynomial l, evaluated at x. */
  lemma EvalTerm(l: Poly, y: byte, b: Poly, x: byte)
    ensures Eval(PolyAdd(l, Scale(y, b)), x) == Add(Eval(l, x), Mul(y, Eval(b, x)))
  {
    EvalAdd(l, Scale(y, b), x);
    EvalScale(y, b, x);
  }

  /** With distinct x values the outer loop evaluates the interpolating
      polynomial. */
  lemma {:induction false} SumValue(div: Division, s: seq<Point>, x: byte, n: nat)
    requires IsDivision(div) && n <= |s| && Distinct(Xs(s))
    ensures SumUpTo(div, s, x, n) == Success(Eval(LagrangePoly(div, s, n), x))
    decreases n
  {
    if n > 0 {
      SumValue(div, s, x, n - 1);
      SumValueStep(div, s, x, n);
    }
  }

  lemma SumValueStep(div: Division, s: seq<Point>, x: byte, n: nat)
    requires IsDivision(div) && 0 < n <= |s| && Distinct(Xs(s))
    requires SumUpTo(div, s, x, n - 1) == Success(Eval(LagrangePoly(div, s, n - 1), x))
    ensures SumUpTo(div, s, x, n) == Success(Eval(LagrangePoly(div, s, n), x))
  {
    DistinctNoClash(s, n - 1);
    SumTerm(div, s, x, n);
    LagrangeTerm(div, s, x, n);
  }

  /** Step n of the outer loop adds y_{n-1} times the basis polynomial's value. */
  lemma SumTerm(div: Division, s: seq<Point>, x: byte, n: nat)
    requires IsDivision(div) && 0 < n <= |s| && !ClashBelow(s, n - 1, |s|)
    requires SumUpTo(div, s, x, n - 1).Success?
    ensures SumUpTo(div, s, x, n)
      == Success(Add(SumUpTo(div, s, x, n - 1).value, Mul(s[n - 1].y, Eval(BasisPoly(div, s, n - 1, |s|), x))))
  {
    BasisValue(div, s, n - 1, x, |s|);
    SumStep(div, s, x, n);
  }

  /** The interpolating polynomial grows by the same term, evaluated at x. */
  lemma LagrangeTerm(div: Division, s: seq<Point>, x: byte, n: nat)
    requires 0 < n <= |s|
    ensures Eval(LagrangePoly(div, s, n), x)
      == Add(Eval(LagrangePoly(div, s, n - 1), x), Mul(s[n - 1].y, Eval(BasisPoly(div, s, n - 1, |s|), x)))
  {
    LagrangePolyStep(div, s, n);
    EvalTerm(LagrangePoly(div, s, n - 1), s[n - 1].y, BasisPoly(div, s, n - 1, |s|), x);
  }

  /** The interpolating polynomial over shares 0..n-1 takes the value y_k
      at x_k for k < n, and 0 at the shares it has not reached. */
  lemma {:induction false} LagrangeAtShare(div: Division, s: seq<Point>, k: nat, n: nat)
    requires IsDivision(div) && n <= |s| && k < |s| && Distinct(Xs(s))
    ensures Eval(LagrangePoly(div, s, n), s[k].x) == if k < n then s[k].y else 0
    decreases n
  {
    if n > 0 {
      LagrangeAtShare(div, s, k, n - 1);
      LagrangeAtShareStep(div, s, k, n);
    }
  }

  lemma LagrangeAtShareStep(div: Division, s: seq<Point>, k: nat, n: nat)
    requires IsDivision(div) && 0 < n <= |s| && k < |s| && Distinct(Xs(s))
    requires Eval(LagrangePoly(div, s, n - 1), s[k].x) == if k < n - 1 then s[k].y else 0
    ensures Eval(LagrangePoly(div, s, n), s[k].x) == if k < n then s[k].y else 0
  {
    var i := n - 1;
    var l, b := LagrangePoly(div, s, i), BasisPoly(div, s, i, |s|);
    LagrangePolyStep(div, s, n);
    DistinctNoClash(s, i);
    if k == i {
      BasisAtOwn(div, s, k, |s|);
      TermOwn(l, b, s[i].y, s[k].x);
    } else {
      BasisAtOther(div, s, i, k, |s|);
      TermOther(l, b, s[i].y, s[k].x);
    }
  }

  /** Adding y * b where b is 1 at x to a polynomial that is 0 at x. */
  lemma TermOwn(l: Poly, b: Poly, y: byte, x: byte)
    requires Eval(l, x) == 0 && Eval(b, x) == 1
    ensures Eval(PolyAdd(l, Scale(y, b)), x) == y
  {
    EvalTerm(l, y, b, x);
    MulOneRight(y);
    AddZero(y);
    AddComm(0, y);
  }

  /** Adding y * b where b is 0 at x leaves the value at x alone. */
  lemma TermOther(l: Poly, b: Poly, y: byte, x: byte)
    requires Eval(b, x) == 0
    ensures Eval(PolyAdd(l, Scale(y, b)), x) == Eval(l, x)
  {
    EvalTerm(l, y, b, x);
    MulZero(y);
    AddZero(Eval(l, x));
  }

  /** Correctness of the loops for any division: n shares with distinct x
      taken from a polynomial with at most n coefficients give back the
      polynomial's value everywhere. */
  lemma SumCorrect(div: Division, p: Poly, s: seq<Point>, x: byte)
    requires IsDivision(div) && Distinct(Xs(s)) && |p| <= |s|
    requires forall k :: 0 <= k < |s| ==> s[k].y == Eval(p, s[k].x)
    ensures SumUpTo(div, s, x, |s|) == Success(Eval(p, x))
  {
    var l := LagrangePoly(div, s, |s|);
    var xs := Xs(s);
    forall k | 0 <= k < |xs|
      ensures Eval(l, xs[k]) == Eval(p, xs[k])
    {
      LagrangeAtShare(div, s, k, |s|);
    }
    Uniqueness(l, p, xs);
    SumValue(div, s, x, |s|);
  }

  /** Interpolating at the x of a share returns that share's y. */
  lemma InterpolateAtShare(s: seq<Point>, k: nat)
    requires Distinct(Xs(s)) && k < |s|
    ensures Interpolate(s, s[k].x) == Success(s[k].y)
  {
    DivIsDivision();
    SumValue(Div, s, s[k].x, |s|);
    LagrangeAtShare(Div, s, k, |s|);
  }

  /** Correctness of reconstruction: n shares with distinct x taken from a
      polynomial with at most n coefficients give back the polynomial's
      value everywhere. */
  lemma InterpolateCorrect(p: Poly, s: seq<Point>, x: byte)
    requires Distinct(Xs(s)) && |p| <= |s|
    requires forall k :: 0 <= k < |s| ==> s[k].y == Eval(p, s[k].x)
    ensures Interpolate(s, x) == Success(Eval(p, x))
  {
    DivIsDivision();
    SumCorrect(Div, p, s, x);
  }

  // ------------------------------------------------------------ share order

  /** A point that occurs twice in a list occurs twice in its multiset. */
  lemma TwiceInMultiset(t: seq<Point>, i: nat, j: nat)
    requires i < j < |t| && t[i] == t[j]
    ensures multiset(t)[t[i]] >= 2
  {
    assert t == t[..j] + [t[j]] + t[j + 1..];
    assert t[..j][i] == t[i];
  }

  /** A point of multiplicity two or more sits at two different indices. */
  lemma TwoIndices(s: seq<Point>, v: Point)
    requires multiset(s)[v] >= 2
    ensures exists i, j :: 0 <= i < j < |s| && s[i] == v && s[j] == v
  {
    var i :| 0 <= i < |s| && s[i] == v;
    assert s == s[..i] + [s[i]] + s[i + 1..];
    if v in s[..i] {
      var j :| 0 <= j < i && s[..i][j] == v;
      assert s[j] == v;
    } else {
      assert v in s[i + 1..];
      var j :| 0 <= j < |s| - i - 1 && s[i + 1..][j] == v;
      assert s[i + 1 + j] == v;
    }
  }

  /** Two shares of `t` with the same x make two shares of any reordering
      of `t` with the same x. */
  lemma ClashTransfers(s: seq<Point>, t: seq<Point>, i: nat, j: nat)
    requires multiset(s) == multiset(t)
    requires i < |t| && j < |t| && i != j && t[i].x == t[j].x
    ensures !Distinct(Xs(s))
  {
    if t[i] == t[j] {
      if i < j {
        TwiceInMultiset(t, i, j);
      } else {
        TwiceInMultiset(t, j, i);
      }
      TwoIndices(s, t[i]);
      var a, b :| 0 <= a < b < |s| && s[a] == t[i] && s[b] == t[i];
      assert Xs(s)[a] == Xs(s)[b];
    } else {
      assert t[i] in multiset(s) && t[j] in multiset(s);
      var a :| 0 <= a < |s| && s[a] == t[i];
      var b :| 0 <= b < |s| && s[b] == t[j];
      assert a != b && Xs(s)[a] == Xs(s)[b];
    }
  }

  /** Shares that are a reordering of each other have distinct x
      coordinates together or not at all. */
  lemma ReorderDistinctIff(s: seq<Point>, t: seq<Point>)
    requires multiset(s) == multiset(t)
    ensures Distinct(Xs(s)) <==> Distinct(Xs(t))
  {
    if !Distinct(Xs(t)) {
      var i, j :| 0 <= i < |t| && 0 <= j < |t| && i != j && Xs(t)[i] == Xs(t)[j];
      ClashTransfers(s, t, i, j);
    }
    if !Distinct(Xs(s)) {
      var i, j :| 0 <= i < |s| && 0 <= j < |s| && i != j && Xs(s)[i] == Xs(s)[j];
      ClashTransfers(t, s, i, j);
    }
  }

  /** The order in which the shares are given does not change the result,
      neither the value nor the error. */
  lemma InterpolateReorder(s: seq<Point>, t: seq<Point>, x: byte)
    requires multiset(s) == multiset(t)
    ensures Interpolate(s, x) == Interpolate(t, x)
  {
    ReorderDistinctIff(s, t);
    if Distinct(Xs(s)) {
      assert |s| == |multiset(s)| == |t|;
      DivIsDivision();
      var p := LagrangePoly(Div, s, |s|);
      forall k | 0 <= k < |s|
        ensures s[k].y == Eval(p, s[k].x)
      {
        LagrangeAtShare(Div, s, k, |s|);
      }
      forall k | 0 <= k < |t|
        ensures t[k].y == Eval(p, t[k].x)
      {
        assert t[k] in multiset(s);
        var i :| 0 <= i < |s| && s[i] == t[k];
      }
      InterpolateCorrect(p, s, x);
      InterpolateCorrect(p, t, x);
    }
  }

  lemma InterpolateSecret(p: Poly, c: seq<Point>)
    requires Distinct(Xs(c)) && |p| <= |c|
    requires forall k :: 0 <= k < |c| ==> c[k].y == Eval(p, c[k].x)
    ensures Interpolate(c, 0) == Success(if |p| == 0 then 0 else p[0])
  {
    InterpolateCorrect(p, c, 0);
    EvalAtZero(p);
  }
}
