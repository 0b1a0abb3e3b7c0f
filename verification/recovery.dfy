/** What `reconstructSecret` gives back when it is handed shares made the
    way the splitting side makes them: each secret byte i hidden as the
    constant term of its own polynomial, share k holding every
    polynomial's value at index `xs[k]` followed by `xs[k]` itself. */
module Recovery {
  import opened Wrappers
  import opened GF256
  import opened GF256Inverse
  import opened Polynomial
  import opened Lagrange
  import opened ShamirClient

  /** The constant term of a polynomial: the secret byte it hides. */
  function Secret(p: Poly): byte
  {
    if |p| == 0 then 0 else p[0]
  }

  /** Every polynomial's value at `x`, in order. */
  function Values(ps: seq<Poly>, x: byte): (v: seq<byte>)
    ensures |v| == |ps| && forall i :: 0 <= i < |ps| ==> v[i] == Eval(ps[i], x)
  {
    seq(|ps|, i requires 0 <= i < |ps| => Eval(ps[i], x))
  }

  /** Every polynomial's constant term, in order: the secret they hide. */
  function Secrets(ps: seq<Poly>): (v: seq<byte>)
    ensures |v| == |ps| && forall i :: 0 <= i < |ps| ==> v[i] == Secret(ps[i])
  {
    seq(|ps|, i requires 0 <= i < |ps| => Secret(ps[i]))
  }

  /** The bytes a share for index `x` carries when byte i of the secret
      was shared with polynomial `ps[i]`: every polynomial's value at `x`,
      then `x`. The splitting side is not part of the client; this is the
      specification the client's reconstruction is measured against. */
  ghost function ShareFor(ps: seq<Poly>, x: byte): (b: seq<byte>)
    ensures |b| == |ps| + 1 && b[|ps|] == x
  {
    Values(ps, x) + [x]
  }

  ghost function SharesFor(ps: seq<Poly>, xs: seq<byte>): (ds: seq<ShareData>)
    ensures |ds| == |xs| && forall k :: 0 <= k < |xs| ==> ds[k] == Uint8(ShareFor(ps, xs[k]))
  {
    seq(|xs|, k requires 0 <= k < |xs| => Uint8(ShareFor(ps, xs[k])))
  }

  lemma ParseSharesFor(ps: seq<Poly>, xs: seq<byte>)
    ensures ParseShares(SharesFor(ps, xs)).Success? && |ParseShares(SharesFor(ps, xs)).value| == |xs|
    ensures forall k :: 0 <= k < |xs| ==>
      ParseShares(SharesFor(ps, xs)).value[k] == Share(xs[k], Values(ps, xs[k]))
  {
    var ds := SharesFor(ps, xs);
    forall k | 0 <= k < |xs|
      ensures ParseShare(ds[k]) == Success(Share(xs[k], Values(ps, xs[k])))
    {
      var b := ShareFor(ps, xs[k]);
      assert b[..|b| - 1] == Values(ps, xs[k]);
    }
  }

  /** Shares of a secret whose every byte was shared with a polynomial of
      degree below the number of shares, at distinct indices, give the
      secret back: byte i is the constant term of polynomial i. */
  lemma ReconstructSecretCorrect(ps: seq<Poly>, xs: seq<byte>)
    requires |xs| >= 2 && Distinct(xs) && |ps| >= 1
    requires forall i :: 0 <= i < |ps| ==> |ps[i]| <= |xs|
    ensures ReconstructSecret(SharesFor(ps, xs)) == Success(Secrets(ps))
  {
    ParseSharesFor(ps, xs);
    var shares := ParseShares(SharesFor(ps, xs)).value;
    TryReconstructFor(ps, xs);
    ColumnsRecover(ps, shares);
  }

  /** Shares made for a non-empty secret pass the emptiness and length
      checks, so reconstruction is the interpolation of their columns. */
  lemma TryReconstructFor(ps: seq<Poly>, xs: seq<byte>)
    requires |xs| >= 2 && |ps| >= 1
    ensures ParseShares(SharesFor(ps, xs)).Success?
    ensures ShareXs(ParseShares(SharesFor(ps, xs)).value) == xs
    ensures TryReconstruct(SharesFor(ps, xs)) == InterpolateColumns(ParseShares(SharesFor(ps, xs)).value, |ps|)
  {
    ParseSharesFor(ps, xs);
    var ds := SharesFor(ps, xs);
    var shares := ParseShares(ds).value;
    SharesShape(ps, xs, shares);
  }

  /** The parsed shares carry the indices in order, and every one carries
      one value per polynomial. */
  lemma SharesShape(ps: seq<Poly>, xs: seq<byte>, shares: seq<Share>)
    requires |ps| >= 1 && |xs| >= 1 && |shares| == |xs|
    requires forall k :: 0 <= k < |xs| ==> shares[k] == Share(xs[k], Values(ps, xs[k]))
    ensures ShareXs(shares) == xs
    ensures !SomeEmpty(shares) && SameLengths(shares) && |shares[0].ys| == |ps|
  {
    assert forall k :: 0 <= k < |shares| ==> |shares[k].ys| == |ps|;
  }

  /** Every column lies on its polynomial, so every column gives its
      constant term. */
  lemma ColumnsRecover(ps: seq<Poly>, shares: seq<Share>)
    requires Distinct(ShareXs(shares)) && |shares| >= 1
    requires forall i :: 0 <= i < |ps| ==> |ps[i]| <= |shares|
    requires forall k :: 0 <= k < |shares| ==> |shares[k].ys| == |ps|
    requires forall k, i :: 0 <= k < |shares| && 0 <= i < |ps| ==> shares[k].ys[i] == Eval(ps[i], shares[k].x)
    ensures InterpolateColumns(shares, |ps|) == Success(Secrets(ps))
  {
    var r := InterpolateColumns(shares, |ps|);
    var want := Secrets(ps);
    assert r.Success? && |r.value| == |want|;
    forall i | 0 <= i < |ps|
      ensures r.value[i] == want[i]
    {
      var c := Column(shares, i);
      assert forall k :: 0 <= k < |c| ==> c[k].y == Eval(ps[i], c[k].x);
      InterpolateSecret(ps[i], c);
    }
    assert r.value == want;
  }

  /** Two shares with the same index make every column's interpolation
      divide by zero, and the error comes out with the prefix. */
  lemma ReconstructDuplicateIndex(ps: seq<Poly>, xs: seq<byte>)
    requires |xs| >= 2 && !Distinct(xs) && |ps| >= 1
    ensures ReconstructSecret(SharesFor(ps, xs)) == Failure(FailurePrefix + DivisionByZero)
  {
    TryReconstructFor(ps, xs);
  }

  /** Shares that carry nothing but their index are refused. */
  lemma ReconstructIndicesOnly(xs: seq<byte>)
    requires |xs| >= 2
    ensures ReconstructSecret(SharesFor([], xs)) == Failure(FailurePrefix + NoData)
  {
    ParseSharesFor([], xs);
    var shares := ParseShares(SharesFor([], xs)).value;
    assert |shares[0].ys| == 0;
  }
}
