/** The educational simulation of `ShamirVisualization.runSimulation`. It is
    a scheme of its own, in plain integer arithmetic modulo 256 (the ring
    Z/256, not the field GF(2^8) the client reconstructs in): each byte of
    the secret gets a polynomial whose constant term is that byte, share
    `x` holds every polynomial's value at `x` modulo 256, and a random
    selection of `threshold` shares is run through a Lagrange formula whose
    modular inverse is found by search.

    Z/256 is not a field: a denominator that is even has no inverse, the
    search then quietly yields 1, and the reconstruction is wrong. So
    nothing here states that the simulation gives the secret back; the
    model states what it computes, and one worked input shows it failing.
    The same pipeline with the client's GF(2^8) arithmetic (`FieldSimulation`)
    does give the secret back.

    Randomness (`Math.random`) is an input: the coefficients come from a
    function of (byte position, power), the selection loop reads a list of
    drawn indices. */
module Visualization {
  import opened Wrappers
  import Bits
  import Utf8
  import GF256
  import Polynomial
  import ShamirClient
  import Recovery

  const Modulus: int := 256

  /** The sizes the "Number of Shares" selector offers. */
  const ShareCountOptions: seq<int> := [2, 3, 4, 5, 6]

  /** The sizes the "Threshold" selector offers for `n` shares:
      `Array.from({length: n - 1}, (_, i) => i + 2)`. */
  function ThresholdOptions(n: int): (r: seq<int>)
    ensures forall t :: t in r <==> 2 <= t <= n
    ensures forall i :: 0 <= i < |r| ==> r[i] == i + 2
  {
    var len := if n >= 1 then n - 1 else 0;
    var r := seq(len, i requires 0 <= i < len => i + 2);
    assert forall t :: 2 <= t <= n ==> t in r by {
      forall t | 2 <= t <= n ensures t in r {
        assert r[t - 2] == t;
      }
    }
    r
  }

  // ------------------------------------------------------------ JS arithmetic

  /** JavaScript's `a % 256`: the remainder takes the sign of the dividend. */
  function JsRem(a: int): (r: int)
    ensures a >= 0 ==> r == a % Modulus
    ensures -Modulus < r < Modulus && (a - r) % Modulus == 0
    ensures a < 0 ==> r <= 0
  {
    if a >= 0 then a % Modulus
    else
      var q := (-a) / Modulus;
      assert a - -((-a) % Modulus) == Modulus * -q;
      Bits.DivModUnique(Modulus * -q, Modulus, -q, 0);
      -((-a) % Modulus)
  }

  /** `v < 0 ? v + 256 : v`, applied to numerator and denominator. */
  function Normalize(v: int): (r: int)
    ensures -Modulus <= v < Modulus ==> 0 <= r < Modulus
    ensures (r - v) % Modulus == 0
  {
    if v < 0 then v + Modulus else v
  }

  function Pow(x: int, j: nat): int
  {
    if j == 0 then 1 else x * Pow(x, j - 1)
  }

  // ------------------------------------------------------------ step 2: coefficients

  /** `coefficients`: one list per secret byte, the byte first, then the
      random draws for powers 1 .. threshold-1. */
  function Coefficients(secret: seq<int>, threshold: int, rnd: (nat, nat) -> int): (cs: seq<seq<int>>)
    ensures |cs| == |secret|
    ensures forall i :: 0 <= i < |cs| ==> |cs[i]| == (if threshold >= 1 then threshold else 1) && cs[i][0] == secret[i]
    ensures forall i, j :: 0 <= i < |cs| && 1 <= j < |cs[i]| ==> cs[i][j] == rnd(i, j)
  {
    var extra := if threshold >= 1 then threshold - 1 else 0;
    seq(|secret|, i requires 0 <= i < |secret| => [secret[i]] + seq(extra, j requires 0 <= j < extra => rnd(i, j + 1)))
  }

  // ------------------------------------------------------------ step 3: shares

  /** The value of the polynomial with coefficients `c` at `x`, in the
      integers: c[0] + c[1]·x + … . */
  function PolyValue(c: seq<int>, x: int): int
    decreases |c|
  {
    if |c| == 0 then 0 else PolyValue(c[..|c| - 1], x) + c[|c| - 1] * Pow(x, |c| - 1)
  }

  /** The evaluation loops of step 3 for one byte at `x`: every term
      `c[j]·x^j` built by `j` multiplications, each reduced modulo 256, and
      the running sum reduced after every term. The result is the value of
      the polynomial modulo 256. */
  method EvaluateAt(c: seq<int>, x: int) returns (y: int)
    requires |c| >= 1 && 0 <= c[0] < Modulus
    requires forall j :: 0 <= j < |c| ==> c[j] >= 0
    requires x >= 0
    ensures 0 <= y < Modulus && y == PolyValue(c, x) % Modulus
  {
    y := c[0];
    assert c[..1] == [c[0]] && c[..0] == [];
    var j := 1;
    while j < |c|
      invariant 1 <= j <= |c|
      invariant 0 <= y < Modulus && y == PolyValue(c[..j], x) % Modulus
    {
      var term := PowerTerm(c[j], x, j);
      assert c[..j + 1][..j] == c[..j];
      ModAdd(y, term, PolyValue(c[..j], x), c[j] * Pow(x, j));
      y := (y + term) % Modulus;
      j := j + 1;
    }
    assert c[..|c|] == c;
  }

  /** The innermost loop: `term = (term * i) % 256`, `j` times. */
  method PowerTerm(coefficient: int, x: int, j: nat) returns (term: int)
    requires coefficient >= 0 && x >= 0
    ensures term >= 0 && term % Modulus == (coefficient * Pow(x, j)) % Modulus
  {
    term := coefficient;
    var k := 0;
    while k < j
      invariant 0 <= k <= j
      invariant term >= 0 && term % Modulus == (coefficient * Pow(x, k)) % Modulus
    {
      ModMul(term, x, coefficient * Pow(x, k));
      assert coefficient * Pow(x, k + 1) == coefficient * Pow(x, k) * x;
      term := (term * x) % Modulus;
      k := k + 1;
    }
  }

  /** One share of the simulation. */
  datatype VisShare = VisShare(x: int, yValues: seq<int>)

  /** `shares`: x = 1 .. n in order, each holding every byte polynomial's
      value at x modulo 256 (what `EvaluateAt` computes). */
  function Shares(cs: seq<seq<int>>, n: int): (r: seq<VisShare>)
    ensures |r| == (if n >= 1 then n else 0)
    ensures forall k :: 0 <= k < |r| ==> r[k].x == k + 1 && |r[k].yValues| == |cs|
    ensures forall k, b :: 0 <= k < |r| && 0 <= b < |cs| ==> r[k].yValues[b] == PolyValue(cs[b], k + 1) % Modulus
  {
    var count := if n >= 1 then n else 0;
    seq(count, k requires 0 <= k < count =>
      VisShare(k + 1, seq(|cs|, b requires 0 <= b < |cs| => PolyValue(cs[b], k + 1) % Modulus)))
  }

  // ------------------------------------------------------------ step 5: selection

  /** Whether the list has no repeated element. */
  predicate NoRepeats(s: seq<int>)
  {
    forall i, j :: 0 <= i < j < |s| ==> s[i] != s[j]
  }

  /** The `while (selectedIndices.length < threshold)` loop, fed the drawn
      indices in order: a draw already selected is skipped. `None` means
      the draws ran out with the loop still running. */
  function Select(draws: seq<int>, selected: seq<int>, threshold: int): (r: Option<seq<int>>)
    requires NoRepeats(selected)
    ensures r.Some? ==> NoRepeats(r.value) && |r.value| == (if threshold > |selected| then threshold else |selected|)
    ensures r.Some? ==> forall i :: 0 <= i < |r.value| ==> r.value[i] in selected || r.value[i] in draws
    ensures r.Some? ==> r.value[..|selected|] == selected
    decreases |draws|
  {
    if |selected| >= threshold then Some(selected)
    else if |draws| == 0 then None
    else if draws[0] in selected then Select(draws[1..], selected, threshold)
    else Select(draws[1..], selected + [draws[0]], threshold)
  }

  /** A list without repeats drawn from 0 .. n-1 has at most n elements. */
  lemma {:induction false} NoRepeatsBound(s: seq<int>, n: int)
    requires n >= 0 && NoRepeats(s) && forall i :: 0 <= i < |s| ==> 0 <= s[i] < n
    ensures |s| <= n
    decreases |s|
  {
    if |s| > 0 {
      assert 0 <= s[0] < n;
      var m := n - 1;
      // move the largest admissible value out of the way: replace n-1 by s's last element
      var last := s[|s| - 1];
      var t := s[..|s| - 1];
      var u := seq(|t|, i requires 0 <= i < |t| => if t[i] == m then last else t[i]);
      assert forall i :: 0 <= i < |u| ==> 0 <= u[i] < m by {
        forall i | 0 <= i < |u| ensures 0 <= u[i] < m {
          assert t[i] != last;
          if t[i] != m {
            assert t[i] < m;
          } else {
            assert last != m;
          }
        }
      }
      assert NoRepeats(u) by {
        forall i, j | 0 <= i < j < |u| ensures u[i] != u[j] {
          assert t[i] != t[j] && t[i] != last && t[j] != last;
        }
      }
      NoRepeatsBound(u, m);
    }
  }

  /** A threshold above the number of shares (the threshold selector is
      disabled, not reset, when the share count drops below it) leaves the
      selection loop running forever: no list of draws, however long,
      lets it finish. */
  lemma SelectionNeverEnds(draws: seq<int>, n: int, threshold: int)
    requires 0 <= n < threshold && forall t :: 0 <= t < |draws| ==> 0 <= draws[t] < n
    ensures Select(draws, [], threshold).None?
  {
    var r := Select(draws, [], threshold);
    if r.Some? {
      forall i | 0 <= i < |r.value| ensures 0 <= r.value[i] < n {
        assert r.value[i] in draws;
      }
      NoRepeatsBound(r.value, n);
    }
  }

  // ------------------------------------------------------------ step 6: interpolation

  /** `k` is an inverse of `d` modulo 256. */
  predicate Inverts(d: int, k: int)
  {
    (d * k) % Modulus == 1
  }

  /** The inverse search from `k` on: the first k' in k .. 255 with
      (d·k') % 256 = 1, and 1 when there is none. */
  function SearchInverse(d: int, k: nat): (inv: int)
    requires d >= 0 && 1 <= k
    ensures (exists k' :: k <= k' < Modulus && Inverts(d, k')) ==>
      k <= inv < Modulus && Inverts(d, inv) && forall k' :: k <= k' < inv ==> !Inverts(d, k')
    ensures !(exists k' :: k <= k' < Modulus && Inverts(d, k')) ==> inv == 1
    decreases Modulus - k
  {
    if k >= Modulus then 1
    else
      assert d * k >= 0;
      if JsRem(d * k) == 1 then
        assert Inverts(d, k);
        k
      else
        assert !Inverts(d, k);
        SearchInverse(d, k + 1)
  }

  /** `let inverse = 1; for (k = 1; k < 256; k++) …`. */
  function Inverse(d: int): int
    requires d >= 0
  {
    SearchInverse(d, 1)
  }

  /** An odd denominator has an inverse modulo 256, and the search finds
      the least one; an even one has none, and the search gives 1. */
  lemma InverseSearch(d: int)
    requires d >= 0
    ensures d % 2 == 1 ==> 1 <= Inverse(d) < Modulus && Inverts(d, Inverse(d))
    ensures d % 2 == 1 ==> forall k :: 1 <= k < Inverse(d) ==> !Inverts(d, k)
    ensures d % 2 == 0 ==> Inverse(d) == 1
  {
    if d % 2 == 1 {
      var k := OddInverse(d);
      assert 1 <= k < Modulus && Inverts(d, k);
    } else {
      forall k' | 1 <= k' < Modulus ensures !Inverts(d, k') {
        EvenProduct(d, k');
      }
    }
  }

  lemma EvenProduct(d: int, k: int)
    requires d >= 0 && k >= 1 && d % 2 == 0
    ensures (d * k) % Modulus != 1
  {
    var h := d / 2;
    assert d * k == 2 * (h * k);
    var q, r := (d * k) / Modulus, (d * k) % Modulus;
    assert d * k == Modulus * q + r;
    assert r == 2 * (h * k - 128 * q);
  }

  /** x ≡ 1 (mod 2^m) gives x² ≡ 1 (mod 2^(m+1)). */
  lemma SquareLift(x: int, m: nat)
    requires m >= 1 && x % Bits.Pow2(m) == 1
    ensures (x * x) % Bits.Pow2(m + 1) == 1
  {
    var p, h := Bits.Pow2(m), Bits.Pow2(m - 1);
    assert p == 2 * h && Bits.Pow2(m + 1) == 2 * p;
    var q := x / p;
    assert x == p * q + 1;
    assert x * x == p * p * q * q + 2 * p * q + 1;
    assert p * p * q * q == 2 * p * (h * q * q);
    assert x * x == 2 * p * (h * q * q + q) + 1;
    Bits.DivModUnique(x * x, 2 * p, h * q * q + q, 1);
  }

  /** d^(2^i): `d` squared `i` times. */
  function Square(d: int, i: nat): int
  {
    if i == 0 then d else Square(d, i - 1) * Square(d, i - 1)
  }

  /** d^(2^(i+1) - 1) = d · d² · d⁴ · … · d^(2^i). */
  function Partial(d: int, i: nat): int
  {
    if i == 0 then d else Partial(d, i - 1) * Square(d, i)
  }

  lemma {:induction false} PartialTimes(d: int, i: nat)
    ensures d * Partial(d, i) == Square(d, i + 1)
  {
    if i > 0 {
      PartialTimes(d, i - 1);
      var p, s := Partial(d, i - 1), Square(d, i);
      assert d * (p * s) == (d * p) * s;
    }
  }

  lemma {:induction false} SquareOdd(d: int, i: nat)
    requires d % 2 == 1
    ensures Square(d, i) % Bits.Pow2(i + 1) == 1
  {
    if i == 0 {
      assert Bits.Pow2(1) == 2;
    } else {
      SquareOdd(d, i - 1);
      SquareLift(Square(d, i - 1), i);
    }
  }

  /** An explicit inverse of an odd number modulo 256: d^127, since
      d^128 is 1 modulo 256. */
  lemma OddInverse(d: int) returns (k: int)
    requires d >= 0 && d % 2 == 1
    ensures 1 <= k < Modulus && Inverts(d, k)
  {
    assert Bits.Pow2(1) == 2 && Bits.Pow2(2) == 4 && Bits.Pow2(3) == 8 && Bits.Pow2(4) == 16;
    assert Bits.Pow2(5) == 32 && Bits.Pow2(6) == 64 && Bits.Pow2(7) == 128 && Bits.Pow2(8) == 256;
    SquareOdd(d, 7);
    PartialTimes(d, 6);
    var t := Partial(d, 6);
    k := t % Modulus;
    ModMulRight(d, t, k);
    assert (d * 0) % Modulus == 0;
  }

  /** The inner loop for share `i`, from `j` on: multiply by the
      normalised numerator and the inverse of the normalised denominator
      for every other share, reduce with `%`, lift a negative result. */
  function BasisTerm(xs: seq<int>, i: nat, j: nat, term: int): (r: int)
    requires i < |xs| && j <= |xs|
    requires forall k :: 0 <= k < |xs| ==> 1 <= xs[k] <= Modulus
    ensures 0 <= term < Modulus ==> 0 <= r < Modulus
    decreases |xs| - j
  {
    if j == |xs| then term
    else if i == j then BasisTerm(xs, i, j + 1, term)
    else
      var numerator := Normalize(0 - xs[j]);
      var denominator := Normalize(xs[i] - xs[j]);
      var t := JsRem(term * numerator * Inverse(denominator));
      BasisTerm(xs, i, j + 1, if t < 0 then t + Modulus else t)
  }

  /** The outer loop over the selected shares from `i` on. */
  function SumTerms(xs: seq<int>, ys: seq<int>, i: nat, acc: int): (r: int)
    requires |ys| == |xs| && i <= |xs|
    requires forall k :: 0 <= k < |xs| ==> 1 <= xs[k] <= Modulus && 0 <= ys[k] < Modulus
    requires 0 <= acc < Modulus
    ensures 0 <= r < Modulus
    decreases |xs| - i
  {
    if i == |xs| then acc
    else SumTerms(xs, ys, i + 1, JsRem(acc + BasisTerm(xs, i, 0, ys[i])))
  }

  /** The reconstructed bytes: every byte position interpolated at 0 from
      the selected shares. */
  function Reconstruct(selected: seq<VisShare>, len: nat): (r: seq<int>)
    requires forall k :: 0 <= k < |selected| ==> 1 <= selected[k].x <= Modulus && |selected[k].yValues| >= len
    requires forall k, b :: 0 <= k < |selected| && 0 <= b < len ==> 0 <= selected[k].yValues[b] < Modulus
    ensures |r| == len && forall b :: 0 <= b < len ==> 0 <= r[b] < Modulus
  {
    var xs := seq(|selected|, k requires 0 <= k < |selected| => selected[k].x);
    seq(len, b requires 0 <= b < len =>
      SumTerms(xs, seq(|selected|, k requires 0 <= k < |selected| => selected[k].yValues[b]), 0, 0))
  }

  // ------------------------------------------------------------ the whole run

  datatype Simulation = Simulation(
    coefficients: seq<seq<int>>,
    shares: seq<VisShare>,
    selected: seq<VisShare>,
    reconstructed: seq<int>,
    text: string)

  /** `selectedIndices.map(idx => shares[idx])`. */
  function Pick<T>(shares: seq<T>, indices: seq<int>): (sel: seq<T>)
    requires forall k :: 0 <= k < |indices| ==> 0 <= indices[k] < |shares|
    ensures |sel| == |indices| && forall k :: 0 <= k < |indices| ==> sel[k] == shares[indices[k]]
  {
    seq(|indices|, k requires 0 <= k < |indices| => shares[indices[k]])
  }

  /** Steps 5 and 6: select shares with the draws, interpolate every byte
      position. `None` when the selection loop has not finished. */
  function SelectAndReconstruct(shares: seq<VisShare>, threshold: int, draws: seq<int>, len: nat)
    : (r: Option<(seq<VisShare>, seq<int>)>)
    requires |shares| <= Modulus && forall t :: 0 <= t < |draws| ==> 0 <= draws[t] < |shares|
    requires forall k :: 0 <= k < |shares| ==> shares[k].x == k + 1 && |shares[k].yValues| >= len
    requires forall k, b :: 0 <= k < |shares| && 0 <= b < len ==> 0 <= shares[k].yValues[b] < Modulus
    ensures r.Some? ==> |r.value.0| == (if threshold > 0 then threshold else 0)
    ensures r.Some? ==> forall k :: 0 <= k < |r.value.0| ==> r.value.0[k] in shares
    ensures r.Some? ==> forall k, l :: 0 <= k < l < |r.value.0| ==> r.value.0[k].x != r.value.0[l].x
    ensures r.Some? ==> |r.value.1| == len && forall b :: 0 <= b < len ==> 0 <= r.value.1[b] < Modulus
  {
    match Select(draws, [], threshold)
    case None => None
    case Some(indices) =>
      SelectedInRange(draws, indices, |shares|);
      var selected := Pick(shares, indices);
      PickDistinct(shares, indices);
      Some((selected, Reconstruct(selected, len)))
  }

  /** `runSimulation()` without its timers: `None` when the selection loop
      has not finished on the draws given. Every draw is
      `Math.floor(Math.random() * numberOfShares)`, so lies in 0 .. n-1. */
  function RunSimulation(secretText: string, n: int, threshold: int, rnd: (nat, nat) -> int, draws: seq<int>)
    : (r: Option<Simulation>)
    requires n <= Modulus && forall t :: 0 <= t < |draws| ==> 0 <= draws[t] < n
    ensures r.Some? ==> |r.value.shares| == (if n >= 1 then n else 0)
    ensures r.Some? ==> |r.value.selected| == (if threshold > 0 then threshold else 0)
    ensures r.Some? ==> |r.value.reconstructed| == |Utf8.Encode(secretText)|
    ensures r.Some? ==> forall b :: 0 <= b < |r.value.reconstructed| ==> 0 <= r.value.reconstructed[b] < Modulus
    ensures r.Some? ==> r.value.text == Utf8.Decode(r.value.reconstructed)
    ensures r.Some? ==> forall k :: 0 <= k < |r.value.selected| ==> r.value.selected[k] in r.value.shares
    ensures r.Some? ==> forall k, l :: 0 <= k < l < |r.value.selected| ==> r.value.selected[k].x != r.value.selected[l].x
  {
    var bytes := Utf8.Encode(secretText);
    var cs := Coefficients(bytes, threshold, rnd);
    var shares := Shares(cs, n);
    match SelectAndReconstruct(shares, threshold, draws, |bytes|)
    case None => None
    case Some((selected, out)) =>
      var outBytes: seq<GF256.byte> := out;
      var text := Utf8.Decode(outBytes);
      Some(Simulation(cs, shares, selected, out, text))
  }

  /** Shares picked by distinct positions have distinct indices `x`. */
  lemma PickDistinct(shares: seq<VisShare>, indices: seq<int>)
    requires forall k :: 0 <= k < |shares| ==> shares[k].x == k + 1
    requires NoRepeats(indices) && forall k :: 0 <= k < |indices| ==> 0 <= indices[k] < |shares|
    ensures forall k :: 0 <= k < |indices| ==> Pick(shares, indices)[k] in shares
    ensures forall k, l :: 0 <= k < l < |indices| ==> Pick(shares, indices)[k].x != Pick(shares, indices)[l].x
  {
  }

  lemma SelectedInRange(draws: seq<int>, indices: seq<int>, n: int)
    requires forall t :: 0 <= t < |draws| ==> 0 <= draws[t] < n
    requires forall i :: 0 <= i < |indices| ==> indices[i] in draws
    ensures forall i :: 0 <= i < |indices| ==> 0 <= indices[i] < n
  {
    forall i | 0 <= i < |indices| ensures 0 <= indices[i] < n {
      var t :| 0 <= t < |draws| && draws[t] == indices[i];
    }
  }

  /** The simulation does not always give the secret back. Secret byte 0,
      threshold 2, every random coefficient 1: the shares at x = 1, 2, 3
      hold 1, 2, 3, and the draws 0 then 2 select x = 1 and x = 3. Both
      denominators are then even (254 and 2), the search falls back to 1
      for each, and the byte comes back as 250. */
  lemma EvenGapMisreconstructs()
    ensures Shares(Coefficients([0], 2, AllOnes), 3) == [VisShare(1, [1]), VisShare(2, [2]), VisShare(3, [3])]
    ensures Select([0, 2], [], 2) == Some([0, 2])
    ensures Reconstruct([VisShare(1, [1]), VisShare(3, [3])], 1) == [250]
  {
    ExampleShares();
    assert [0, 2][1..] == [2] && [2][1..] == [] && [] + [0] == [0] && [0] + [2] == [0, 2];
    assert Select([], [0, 2], 2) == Some([0, 2]);
    assert Select([2], [0], 2) == Some([0, 2]);
    ExampleReconstruct();
  }

  /** The draws of the example: every random coefficient is 1. */
  function AllOnes(i: nat, j: nat): int
  {
    1
  }

  lemma ExampleShares()
    ensures Shares(Coefficients([0], 2, AllOnes), 3) == [VisShare(1, [1]), VisShare(2, [2]), VisShare(3, [3])]
  {
    var cs := Coefficients([0], 2, AllOnes);
    assert |cs| == 1 && |cs[0]| == 2 && cs[0][0] == 0 && cs[0][1] == AllOnes(0, 1) == 1;
    assert cs[0] == [0, 1];
    LinearValue(0, 1, 1);
    LinearValue(0, 1, 2);
    LinearValue(0, 1, 3);
    var r := Shares(cs, 3);
    assert PolyValue(cs[0], 1) == 1 && PolyValue(cs[0], 2) == 2 && PolyValue(cs[0], 3) == 3;
    assert r[0].yValues == [1] && r[1].yValues == [2] && r[2].yValues == [3];
  }

  lemma LinearValue(a: int, b: int, x: int)
    ensures PolyValue([a, b], x) == a + b * x
  {
    assert [a, b][..1] == [a] && [a][..0] == [];
    assert Pow(x, 0) == 1 && Pow(x, 1) == x;
    assert PolyValue([a], x) == a;
  }

  lemma ExampleReconstruct()
    ensures Reconstruct([VisShare(1, [1]), VisShare(3, [3])], 1) == [250]
  {
    InverseSearch(254);
    InverseSearch(2);
    var xs := [1, 3];
    assert Normalize(0 - 3) == 253 && Normalize(1 - 3) == 254;
    assert BasisTerm(xs, 0, 2, 253) == 253;
    assert BasisTerm(xs, 0, 0, 1) == 253;
    assert Normalize(0 - 1) == 255 && Normalize(3 - 1) == 2;
    assert JsRem(3 * 255 * 1) == 253;
    assert BasisTerm(xs, 1, 0, 3) == 253;
    assert JsRem(253 + 253) == 250;
    assert SumTerms(xs, [1, 3], 2, 250) == 250;
    assert SumTerms(xs, [1, 3], 0, 0) == 250;
    var sel := [VisShare(1, [1]), VisShare(3, [3])];
    assert seq(|sel|, k requires 0 <= k < |sel| => sel[k].x) == xs;
    assert seq(|sel|, k requires 0 <= k < |sel| => sel[k].yValues[0]) == [1, 3];
  }

  // ------------------------------------------------------------ when the simulation is right

  /** Two shares whose indices differ by an odd number: both denominators
      are odd, so both inverses exist, and the page gives every byte of
      the secret back. (Among three or more shares two indices always
      differ by an even number.) */
  lemma OddGapReconstructs(secret: seq<int>, rnd: (nat, nat) -> int, n: int, i1: int, i2: int)
    requires forall b :: 0 <= b < |secret| ==> 0 <= secret[b] < Modulus
    requires n <= Modulus && 0 <= i1 < n && 0 <= i2 < n && (i1 - i2) % 2 == 1
    ensures Reconstruct(Pick(Shares(Coefficients(secret, 2, rnd), n), [i1, i2]), |secret|) == secret
  {
    var cs := Coefficients(secret, 2, rnd);
    var r := Reconstruct(Pick(Shares(cs, n), [i1, i2]), |cs|);
    var x1, x2 := i1 + 1, i2 + 1;
    assert (x1 - x2) % 2 == 1 by { assert x1 - x2 == i1 - i2; }
    forall b | 0 <= b < |secret| ensures r[b] == secret[b] {
      var c := rnd(b, 1);
      assert cs[b] == [secret[b], c];
      PickedByte(cs, n, i1, i2, x1, x2, b, secret[b], c);
    }
  }

  /** Byte `b` of the reconstruction from the shares at `i1` and `i2`, when
      that byte's polynomial is the line y = s + c·x and the shares' x
      differ by an odd number, is s. */
  lemma PickedByte(cs: seq<seq<int>>, n: int, i1: int, i2: int, x1: int, x2: int, b: nat, s: int, c: int)
    requires b < |cs| && cs[b] == [s, c] && 0 <= s < Modulus
    requires n <= Modulus && 0 <= i1 < n && 0 <= i2 < n && x1 == i1 + 1 && x2 == i2 + 1 && (x1 - x2) % 2 == 1
    ensures Reconstruct(Pick(Shares(cs, n), [i1, i2]), |cs|)[b] == s
  {
    PickedPair(cs, n, i1, i2);
    PickedOnLine(cs, n, i1, i2, x1, x2, b, s, c);
    SelectedByte(Pick(Shares(cs, n), [i1, i2]), |cs|, b, s, c, x1, x2);
  }

  /** The two picked shares meet what interpolation needs of them. */
  lemma PickedPair(cs: seq<seq<int>>, n: int, i1: int, i2: int)
    requires n <= Modulus && 0 <= i1 < n && 0 <= i2 < n
    ensures var sel := Pick(Shares(cs, n), [i1, i2]);
      && |sel| == 2 && sel[0].x == i1 + 1 && sel[1].x == i2 + 1
      && (forall k :: 0 <= k < |sel| ==> 1 <= sel[k].x <= Modulus && |sel[k].yValues| >= |cs|)
      && (forall k, b' :: 0 <= k < |sel| && 0 <= b' < |cs| ==> 0 <= sel[k].yValues[b'] < Modulus)
      && sel[0].yValues == Shares(cs, n)[i1].yValues && sel[1].yValues == Shares(cs, n)[i2].yValues
  {
    var shares := Shares(cs, n);
    var sel := Pick(shares, [i1, i2]);
    forall k, b' | 0 <= k < |sel| && 0 <= b' < |cs| ensures 0 <= sel[k].yValues[b'] < Modulus {
      assert sel[k] == shares[[i1, i2][k]];
    }
  }

  /** Byte `b` of both picked shares lies on the line of that byte's
      coefficients. */
  lemma PickedOnLine(cs: seq<seq<int>>, n: int, i1: int, i2: int, x1: int, x2: int, b: nat, s: int, c: int)
    requires b < |cs| && cs[b] == [s, c] && 0 <= i1 < n && 0 <= i2 < n && x1 == i1 + 1 && x2 == i2 + 1
    ensures var sel := Pick(Shares(cs, n), [i1, i2]);
      && sel[0].yValues[b] == (s + c * x1) % Modulus && sel[1].yValues[b] == (s + c * x2) % Modulus
  {
    OnLine(cs, n, i1, x1, b, s, c);
    OnLine(cs, n, i2, x2, b, s, c);
  }

  /** Byte `b` of share `k` lies on the line of that byte's coefficients. */
  lemma OnLine(cs: seq<seq<int>>, n: int, k: int, x: int, b: nat, s: int, c: int)
    requires b < |cs| && cs[b] == [s, c] && 0 <= k < n && x == k + 1
    ensures Shares(cs, n)[k].yValues[b] == (s + c * x) % Modulus
  {
    LinearValue(s, c, x);
  }

  /** Byte `b` of the reconstruction from two shares on the line y = s + c·x
      whose x differ by an odd number is s. */
  lemma SelectedByte(sel: seq<VisShare>, len: nat, b: nat, s: int, c: int, x1: int, x2: int)
    requires |sel| == 2 && sel[0].x == x1 && sel[1].x == x2 && b < len
    requires forall k :: 0 <= k < |sel| ==> 1 <= sel[k].x <= Modulus && |sel[k].yValues| >= len
    requires forall k, b' :: 0 <= k < |sel| && 0 <= b' < len ==> 0 <= sel[k].yValues[b'] < Modulus
    requires sel[0].yValues[b] == (s + c * x1) % Modulus && sel[1].yValues[b] == (s + c * x2) % Modulus
    requires 0 <= s < Modulus && (x1 - x2) % 2 == 1
    ensures Reconstruct(sel, len)[b] == s
  {
    var xs := seq(|sel|, k requires 0 <= k < |sel| => sel[k].x);
    assert xs == [x1, x2];
    var ys := seq(|sel|, k requires 0 <= k < |sel| => sel[k].yValues[b]);
    assert ys == [(s + c * x1) % Modulus, (s + c * x2) % Modulus];
    TwoSharesOddGap(s, c, x1, x2);
  }

  /** The interpolation loops on two points of the line y = s + c·x whose
      x differ by an odd number yield s. */
  lemma TwoSharesOddGap(s: int, c: int, x1: int, x2: int)
    requires 0 <= s < Modulus && 1 <= x1 <= Modulus && 1 <= x2 <= Modulus && (x1 - x2) % 2 == 1
    ensures SumTerms([x1, x2], [(s + c * x1) % Modulus, (s + c * x2) % Modulus], 0, 0) == s
  {
    Mult1(s + c * x1);
    Mult1(s + c * x2);
    LineRecovered(s, c, x1, x2, (s + c * x1) % Modulus, (s + c * x2) % Modulus);
  }

  /** The same for any two values congruent to the line's. */
  lemma LineRecovered(s: int, c: int, x1: int, x2: int, y1: int, y2: int)
    requires 0 <= s < Modulus && 1 <= x1 <= Modulus && 1 <= x2 <= Modulus && (x1 - x2) % 2 == 1
    requires 0 <= y1 < Modulus && 0 <= y2 < Modulus
    requires Mult(y1 - (s + c * x1)) && Mult(y2 - (s + c * x2))
    ensures SumTerms([x1, x2], [y1, y2], 0, 0) == s
  {
    var e, f := GapInverses(x1, x2);
    var b0 := TermOf(x1, x2, y1, e);
    var b1 := TermOf(x2, x1, y2, f);
    BasisFirst(x1, x2, y1, b0);
    BasisSecond(x1, x2, y2, b1);
    PairSum(s, c, x1, x2, y1, y2, e, f, b0, b1);
    SumOfTwo(x1, x2, y1, y2, b0, b1);
  }

  /** Two terms congruent to -x2·y1·e and -x1·y2·f, for inverses e and f
      of the two gaps and y_i on the line s + c·x, add up to s modulo 256. */
  lemma PairSum(s: int, c: int, x1: int, x2: int, y1: int, y2: int, e: int, f: int, b0: int, b1: int)
    requires 0 <= s < Modulus && Mult(y1 - (s + c * x1)) && Mult(y2 - (s + c * x2))
    requires Mult((x1 - x2) * e - 1) && Mult((x2 - x1) * f - 1)
    requires Mult(b0 + x2 * y1 * e) && b0 >= 0 && Mult(b1 + x1 * y2 * f) && b1 >= 0
    ensures JsRem(b0 + b1) == s
  {
    var u := CrossTerms(s, c, x1, x2, y1, y2, e, f);
    Combine(b0, b1, s, x2 * y1 * e, x1 * y2 * f, u);
  }

  /** The gaps x1 - x2 and x2 - x1 of a pair at an odd distance both have
      inverses modulo 256, and the page's search finds them. */
  lemma GapInverses(x1: int, x2: int) returns (e: int, f: int)
    requires 1 <= x1 <= Modulus && 1 <= x2 <= Modulus && (x1 - x2) % 2 == 1
    ensures e == Inverse(Normalize(x1 - x2)) && Mult((x1 - x2) * e - 1)
    ensures f == Inverse(Normalize(x2 - x1)) && Mult((x2 - x1) * f - 1)
  {
    e := HasInverse(x1 - x2);
    OddSwap(x1, x2);
    f := HasInverse(x2 - x1);
  }

  /** The outer loop over two shares adds the two basis terms modulo 256. */
  lemma SumOfTwo(x1: int, x2: int, y1: int, y2: int, b0: int, b1: int)
    requires 1 <= x1 <= Modulus && 1 <= x2 <= Modulus && 0 <= y1 < Modulus && 0 <= y2 < Modulus
    requires b0 == BasisTerm([x1, x2], 0, 0, y1) && b1 == BasisTerm([x1, x2], 1, 0, y2)
    ensures SumTerms([x1, x2], [y1, y2], 0, 0) == JsRem(b0 + b1)
  {
    var xs, ys := [x1, x2], [y1, y2];
    assert ys[0] == y1 && ys[1] == y2;
    var r := JsRem(b0 + b1);
    SumFirst(xs, ys, b0);
    SumStep(xs, ys, 1, b0, b1, r);
    SumEnd(xs, ys, r);
  }

  /** The first step of the outer loop keeps the first basis term as it is. */
  lemma SumFirst(xs: seq<int>, ys: seq<int>, b: int)
    requires |ys| == |xs| && 0 < |xs|
    requires forall k :: 0 <= k < |xs| ==> 1 <= xs[k] <= Modulus && 0 <= ys[k] < Modulus
    requires b == BasisTerm(xs, 0, 0, ys[0])
    ensures 0 <= b < Modulus && SumTerms(xs, ys, 0, 0) == SumTerms(xs, ys, 1, b)
  {
    JsRemSmall(b);
    SumStep(xs, ys, 0, 0, b, b);
  }

  lemma JsRemSmall(a: int)
    requires 0 <= a < Modulus
    ensures JsRem(0 + a) == a
  {
  }

  lemma SumEnd(xs: seq<int>, ys: seq<int>, acc: int)
    requires |ys| == |xs|
    requires forall k :: 0 <= k < |xs| ==> 1 <= xs[k] <= Modulus && 0 <= ys[k] < Modulus
    requires 0 <= acc < Modulus
    ensures SumTerms(xs, ys, |xs|, acc) == acc
  {
  }

  /** One step of the outer loop with basis term `b`. */
  lemma SumStep(xs: seq<int>, ys: seq<int>, i: nat, acc: int, b: int, next: int)
    requires |ys| == |xs| && i < |xs|
    requires forall k :: 0 <= k < |xs| ==> 1 <= xs[k] <= Modulus && 0 <= ys[k] < Modulus
    requires 0 <= acc < Modulus && b == BasisTerm(xs, i, 0, ys[i]) && next == JsRem(acc + b)
    ensures 0 <= next < Modulus && SumTerms(xs, ys, i, acc) == SumTerms(xs, ys, i + 1, next)
  {
  }

  /** b0 + b1 ≡ s once b0 ≡ -p, b1 ≡ -q and -p - q ≡ s. */
  lemma Combine(b0: int, b1: int, s: int, p: int, q: int, u: int)
    requires 0 <= s < Modulus && Mult(b0 + p) && Mult(b1 + q)
    requires b0 >= 0 && b1 >= 0 && u == -p - q - s && Mult(u)
    ensures JsRem(b0 + b1) == s
  {
    MultSum(b0 + p, b1 + q);
    MultSum((b0 + p) + (b1 + q), u);
    MultDiff(b0 + b1, s);
  }

  /** With y_i ≡ s + c·x_i and d·e ≡ 1 ≡ -d·f for d = x1 - x2, the two
      terms -x2·y1·e - x1·y2·f add up to s modulo 256. */
  lemma CrossTerms(s: int, c: int, x1: int, x2: int, y1: int, y2: int, e: int, f: int) returns (u: int)
    requires Mult(y1 - (s + c * x1)) && Mult(y2 - (s + c * x2))
    requires Mult((x1 - x2) * e - 1) && Mult((x2 - x1) * f - 1)
    ensures u == -(x2 * y1 * e) - x1 * y2 * f - s && Mult(u)
  {
    var d := x1 - x2;
    u := -(x2 * y1 * e) - x1 * y2 * f - s;
    var g1, g2 := y1 - (s + c * x1), y2 - (s + c * x2);
    var w := x1 * y2 - x2 * y1 - s * d;
    LineCross(s, c, x1, x2, y1, y2, g1, g2);
    MultTimes(g2, x1);
    MultTimes(g1, x2);
    MultDiffOf(g2 * x1, g1 * x2);
    var m1, m2 := (d * e - 1) * (-x2 * y1), ((x2 - x1) * f - 1) * (x1 * y2);
    MultTimes(d * e - 1, -x2 * y1);
    MultTimes((x2 - x1) * f - 1, x1 * y2);
    TermsTimesGap(u, d, e, f, x1, x2, y1, y2, s);
    MultSum(m1, m2);
    MultSum(m1 + m2, w);
    var m3 := (d * e - 1) * -u;
    MultTimes(d * e - 1, -u);
    MultTimes(u * d, e);
    UndoGap(u, d, e);
    MultSum(m3, (u * d) * e);
  }

  /** x1·y2 - x2·y1 - s·(x1 - x2) = x1·g2 - x2·g1 for g_i = y_i - (s + c·x_i). */
  lemma LineCross(s: int, c: int, x1: int, x2: int, y1: int, y2: int, g1: int, g2: int)
    requires g1 == y1 - (s + c * x1) && g2 == y2 - (s + c * x2)
    ensures x1 * y2 - x2 * y1 - s * (x1 - x2) == g2 * x1 - g1 * x2
  {
    assert g2 * x1 == y2 * x1 - s * x1 - c * x2 * x1;
    assert g1 * x2 == y1 * x2 - s * x2 - c * x1 * x2;
  }

  /** u·d spread over the two inverse defects and the cross term. */
  lemma TermsTimesGap(u: int, d: int, e: int, f: int, x1: int, x2: int, y1: int, y2: int, s: int)
    requires u == -(x2 * y1 * e) - x1 * y2 * f - s && d == x1 - x2
    ensures u * d == (d * e - 1) * (-x2 * y1) + ((x2 - x1) * f - 1) * (x1 * y2) + (x1 * y2 - x2 * y1 - s * d)
  {
    assert u * d == -(x2 * y1 * e) * d - x1 * y2 * f * d - s * d;
    assert (d * e - 1) * (-x2 * y1) == -(x2 * y1 * e) * d + x2 * y1;
    assert ((x2 - x1) * f - 1) * (x1 * y2) == -(x1 * y2 * f * d) - x1 * y2;
  }

  lemma UndoGap(u: int, d: int, e: int)
    ensures u == (d * e - 1) * -u + (u * d) * e
  {
    assert (d * e - 1) * -u == -(u * d * e) + u;
  }

  lemma OddSwap(x1: int, x2: int)
    requires (x1 - x2) % 2 == 1
    ensures (x2 - x1) % 2 == 1
  {
    var q := (x1 - x2) / 2;
    assert x2 - x1 == 2 * (-q - 1) + 1;
    Bits.DivModUnique(x2 - x1, 2, -q - 1, 1);
  }

  /** An odd difference of two indices, normalised, is odd and so has an
      inverse e with d·e ≡ 1. */
  lemma HasInverse(d: int) returns (e: int)
    requires -Modulus < d < Modulus && d % 2 == 1
    ensures 0 <= Normalize(d) < Modulus && e == Inverse(Normalize(d)) && Mult(d * e - 1)
  {
    var nd := Normalize(d);
    assert nd % 2 == 1;
    InverseSearch(nd);
    e := Inverse(nd);
    assert Inverts(nd, e);
    assert Mult(nd - d);
    ShiftInverse(nd, d, e);
  }

  /** An inverse of a number is an inverse of everything congruent to it. */
  lemma ShiftInverse(nd: int, d: int, e: int)
    requires Mult(nd - d) && (nd * e) % Modulus == 1
    ensures Mult(d * e - 1)
  {
    var p, q := nd * e, (nd - d) * e;
    Mult1(p);
    MultTimes(nd - d, e);
    MultDiffOf(p - 1, q);
    GapProduct(nd, d, e);
  }

  lemma GapProduct(nd: int, d: int, e: int)
    ensures d * e - 1 == (nd * e - 1) - (nd - d) * e
  {
  }

  /** One step of the inner loop, share at `xi`, other share at `xj`: the
      product y·(-xj)·inverse, up to a multiple of 256. */
  lemma TermOf(xi: int, xj: int, y: int, inv: int) returns (t': int)
    requires 1 <= xi <= Modulus && 1 <= xj <= Modulus && 0 <= y < Modulus && inv == Inverse(Normalize(xi - xj))
    ensures t' == Lifted(y, xi, xj) && Mult(t' + xj * y * inv) && t' >= 0
  {
    t' := Lifted(y, xi, xj);
    var num := Normalize(0 - xj);
    var t := JsRem(y * num * inv);
    LiftedRem(y * num * inv, t, t');
    assert Mult(num - (0 - xj));
    ReducedProduct(t', y, num, xj, inv);
  }

  /** The inner loop for the first of two shares runs one step. */
  lemma BasisFirst(x1: int, x2: int, y: int, t': int)
    requires 1 <= x1 <= Modulus && 1 <= x2 <= Modulus && t' == Lifted(y, x1, x2)
    ensures BasisTerm([x1, x2], 0, 0, y) == t'
  {
    var xs := [x1, x2];
    assert xs[0] == x1 && xs[1] == x2;
    BasisSkip(xs, 0, 0, y);
    BasisStep(xs, 0, 1, y);
    BasisDone(xs, 0, t');
  }

  /** The inner loop for the second of two shares runs one step. */
  lemma BasisSecond(x1: int, x2: int, y: int, t': int)
    requires 1 <= x1 <= Modulus && 1 <= x2 <= Modulus && t' == Lifted(y, x2, x1)
    ensures BasisTerm([x1, x2], 1, 0, y) == t'
  {
    var xs := [x1, x2];
    assert xs[0] == x1 && xs[1] == x2;
    BasisStep(xs, 1, 0, y);
    BasisSkip(xs, 1, 1, t');
    BasisDone(xs, 1, t');
  }

  lemma BasisDone(xs: seq<int>, i: nat, term: int)
    requires i < |xs|
    requires forall k :: 0 <= k < |xs| ==> 1 <= xs[k] <= Modulus
    ensures BasisTerm(xs, i, |xs|, term) == term
  {
  }

  /** One step of the inner loop for the other share at `xj`: the term
      times the normalised numerator and the inverse of the normalised
      denominator, `%`, and the lift of a negative result. */
  function Lifted(term: int, xi: int, xj: int): int
    requires 1 <= xi <= Modulus && 1 <= xj <= Modulus
  {
    var t := JsRem(term * Normalize(0 - xj) * Inverse(Normalize(xi - xj)));
    if t < 0 then t + Modulus else t
  }

  lemma BasisSkip(xs: seq<int>, i: nat, j: nat, term: int)
    requires i < |xs| && j < |xs| && i == j
    requires forall k :: 0 <= k < |xs| ==> 1 <= xs[k] <= Modulus
    ensures BasisTerm(xs, i, j, term) == BasisTerm(xs, i, j + 1, term)
  {
  }

  lemma BasisStep(xs: seq<int>, i: nat, j: nat, term: int)
    requires i < |xs| && j < |xs| && i != j
    requires forall k :: 0 <= k < |xs| ==> 1 <= xs[k] <= Modulus
    ensures BasisTerm(xs, i, j, term) == BasisTerm(xs, i, j + 1, Lifted(term, xs[i], xs[j]))
  {
  }

  /** `%` then lifting a negative result differs from the input by a
      multiple of 256. */
  lemma LiftedRem(a: int, t: int, t': int)
    requires t == JsRem(a) && t' == (if t < 0 then t + Modulus else t)
    ensures Mult(t' - a)
  {
    assert Mult(a - t);
    if t < 0 {
      assert t' - a == Modulus - (a - t);
      MultDiffOf(Modulus, a - t);
    } else {
      assert t' - a == 0 - (a - t);
      MultDiffOf(0, a - t);
    }
  }

  /** t ≡ y·num·inv and num ≡ -x give t ≡ -x·y·inv. */
  lemma ReducedProduct(t: int, y: int, num: int, x: int, inv: int)
    requires Mult(t - y * num * inv) && Mult(num - (0 - x))
    ensures Mult(t + x * y * inv)
  {
    MultTimes(num + x, y * inv);
    ProductShift(t, y, num, x, inv);
    MultSum(t - y * num * inv, (num + x) * (y * inv));
  }

  lemma ProductShift(t: int, y: int, num: int, x: int, inv: int)
    ensures t + x * y * inv == (t - y * num * inv) + (num + x) * (y * inv)
  {
    assert (num + x) * (y * inv) == num * (y * inv) + x * (y * inv);
  }

  /** A multiple of 256. */
  predicate Mult(a: int)
  {
    a % Modulus == 0
  }

  lemma MultSum(a: int, b: int)
    requires Mult(a) && Mult(b)
    ensures Mult(a + b)
  {
    var qa, qb := a / Modulus, b / Modulus;
    assert a + b == Modulus * (qa + qb);
    Bits.DivModUnique(a + b, Modulus, qa + qb, 0);
  }

  lemma MultDiffOf(a: int, b: int)
    requires Mult(a) && Mult(b)
    ensures Mult(a - b)
  {
    var qa, qb := a / Modulus, b / Modulus;
    assert a - b == Modulus * (qa - qb);
    Bits.DivModUnique(a - b, Modulus, qa - qb, 0);
  }

  lemma MultTimes(a: int, z: int)
    requires Mult(a)
    ensures Mult(a * z)
  {
    var q := a / Modulus;
    assert a * z == Modulus * (q * z);
    Bits.DivModUnique(a * z, Modulus, q * z, 0);
  }

  /** A number and its remainder differ by a multiple of 256. */
  lemma Mult1(a: int)
    ensures Mult(a % Modulus - a) && Mult(a - a % Modulus)
  {
    var q := a / Modulus;
    Bits.DivModUnique(a % Modulus - a, Modulus, -q, 0);
    Bits.DivModUnique(a - a % Modulus, Modulus, q, 0);
  }

  /** Numbers in 0..255 that differ by a multiple of 256 are equal: the
      remainder of `a` is `b`. */
  lemma MultDiff(a: int, b: int)
    requires Mult(a - b) && 0 <= b < Modulus
    ensures a % Modulus == b
  {
    var q := (a - b) / Modulus;
    Bits.DivModUnique(a, Modulus, q, b);
  }

  // ------------------------------------------------------------ the field version

  /** The coefficient lists read as polynomials over GF(2^8). Every entry
      is a byte already (the secret's bytes and draws of
      `Math.floor(Math.random() * 256)`); the reduction makes that explicit
      for arbitrary draws. */
  function FieldPolys(cs: seq<seq<int>>): (ps: seq<Polynomial.Poly>)
    ensures |ps| == |cs|
    ensures forall i :: 0 <= i < |cs| ==>
      |ps[i]| == |cs[i]| && forall j :: 0 <= j < |cs[i]| ==> ps[i][j] == cs[i][j] % Modulus
  {
    seq(|cs|, i requires 0 <= i < |cs| => FieldPoly(cs[i]))
  }

  function FieldPoly(c: seq<int>): (p: Polynomial.Poly)
    ensures |p| == |c| && forall j :: 0 <= j < |c| ==> p[j] == c[j] % Modulus
  {
    seq(|c|, j requires 0 <= j < |c| => c[j] % Modulus)
  }

  /** Step 3 in the field: share x = 1 .. n holds every polynomial's
      GF(2^8) value at x, the way the client's shares do. */
  function FieldShares(ps: seq<Polynomial.Poly>, n: nat): (r: seq<ShamirClient.Share>)
    requires n < Modulus
    ensures |r| == n && forall k :: 0 <= k < n ==> r[k] == ShamirClient.Share(k + 1, Recovery.Values(ps, k + 1))
  {
    seq(n, k requires 0 <= k < n => ShamirClient.Share(k + 1, Recovery.Values(ps, k + 1)))
  }

  /** The simulation in GF(2^8): the same coefficients, shares made with
      field arithmetic, the selected shares interpolated at 0 byte by byte
      with the client's `interpolate`. */
  function FieldSimulation(secret: seq<GF256.byte>, threshold: int, rnd: (nat, nat) -> int, n: nat, indices: seq<int>)
    : (r: Result<seq<GF256.byte>, string>)
    requires n < Modulus && forall k :: 0 <= k < |indices| ==> 0 <= indices[k] < n
    ensures r.Success? ==> |r.value| == |secret|
  {
    var ps := FieldPolys(Coefficients(secret, threshold, rnd));
    var selected := Pick(FieldShares(ps, n), indices);
    ShamirClient.InterpolateColumns(selected, |ps|)
  }

  /** In the field, every selection of `threshold` distinct shares gives
      the secret back, as the page's success check expects. */
  lemma FieldSimulationRecovers(secret: seq<GF256.byte>, threshold: int, rnd: (nat, nat) -> int, n: nat, indices: seq<int>)
    requires 1 <= threshold && n < Modulus
    requires NoRepeats(indices) && |indices| == threshold && forall k :: 0 <= k < |indices| ==> 0 <= indices[k] < n
    ensures FieldSimulation(secret, threshold, rnd, n, indices) == Success(secret)
  {
    var cs := Coefficients(secret, threshold, rnd);
    var ps := FieldPolys(cs);
    var selected := Pick(FieldShares(ps, n), indices);
    PickedFieldShares(ps, n, indices);
    Recovery.ColumnsRecover(ps, selected);
    FieldSecrets(secret, threshold, rnd);
  }

  /** The selected field shares meet what interpolation needs: distinct
      x-coordinates and, at each of them, every polynomial's value. */
  lemma PickedFieldShares(ps: seq<Polynomial.Poly>, n: nat, indices: seq<int>)
    requires n < Modulus && NoRepeats(indices) && forall k :: 0 <= k < |indices| ==> 0 <= indices[k] < n
    ensures var selected := Pick(FieldShares(ps, n), indices);
      && Polynomial.Distinct(ShamirClient.ShareXs(selected))
      && (forall k :: 0 <= k < |selected| ==> |selected[k].ys| == |ps|)
      && (forall k, i :: 0 <= k < |selected| && 0 <= i < |ps| ==> selected[k].ys[i] == Polynomial.Eval(ps[i], selected[k].x))
  {
    var selected := Pick(FieldShares(ps, n), indices);
    forall k | 0 <= k < |selected|
      ensures selected[k] == ShamirClient.Share(indices[k] + 1, Recovery.Values(ps, indices[k] + 1))
    {
    }
    forall i, j | 0 <= i < |selected| && 0 <= j < |selected| && i != j
      ensures ShamirClient.ShareXs(selected)[i] != ShamirClient.ShareXs(selected)[j]
    {
      assert indices[i] != indices[j];
    }
  }

  /** The constant terms of the field polynomials are the secret's bytes,
      and no polynomial is longer than the threshold. */
  lemma FieldSecrets(secret: seq<GF256.byte>, threshold: int, rnd: (nat, nat) -> int)
    requires 1 <= threshold
    ensures var ps := FieldPolys(Coefficients(secret, threshold, rnd));
      Recovery.Secrets(ps) == secret && forall i :: 0 <= i < |ps| ==> |ps[i]| == threshold
  {
    var cs := Coefficients(secret, threshold, rnd);
    var ps := FieldPolys(cs);
    forall i | 0 <= i < |secret| ensures Recovery.Secrets(ps)[i] == secret[i] {
      assert ps[i][0] == cs[i][0] % Modulus;
    }
  }

  /** The example the simulation gets wrong comes out right in the field. */
  lemma FieldFixesEvenGap()
    ensures FieldSimulation([0], 2, AllOnes, 3, [0, 2]) == Success([0])
  {
    FieldSimulationRecovers([0], 2, AllOnes, 3, [0, 2]);
  }

  // ------------------------------------------------------------ arithmetic

  lemma ModMul(a: int, x: int, c: int)
    requires a % Modulus == c % Modulus
    ensures (a * x) % Modulus == (c * x) % Modulus
  {
    var qa, qc := a / Modulus, c / Modulus;
    var r := a % Modulus;
    assert a == Modulus * qa + r && c == Modulus * qc + r;
    assert a * x - c * x == Modulus * ((qa - qc) * x);
    var q', r' := (c * x) / Modulus, (c * x) % Modulus;
    assert a * x == Modulus * ((qa - qc) * x + q') + r';
    Bits.DivModUnique(a * x, Modulus, (qa - qc) * x + q', r');
  }

  lemma ModMulRight(d: int, t: int, k: int)
    requires k == t % Modulus
    ensures (d * k) % Modulus == (d * t) % Modulus
  {
    ModMul(k, d, t);
    assert k * d == d * k && t * d == d * t;
  }

  lemma ModAdd(y: int, term: int, a: int, b: int)
    requires y == a % Modulus && term % Modulus == b % Modulus
    ensures (y + term) % Modulus == (a + b) % Modulus
  {
    var qa, qt, qb := a / Modulus, term / Modulus, b / Modulus;
    var rb := b % Modulus;
    assert a == Modulus * qa + y && term == Modulus * qt + rb && b == Modulus * qb + rb;
    var q', r' := (y + term) / Modulus, (y + term) % Modulus;
    assert a + b == Modulus * (q' + qa + qb - qt) + r';
    Bits.DivModUnique(a + b, Modulus, q' + qa + qb - qt, r');
  }
}
