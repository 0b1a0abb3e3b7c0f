/** `ShamirClient`: the GF(2^8) multiplication loop as the client runs it,
    the conversion of whatever the contract call returned into bytes, and
    `reconstructSecret`, which splits every share into its y bytes and its
    trailing x byte and interpolates every byte position at 0. */
module ShamirClient {
  import opened Wrappers
  import opened Bits
  import opened GF256
  import opened GF256Inverse
  import opened Polynomial
  import opened Lagrange
  import opened Js
  import HexCodec
  import Utf8

  // ------------------------------------------------------------ mul

  /** The byte `mul` folds back in when bit 7 is shifted out: x^8 + x^4 +
      x^3 + x + 1 without its x^8 term. */
  const Reduction: nat := 0x1B

  /** `gf256.mul(a, b)` as written: eight rounds of shift-and-add on the
      unmasked `temp_a`, whose bits above the low byte are never removed,
      and one `& 0xFF` at the end. The loop's values stay below 2^16, so
      JavaScript's 32-bit operators never overflow on them. */
  method SourceMul(a: byte, b: byte) returns (r: byte)
    ensures r == Mul(a, b)
  {
    var result: nat := 0;
    var tempA: nat := a;
    var tempB: nat := b;
    var i := 0;
    Pow2Byte();
    while i < 8
      invariant 0 <= i <= 8
      invariant Bounded(i, result, tempA, tempB)
      invariant Pending(result, tempA, tempB) == Mul(a, b)
    {
      var result' := if tempB % 2 != 0 then Xor(result, tempA) else result;
      var highBitSet := (tempA / 128) % 2 != 0;
      var tempA' := if highBitSet then Xor(2 * tempA, Reduction) else 2 * tempA;
      Round(i, result, tempA, tempB, result', tempA');
      result, tempA, tempB, i := result', tempA', tempB / 2, i + 1;
    }
    r := result % 256;
    AddZero(r);
  }

  /** The product the loop has still to deliver: the low byte of what it
      has accumulated, plus the reference product of the low byte of
      `temp_a` with the bits of `temp_b` not yet consumed. */
  function Pending(result: nat, tempA: nat, tempB: nat): byte
  {
    Add(result % 256, Peasant(tempA % 256, tempB))
  }

  /** Before round `i`, `temp_a` and `result` fit in 8 + i bits and
      `temp_b` in 8 - i. */
  predicate Bounded(i: nat, result: nat, tempA: nat, tempB: nat)
    requires i <= 8
  {
    tempA < Pow2(8 + i) && result < Pow2(8 + i) && tempB < Pow2(8 - i)
  }

  /** One round keeps the loop invariant, the bounds included. */
  lemma Round(i: nat, result: nat, tempA: nat, tempB: nat, result': nat, tempA': nat)
    requires i < 8 && Bounded(i, result, tempA, tempB)
    requires result' == if tempB % 2 != 0 then Xor(result, tempA) else result
    requires tempA' == if (tempA / 128) % 2 != 0 then Xor(2 * tempA, Reduction) else 2 * tempA
    ensures Bounded(i + 1, result', tempA', tempB / 2)
    ensures Pending(result', tempA', tempB / 2) == Pending(result, tempA, tempB)
  {
    Pow2Mono(8 + i, 9 + i);
    if tempB % 2 != 0 {
      XorBelow(result, tempA, 8 + i);
    }
    if (tempA / 128) % 2 != 0 {
      Pow2Mono(5, 9 + i);
      Pow2Five();
      XorBelow(2 * tempA, Reduction, 9 + i);
    }
    MulRound(result, tempA, tempB, result', tempA');
  }

  lemma Pow2Five()
    ensures Pow2(5) == 32
  {
  }

  /** Shifting left by one: bit 7 of `x` is bit 7 of its low byte, and
      the low byte of `2 * x` is twice the low byte, less 256 when that bit
      was set. */
  lemma DoubleLowByte(x: nat)
    ensures (x / 128) % 2 == (x % 256) / 128
    ensures (2 * x) % 256 == if x % 256 < 128 then 2 * (x % 256) else 2 * (x % 256) - 256
  {
    var t := x % 256;
    var q := x / 256;
    var h := t / 128;
    DivModUnique(x, 128, 2 * q + h, t % 128);
    DivModUnique(2 * q + h, 2, q, h);
    if h != 0 {
      DivModUnique(2 * x, 256, 2 * q + 1, 2 * t - 256);
    } else {
      DivModUnique(2 * x, 256, 2 * q, 2 * t);
    }
  }

  /** The low byte of the shifted, reduced `temp_a` is `XTime` of its low
      byte: the unmasked high bits never reach it. */
  lemma ShiftLowByte(tempA: nat, tempA': nat)
    requires tempA' == if (tempA / 128) % 2 != 0 then Xor(2 * tempA, Reduction) else 2 * tempA
    ensures tempA' % 256 == XTime(tempA % 256)
  {
    DoubleLowByte(tempA);
    if (tempA / 128) % 2 != 0 {
      Pow2Byte();
      XorLow(2 * tempA, Reduction, 8);
    }
  }

  /** The low byte of `result` picks up the term the reference product
      adds for this bit of `b`. */
  lemma AccumulateLowByte(result: nat, tempA: nat, tempB: nat, result': nat)
    requires result' == if tempB % 2 != 0 then Xor(result, tempA) else result
    ensures result' % 256 == Add(result % 256, Sel(tempA % 256, tempB))
  {
    Pow2Byte();
    if tempB % 2 != 0 {
      XorLow(result, tempA, 8);
    } else {
      XorZero(result % 256);
    }
  }

  /** One round keeps the loop invariant. */
  lemma MulRound(result: nat, tempA: nat, tempB: nat, result': nat, tempA': nat)
    requires result' == if tempB % 2 != 0 then Xor(result, tempA) else result
    requires tempA' == if (tempA / 128) % 2 != 0 then Xor(2 * tempA, Reduction) else 2 * tempA
    ensures Add(result' % 256, Peasant(tempA' % 256, tempB / 2)) == Add(result % 256, Peasant(tempA % 256, tempB))
  {
    var t := tempA % 256;
    ShiftLowByte(tempA, tempA');
    AccumulateLowByte(result, tempA, tempB, result');
    if tempB == 0 {
      XorZero(result % 256);
    } else {
      AddAssoc(result % 256, Sel(t, tempB), Peasant(XTime(t), tempB / 2));
    }
  }

  // ------------------------------------------------------------ share data

  /** What a contract call can hand `safelyConvertBytes`: a plain array of
      integers, a `Uint8Array`, an object carrying an ethers-style `_hex`
      string, an object whose `_hex` is truthy but not a string, a string,
      `null`, or any other value (`undefined`, a number, an object without
      a truthy `_hex`). */
  datatype ShareData =
    | JsArray(items: seq<int>)
    | Uint8(bytes: seq<byte>)
    | HexObject(hex: string)
    | NonStringHex
    | JsString(text: string)
    | Null
    | OtherValue

  const UnknownFormat := "Could not convert share data to bytes. Unknown format."
  /** The TypeError V8 raises for `null._hex`. */
  const NullProperty := "Cannot read properties of null (reading '_hex')"
  /** The TypeError V8 raises for calling `startsWith` on a `_hex` that is
      not a string. */
  const NotAString := "data._hex.startsWith is not a function"

  /** `safelyConvertBytes(data)`. Arrays and `Uint8Array`s are copied
      through `new Uint8Array`, which stores every integer modulo 256; a
      truthy `_hex` and a string starting with `0x` are read as hex pairs;
      an empty `_hex` is falsy and falls through to the error. */
  function SafelyConvertBytes(d: ShareData): (r: Result<seq<byte>, string>)
    ensures r.Failure? <==> d.Null? || d.OtherValue? || d.NonStringHex? || (d.HexObject? && d.hex == "")
                            || (d.JsString? && !StartsWith(d.text, "0x"))
    ensures r.Failure? ==> r.error == (if d.Null? then NullProperty else if d.NonStringHex? then NotAString else UnknownFormat)
    ensures d.Uint8? ==> r == Success(d.bytes)
    ensures d.JsArray? ==> r.Success? && |r.value| == |d.items|
                           && forall i :: 0 <= i < |d.items| ==> (r.value[i] - d.items[i]) % 256 == 0
    ensures d.JsString? && r.Success? ==> |r.value| == (|d.text| - 2) / 2
  {
    match d
    case JsArray(items) => Success(seq(|items|, i requires 0 <= i < |items| => ToUint8(Some(items[i]))))
    case Uint8(bytes) => Success(bytes)
    case HexObject(hex) =>
      if hex == "" then Failure(UnknownFormat) else Success(HexCodec.HexToBytes(hex))
    case NonStringHex => Failure(NotAString)
    case JsString(text) =>
      if StartsWith(text, "0x") then Success(HexCodec.DecodePairs(text[2..])) else Failure(UnknownFormat)
    case Null => Failure(NullProperty)
    case OtherValue => Failure(UnknownFormat)
  }

  /** The conversion reads back what `bytesToHex` writes, whether it
      arrives as a string or as an object's `_hex`. */
  lemma ConvertBytesToHex(b: seq<byte>)
    ensures SafelyConvertBytes(JsString(HexCodec.BytesToHex(b))) == Success(b)
    ensures SafelyConvertBytes(HexObject(HexCodec.BytesToHex(b))) == Success(b)
  {
    var h := HexCodec.BytesToHex(b);
    HexCodec.HexToBytesOfBytesToHex(b);
    assert h[2..] == HexCodec.StripPrefix(h);
  }

  /** A `0x` string and an object with the same `_hex` convert alike. */
  lemma ConvertStringAsObject(text: string)
    requires StartsWith(text, "0x")
    ensures SafelyConvertBytes(JsString(text)) == SafelyConvertBytes(HexObject(text))
  {
  }

  // ------------------------------------------------------------ reconstructSecret

  /** A share once converted: its trailing byte is the index `x`, the bytes
      before it are one y value per byte position of the secret. */
  datatype Share = Share(x: byte, ys: seq<byte>)

  const TooFewShares := "At least 2 shares are required for reconstruction"
  const EmptyShare := "Share data is empty"
  const NoData := "One or more shares have no data"
  const InconsistentLengths := "Shares have inconsistent data lengths"
  const FailurePrefix := "Failed to reconstruct secret: "

  /** One step of `shares.map(...)`: convert, refuse an empty result, split
      off the last byte. */
  function ParseShare(d: ShareData): (r: Result<Share, string>)
    ensures r.Success? <==> SafelyConvertBytes(d).Success? && |SafelyConvertBytes(d).value| > 0
    ensures r.Success? ==> SafelyConvertBytes(d).value == r.value.ys + [r.value.x]
    ensures r.Failure? ==> r.error == if SafelyConvertBytes(d).Failure? then SafelyConvertBytes(d).error else EmptyShare
  {
    SplitIndex(SafelyConvertBytes(d))
  }

  /** The last byte of a converted share is its index, the rest its values. */
  function SplitIndex(converted: Result<seq<byte>, string>): (r: Result<Share, string>)
    ensures r.Success? <==> converted.Success? && |converted.value| > 0
    ensures r.Success? ==> converted.value == r.value.ys + [r.value.x]
    ensures r.Failure? ==> r.error == if converted.Failure? then converted.error else EmptyShare
  {
    var bytes :- converted;
    if |bytes| == 0 then Failure(EmptyShare)
    else
      assert bytes == bytes[..|bytes| - 1] + [bytes[|bytes| - 1]];
      Success(Share(bytes[|bytes| - 1], bytes[..|bytes| - 1]))
  }

  /** `shares.map(...)`: the shares are converted in order and the first
      one that throws ends the map with its error. */
  function ParseShares(ds: seq<ShareData>): (r: Result<seq<Share>, string>)
    ensures r.Success? <==> forall k :: 0 <= k < |ds| ==> ParseShare(ds[k]).Success?
    ensures r.Success? ==> |r.value| == |ds| && forall k :: 0 <= k < |ds| ==> ParseShare(ds[k]) == Success(r.value[k])
    ensures r.Failure? ==> exists k :: 0 <= k < |ds| && ParseShare(ds[k]) == Failure(r.error)
                                       && forall j :: 0 <= j < k ==> ParseShare(ds[j]).Success?
  {
    MapUntilFailure(ParseShare, ds)
  }

  /** `ds.map(f)` for an `f` that may throw: the results in order, or the
      first error. */
  function MapUntilFailure<A, B>(f: A -> Result<B, string>, ds: seq<A>): (r: Result<seq<B>, string>)
    ensures r.Success? <==> forall k :: 0 <= k < |ds| ==> f(ds[k]).Success?
    ensures r.Success? ==> |r.value| == |ds| && forall k :: 0 <= k < |ds| ==> f(ds[k]) == Success(r.value[k])
    ensures r.Failure? ==> exists k :: 0 <= k < |ds| && f(ds[k]) == Failure(r.error)
                                       && forall j :: 0 <= j < k ==> f(ds[j]).Success?
    decreases |ds|
  {
    if |ds| == 0 then Success([])
    else
      var first :- f(ds[0]);
      var rest :- MapUntilFailure(f, ds[1..]);
      assert forall k :: 1 <= k < |ds| ==> ds[k] == ds[1..][k - 1];
      Success([first] + rest)
  }

  function ShareXs(shares: seq<Share>): (xs: seq<byte>)
    ensures |xs| == |shares| && forall k :: 0 <= k < |shares| ==> xs[k] == shares[k].x
  {
    seq(|shares|, k requires 0 <= k < |shares| => shares[k].x)
  }

  /** `sharesForPosition` for byte position `i`. */
  function Column(shares: seq<Share>, i: nat): (c: seq<Point>)
    requires forall k :: 0 <= k < |shares| ==> i < |shares[k].ys|
    ensures |c| == |shares| && Xs(c) == ShareXs(shares)
    ensures forall k :: 0 <= k < |shares| ==> c[k] == Point(shares[k].x, shares[k].ys[i])
  {
    seq(|shares|, k requires 0 <= k < |shares| => Point(shares[k].x, shares[k].ys[i]))
  }

  /** The loop over byte positions 0..n-1, each interpolated at 0. Every
      column has the same x values, so either all succeed or the first
      one already fails. */
  function InterpolateColumns(shares: seq<Share>, n: nat): (r: Result<seq<byte>, string>)
    requires forall k :: 0 <= k < |shares| ==> n <= |shares[k].ys|
    ensures r.Failure? <==> n > 0 && !Distinct(ShareXs(shares))
    ensures r.Failure? ==> r.error == DivisionByZero
    ensures r.Success? ==> |r.value| == n
    ensures r.Success? ==> forall i :: 0 <= i < n ==> Interpolate(Column(shares, i), 0) == Success(r.value[i])
    decreases n
  {
    if n == 0 then Success([])
    else
      var prev :- InterpolateColumns(shares, n - 1);
      var v :- Interpolate(Column(shares, n - 1), 0);
      Success(prev + [v])
  }

  predicate SomeEmpty(shares: seq<Share>)
  {
    exists k :: 0 <= k < |shares| && |shares[k].ys| == 0
  }

  predicate SameLengths(shares: seq<Share>)
  {
    forall k :: 0 <= k < |shares| ==> |shares[k].ys| == |shares[0].ys|
  }

  /** The body of the `try`: convert every share, check that each has y
      bytes and that they all have as many, then interpolate. */
  function TryReconstruct(ds: seq<ShareData>): (r: Result<seq<byte>, string>)
    requires |ds| >= 2
  {
    var shares :- ParseShares(ds);
    if SomeEmpty(shares) then Failure(NoData)
    else if !SameLengths(shares) then Failure(InconsistentLengths)
    else InterpolateColumns(shares, |shares[0].ys|)
  }

  /** `reconstructSecret(shares)`. Fewer than two shares are refused before
      the `try`; every error inside it is re-thrown with the prefix. */
  function ReconstructSecret(ds: seq<ShareData>): (r: Result<seq<byte>, string>)
    ensures |ds| < 2 ==> r == Failure(TooFewShares)
    ensures |ds| >= 2 && TryReconstruct(ds).Failure? ==> r == Failure(FailurePrefix + TryReconstruct(ds).error)
    ensures r.Success? ==> |ds| >= 2 && r == TryReconstruct(ds)
  {
    if |ds| < 2 then Failure(TooFewShares)
    else
      match TryReconstruct(ds)
      case Success(secret) => Success(secret)
      case Failure(e) => Failure(FailurePrefix + e)
  }

  /** What `reconstructSecret` does with two or more shares that all
      convert: a share without y bytes, then unequal lengths, are refused in
      that order; otherwise the secret has the common y length, byte i is
      the interpolation of column i at 0, and the only failure left is a
      repeated index, which divides by zero. */
  lemma ReconstructSecretOutcome(ds: seq<ShareData>)
    requires |ds| >= 2 && ParseShares(ds).Success?
    ensures var shares := ParseShares(ds).value;
      SomeEmpty(shares) ==> ReconstructSecret(ds) == Failure(FailurePrefix + NoData)
    ensures var shares := ParseShares(ds).value;
      !SomeEmpty(shares) && !SameLengths(shares) ==> ReconstructSecret(ds) == Failure(FailurePrefix + InconsistentLengths)
    ensures var shares := ParseShares(ds).value;
      !SomeEmpty(shares) && SameLengths(shares) ==>
        (ReconstructSecret(ds).Success? <==> Distinct(ShareXs(shares)))
        && (ReconstructSecret(ds).Failure? ==> ReconstructSecret(ds).error == FailurePrefix + DivisionByZero)
    ensures var shares := ParseShares(ds).value;
      ReconstructSecret(ds).Success? ==>
        |ReconstructSecret(ds).value| == |shares[0].ys| > 0
        && forall i :: 0 <= i < |shares[0].ys| ==> Interpolate(Column(shares, i), 0) == Success(ReconstructSecret(ds).value[i])
  {
    var shares := ParseShares(ds).value;
    if !SomeEmpty(shares) && SameLengths(shares) {
      assert TryReconstruct(ds) == InterpolateColumns(shares, |shares[0].ys|);
    }
  }

  /** A share that does not convert, or converts to nothing, ends the
      reconstruction with its own error under the prefix: the first such
      share in order decides which error. */
  lemma ReconstructSecretBadShare(ds: seq<ShareData>)
    requires |ds| >= 2 && ParseShares(ds).Failure?
    ensures ReconstructSecret(ds) == Failure(FailurePrefix + ParseShares(ds).error)
    ensures exists k :: 0 <= k < |ds| && ParseShare(ds[k]) == Failure(ParseShares(ds).error)
  {
  }

  // ------------------------------------------------------------ bytesToString

  /** `bytesToString(bytes)`: the bytes decoded as UTF-8. A default
      `TextDecoder` replaces bad sequences instead of throwing, so the hex
      fallback in the `catch` is never reached and is not modelled. */
  function BytesToString(b: seq<byte>): (s: string)
    ensures |s| <= |b|
  {
    Utf8.Decode(b)
  }

  /** A secret that was text comes back as that text, unless it started
      with U+FEFF, which is read as a byte order mark and dropped. */
  lemma BytesToStringOfText(s: string)
    ensures |s| == 0 || s[0] != Utf8.ByteOrderMark ==> BytesToString(Utf8.Encode(s)) == s
    ensures |s| > 0 && s[0] == Utf8.ByteOrderMark ==> BytesToString(Utf8.Encode(s)) == s[1..]
  {
    Utf8.DecodeEncode(s);
  }
}
