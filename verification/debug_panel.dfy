/** The two checks the debug panel runs by hand. `runDataTest` sends a
    text through the hex encoding and back, and, when the text is not JSON
    already, wraps it as `{ data: text }` and sends that JSON through hex
    and `JSON.parse` too. `inspectRawData` takes the raw bytes a share
    fetch left behind and reports their hex form and a few counts.

    `JSON.parse` and `JSON.stringify` are oracles; the one law the round
    trip relies on is that `parse` reads back what `stringify` wrote for
    an object `{ data: s }`. */
module DebugPanel {
  import opened Wrappers
  import opened GF256
  import opened Js
  import Utf8
  import HexCodec
  import DirectReconstruction

  type Value = DirectReconstruction.Value

  datatype Json = Json(parse: DirectReconstruction.Parser, stringify: Value -> string)

  /** The object `{ data: text }` the test builds for a non-JSON text. */
  function Wrapped(text: string): Value
  {
    DirectReconstruction.Object(map["data" := DirectReconstruction.Str(text)])
  }

  /** `parse` reads back what `stringify` wrote for every wrapped text, and
      what it wrote is an object literal, so it starts with `{`. */
  ghost predicate RoundTripsWrapped(j: Json)
  {
    forall s: string {:trigger j.stringify(Wrapped(s))} ::
      j.parse(j.stringify(Wrapped(s))) == Success(Wrapped(s))
      && |j.stringify(Wrapped(s))| > 0 && j.stringify(Wrapped(s))[0] == '{'
  }

  // ------------------------------------------------------------ fromHex

  /** The panel's own `fromHex`: strip an optional `0x`, fill a byte array
      of half the digit count pair by pair with `parseInt(_, 16)`, decode
      the bytes as UTF-8. It is the codec's `fromHex` written out again. */
  method InlineFromHex(hex: string) returns (text: string)
    ensures text == HexCodec.FromHex(hex)
  {
    var stripped := if StartsWith(hex, "0x") then hex[2..] else hex;
    var n := |stripped| / 2;
    var bytes: seq<byte> := [];
    var i := 0;
    while i < n
      invariant 0 <= i <= n && |bytes| == i
      invariant forall k :: 0 <= k < i ==> bytes[k] == PairByte(stripped[2 * k], stripped[2 * k + 1])
    {
      bytes := bytes + [PairByte(stripped[2 * i], stripped[2 * i + 1])];
      i := i + 1;
    }
    assert bytes == HexCodec.DecodePairs(stripped);
    text := Utf8.Decode(bytes);
  }

  // ------------------------------------------------------------ runDataTest

  /** What the JSON half of the test logs. */
  datatype JsonCheck =
    | ParsedAsJson
    | RoundTripped(matches: bool)
    | RoundTripParseFailed(error: string)

  datatype DataTestReport = DataTestReport(asHex: string, backFromHex: string, json: JsonCheck)

  /** Reading `objBack.data.length` and comparing `objBack.data === text`:
      a property read on `null` or `undefined` throws into the same catch
      as a parse failure. */
  function CheckRoundTrip(objBack: Result<Value, string>, text: string): (c: JsonCheck)
    ensures c.RoundTripped? <==> objBack.Success? && !objBack.value.Null? && !objBack.value.Undefined?
                                 && !DirectReconstruction.Get(objBack.value, "data").Null?
                                 && !DirectReconstruction.Get(objBack.value, "data").Undefined?
    ensures c.RoundTripped? ==> (c.matches <==> DirectReconstruction.Get(objBack.value, "data") == DirectReconstruction.Str(text))
  {
    match objBack
    case Failure(e) => RoundTripParseFailed(e)
    case Success(v) =>
      if v.Null? || v.Undefined? then RoundTripParseFailed(DirectReconstruction.NullRead(v, "data"))
      else
        var data := DirectReconstruction.Get(v, "data");
        if data.Null? || data.Undefined? then RoundTripParseFailed(DirectReconstruction.NullRead(data, "length"))
        else RoundTripped(data == DirectReconstruction.Str(text))
  }

  /** `runDataTest()` on the panel's test text. */
  method RunDataTest(testText: string, j: Json) returns (report: DataTestReport)
    ensures report.asHex == HexCodec.ToHex(testText)
    ensures report.backFromHex == HexCodec.FromHex(report.asHex)
    ensures (|testText| == 0 || testText[0] != Utf8.ByteOrderMark) ==> report.backFromHex == testText
    ensures report.json.ParsedAsJson? <==> j.parse(testText).Success?
    ensures RoundTripsWrapped(j) && j.parse(testText).Failure? ==> report.json == RoundTripped(true)
  {
    var asHex := HexCodec.BytesToHex(Utf8.Encode(testText));
    var backFromHex := InlineFromHex(asHex);
    HexCodec.FromHexToHex(testText);
    var check: JsonCheck;
    if j.parse(testText).Success? {
      check := ParsedAsJson;
    } else {
      var json := j.stringify(Wrapped(testText));
      var jsonHex := HexCodec.BytesToHex(Utf8.Encode(json));
      var jsonBack := InlineFromHex(jsonHex);
      HexCodec.FromHexToHex(json);
      check := CheckRoundTrip(j.parse(jsonBack), testText);
      if RoundTripsWrapped(j) {
        assert jsonBack == json;
        assert DirectReconstruction.Get(Wrapped(testText), "data") == DirectReconstruction.Str(testText);
      }
    }
    report := DataTestReport(asHex, backFromHex, check);
  }

  // ------------------------------------------------------------ inspectRawData

  /** A byte outside the printable ASCII range 32..126. */
  predicate NonPrintable(b: byte)
  {
    b < 32 || b > 126
  }

  /** The number of non-printable bytes, counted from the back. */
  function NonPrintableCount(bytes: seq<byte>): (n: nat)
    ensures n <= |bytes|
  {
    if |bytes| == 0 then 0
    else NonPrintableCount(bytes[..|bytes| - 1]) + (if NonPrintable(bytes[|bytes| - 1]) then 1 else 0)
  }

  datatype ByteStats = ByteStats(length: nat, first20: seq<byte>, nonPrintable: nat, zeroes: nat)

  datatype Inspection = Inspection(hexString: string, asText: string, stats: ByteStats)

  /** The byte analysis: length, the first 20 bytes, and one pass counting
      zero bytes and non-printable bytes. */
  method AnalyzeBytes(bytes: seq<byte>) returns (stats: ByteStats)
    ensures stats.length == |bytes|
    ensures stats.first20 == bytes[..if |bytes| < 20 then |bytes| else 20]
    ensures stats.zeroes == multiset(bytes)[0]
    ensures stats.nonPrintable == NonPrintableCount(bytes)
    ensures stats.zeroes <= stats.nonPrintable <= stats.length
  {
    var zeroes := 0;
    var nonPrintable := 0;
    var i := 0;
    while i < |bytes|
      invariant 0 <= i <= |bytes|
      invariant zeroes == multiset(bytes[..i])[0]
      invariant nonPrintable == NonPrintableCount(bytes[..i])
      invariant zeroes <= nonPrintable
    {
      assert bytes[..i + 1] == bytes[..i] + [bytes[i]];
      assert bytes[..i + 1][..i] == bytes[..i];
      if bytes[i] == 0 {
        zeroes := zeroes + 1;
      }
      if NonPrintable(bytes[i]) {
        nonPrintable := nonPrintable + 1;
      }
      i := i + 1;
    }
    assert bytes[..|bytes|] == bytes;
    var n := if |bytes| < 20 then |bytes| else 20;
    stats := ByteStats(|bytes|, bytes[..n], nonPrintable, zeroes);
  }

  /** `inspectRawData()`: nothing without raw data; otherwise the digits of
      the bytes (without a `0x`), their UTF-8 reading, and the statistics. */
  method InspectRawData(rawData: Option<seq<byte>>) returns (r: Option<Inspection>)
    ensures r.Some? <==> rawData.Some?
    ensures r.Some? ==> HexCodec.DecodePairs(r.value.hexString) == rawData.value
    ensures r.Some? ==> |r.value.hexString| == 2 * |rawData.value|
    ensures r.Some? ==> r.value.asText == Utf8.Decode(rawData.value)
    ensures r.Some? ==> r.value.stats.length == |rawData.value|
    ensures r.Some? ==> r.value.stats.zeroes <= r.value.stats.nonPrintable <= r.value.stats.length
  {
    if rawData.None? {
      return None;
    }
    var bytes := rawData.value;
    var hexString := HexCodec.JoinHex(bytes);
    HexCodec.DecodeJoin(bytes);
    var stats := AnalyzeBytes(bytes);
    r := Some(Inspection(hexString, Utf8.Decode(bytes), stats));
  }
}
