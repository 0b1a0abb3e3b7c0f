/** `ShamirDebugTool`: a three-step walk through fetching shares,
    reconstructing the byte string and decrypting it, with a progress
    counter (0 start, 1 fetching, 2 fetched, 3 reconstructing,
    4 reconstructed, 5 decrypting, 6 complete) and, after reconstruction,
    a list of the positions where a few JSON markers occur in the bytes.

    The contract calls are oracles; the reconstruction is
    `ShamirClient.ReconstructSecret` and the decryption is the one of
    `WalletIntegratedEncryption`. */
module DebugTool {
  import opened Wrappers
  import opened GF256
  import Utf8
  import ShamirClient
  import WebCrypto
  import WalletEnvelope
  import Recovery
  import Polynomial

  // ------------------------------------------------------------ marker search

  datatype Pattern = Pattern(position: nat, length: nat, kind: string)

  /** The marker bytes occur in `bytes` starting at `i`. */
  predicate MatchesAt(bytes: seq<byte>, marker: seq<byte>, i: nat)
  {
    i + |marker| <= |bytes| && bytes[i..i + |marker|] == marker
  }

  function Positions(r: seq<Pattern>): set<nat>
  {
    set p | p in r :: p.position
  }

  /** The outer loop of `findMarker` over the start positions `i` up to
      `hi` (exclusive), recording one pattern per match. */
  function Scan(bytes: seq<byte>, marker: seq<byte>, name: string, i: nat, hi: nat): (r: seq<Pattern>)
    requires i <= hi
    ensures forall k :: 0 <= k < |r| ==>
      i <= r[k].position < hi && r[k].length == |marker| && r[k].kind == name && MatchesAt(bytes, marker, r[k].position)
    ensures forall a, b :: 0 <= a < b < |r| ==> r[a].position < r[b].position
    ensures forall q :: i <= q < hi ==> (q in Positions(r) <==> MatchesAt(bytes, marker, q))
    decreases hi - i
  {
    if i == hi then []
    else
      var rest := Scan(bytes, marker, name, i + 1, hi);
      if MatchesAt(bytes, marker, i) then [Pattern(i, |marker|, name)] + rest else rest
  }

  /** `findMarker` as written: the loop runs while
      `i < byteArray.length - markerBytes.length`, one start position
      short. */
  function FindMarkerAsWritten(bytes: seq<byte>, marker: seq<byte>, name: string): (r: seq<Pattern>)
    ensures forall k :: 0 <= k < |r| ==> r[k].length == |marker| && r[k].kind == name && MatchesAt(bytes, marker, r[k].position)
    ensures forall k :: 0 <= k < |r| ==> r[k].position + |marker| < |bytes|
    ensures forall a, b :: 0 <= a < b < |r| ==> r[a].position < r[b].position
    ensures forall q: nat :: q + |marker| < |bytes| ==> (q in Positions(r) <==> MatchesAt(bytes, marker, q))
    ensures |bytes| - |marker| !in Positions(r)
  {
    Scan(bytes, marker, name, 0, if |bytes| > |marker| then |bytes| - |marker| else 0)
  }

  /** `findMarker` with the bound the search needs,
      `i <= byteArray.length - markerBytes.length`: every occurrence is
      recorded, in increasing order. */
  function FindMarker(bytes: seq<byte>, marker: seq<byte>, name: string): (r: seq<Pattern>)
    ensures forall k :: 0 <= k < |r| ==> r[k].length == |marker| && r[k].kind == name && MatchesAt(bytes, marker, r[k].position)
    ensures forall a, b :: 0 <= a < b < |r| ==> r[a].position < r[b].position
    ensures forall q: nat :: q in Positions(r) <==> MatchesAt(bytes, marker, q)
  {
    Scan(bytes, marker, name, 0, if |marker| <= |bytes| then |bytes| - |marker| + 1 else 0)
  }

  /** The occurrence that ends on the last byte is the one the loop as
      written never reaches, and the only one it misses. */
  lemma {:induction false} AsWrittenMissesOnlyTheLast(bytes: seq<byte>, marker: seq<byte>, name: string)
    ensures forall q: nat :: q in Positions(FindMarkerAsWritten(bytes, marker, name))
              <==> q in Positions(FindMarker(bytes, marker, name)) && q + |marker| != |bytes|
  {
    var w := FindMarkerAsWritten(bytes, marker, name);
    forall q: nat | q in Positions(w)
      ensures MatchesAt(bytes, marker, q) && q + |marker| != |bytes|
    {
      var k :| 0 <= k < |w| && w[k].position == q;
    }
  }

  /** Every serialized package ends with `}`, and that closing brace is
      never reported: `{}` yields no "JSON Object End" at all. */
  lemma ClosingBraceNotReported()
    ensures FindMarkerAsWritten([0x7B, 0x7D], Utf8.Encode("}"), "JSON Object End") == []
    ensures FindMarker([0x7B, 0x7D], Utf8.Encode("}"), "JSON Object End") == [Pattern(1, 1, "JSON Object End")]
  {
    var m := Utf8.Encode("}");
    assert m == [0x7D];
    assert MatchesAt([0x7B, 0x7D], m, 1);
    assert !MatchesAt([0x7B, 0x7D], m, 0);
    assert Scan([0x7B, 0x7D], m, "JSON Object End", 1, 1) == [];
    assert Scan([0x7B, 0x7D], m, "JSON Object End", 0, 1) == [];
    assert Scan([0x7B, 0x7D], m, "JSON Object End", 2, 2) == [];
    assert Scan([0x7B, 0x7D], m, "JSON Object End", 1, 2) == [Pattern(1, 1, "JSON Object End")];
  }

  /** In general, a final `}` is never reported by the loop as written and
      always by the corrected one. */
  lemma FinalBraceMissed(bytes: seq<byte>)
    requires |bytes| > 0 && bytes[|bytes| - 1] == 0x7D
    ensures |bytes| - 1 !in Positions(FindMarkerAsWritten(bytes, [0x7D], "JSON Object End"))
    ensures |bytes| - 1 in Positions(FindMarker(bytes, [0x7D], "JSON Object End"))
  {
    assert MatchesAt(bytes, [0x7D], |bytes| - 1);
  }

  /** A marker: its text, the bytes `new TextEncoder().encode(text)` gives
      for it (see `MarkerCodes`), and the name recorded with each hit. */
  datatype Marker = Marker(text: string, code: seq<byte>, name: string)

  /** The markers `findBytePatterns` looks for, in the order it calls
      `findMarker`. */
  const Markers: seq<Marker> := [
    Marker("{", [0x7B], "JSON Object Start"),
    Marker("}", [0x7D], "JSON Object End"),
    Marker("[", [0x5B], "JSON Array Start"),
    Marker("]", [0x5D], "JSON Array End"),
    Marker("\"encryptedSecret\"", [0x22, 0x65, 0x6E, 0x63, 0x72, 0x79, 0x70, 0x74, 0x65, 0x64,
                                   0x53, 0x65, 0x63, 0x72, 0x65, 0x74, 0x22], "Encrypted Secret Field"),
    Marker("\"iv\"", [0x22, 0x69, 0x76, 0x22], "IV Field"),
    Marker("\"aesKey\"", [0x22, 0x61, 0x65, 0x73, 0x4B, 0x65, 0x79, 0x22], "AES Key Field")]

  /** One byte per character, each the character's code. */
  function AsciiBytes(s: string): (b: seq<int>)
    ensures |b| == |s|
  {
    seq(|s|, i requires 0 <= i < |s| => s[i] as int)
  }

  predicate IsAscii(s: string)
  {
    forall i :: 0 <= i < |s| ==> s[i] as int < 0x80
  }

  /** Each stored code is what `TextEncoder` makes of the marker's text,
      which is ASCII (see `EncodeAscii`). */
  lemma MarkerCodes()
    ensures forall g :: 0 <= g < |Markers| ==> IsAscii(Markers[g].text) && Markers[g].code == AsciiBytes(Markers[g].text)
  {
  }

  /** Text below U+0080 encodes as one byte per character. */
  lemma {:induction false} EncodeAscii(s: string)
    requires IsAscii(s)
    ensures Utf8.Encode(s) == AsciiBytes(s)
    decreases |s|
  {
    if |s| > 0 {
      EncodeAscii(s[1..]);
    }
  }

  /** A recorded pattern is an occurrence of marker `m`. */
  predicate Hit(bytes: seq<byte>, m: Marker, p: Pattern)
  {
    p.kind == m.name && p.length == |m.code| && MatchesAt(bytes, m.code, p.position)
  }

  /** One marker's scan: the loop as written, or the corrected one. */
  function Find(bytes: seq<byte>, m: Marker, corrected: bool): seq<Pattern>
  {
    if corrected then FindMarker(bytes, m.code, m.name) else FindMarkerAsWritten(bytes, m.code, m.name)
  }

  /** One `findMarker` call per marker, each appending to `patterns`. With
      the loop as written no recorded pattern ends on the last byte. */
  function Collect(bytes: seq<byte>, ms: seq<Marker>, corrected: bool): (r: seq<Pattern>)
    ensures forall k :: 0 <= k < |r| ==> exists g :: 0 <= g < |ms| && Hit(bytes, ms[g], r[k])
    ensures !corrected ==> forall k :: 0 <= k < |r| ==> r[k].position + r[k].length < |bytes|
    decreases |ms|
  {
    if |ms| == 0 then []
    else
      var head := Find(bytes, ms[0], corrected);
      var rest := Collect(bytes, ms[1..], corrected);
      assert forall k :: 0 <= k < |head| ==> Hit(bytes, ms[0], head[k]);
      assert forall k :: 0 <= k < |rest| ==> exists g :: 1 <= g < |ms| && Hit(bytes, ms[g], rest[k]) by {
        forall k | 0 <= k < |rest| ensures exists g :: 1 <= g < |ms| && Hit(bytes, ms[g], rest[k]) {
          var g :| 0 <= g < |ms[1..]| && Hit(bytes, ms[1..][g], rest[k]);
          assert ms[1..][g] == ms[g + 1];
        }
      }
      head + rest
  }

  /** `CollectComplete` for every marker and position at once. */
  lemma CollectAll(bytes: seq<byte>, ms: seq<Marker>, corrected: bool)
    ensures forall g, q: nat :: 0 <= g < |ms| && MatchesAt(bytes, ms[g].code, q) && (corrected || q + |ms[g].code| < |bytes|)
              ==> Pattern(q, |ms[g].code|, ms[g].name) in Collect(bytes, ms, corrected)
  {
    forall g, q: nat | 0 <= g < |ms| && MatchesAt(bytes, ms[g].code, q) && (corrected || q + |ms[g].code| < |bytes|)
      ensures Pattern(q, |ms[g].code|, ms[g].name) in Collect(bytes, ms, corrected)
    {
      CollectComplete(bytes, ms, corrected, g, q);
    }
  }

  /** Every occurrence of every marker is recorded, except, with the loop
      as written, one that ends on the last byte. */
  lemma {:induction false} CollectComplete(bytes: seq<byte>, ms: seq<Marker>, corrected: bool, g: nat, q: nat)
    requires g < |ms| && MatchesAt(bytes, ms[g].code, q)
    requires corrected || q + |ms[g].code| < |bytes|
    ensures Pattern(q, |ms[g].code|, ms[g].name) in Collect(bytes, ms, corrected)
    decreases |ms|
  {
    var head := Find(bytes, ms[0], corrected);
    var rest := Collect(bytes, ms[1..], corrected);
    assert Collect(bytes, ms, corrected) == head + rest;
    if g == 0 {
      assert q in Positions(head);
      var k :| 0 <= k < |head| && head[k].position == q;
      assert head[k] == Pattern(q, |ms[g].code|, ms[g].name);
    } else {
      assert ms[1..][g - 1] == ms[g];
      CollectComplete(bytes, ms[1..], corrected, g - 1, q);
    }
  }

  /** `findBytePatterns(bytes)`: where each marker occurs, with the marker's
      length and name, except that an occurrence ending on the last byte
      is never recorded. */
  function FindBytePatterns(bytes: seq<byte>): (r: seq<Pattern>)
    ensures forall k :: 0 <= k < |r| ==> exists g :: 0 <= g < |Markers| && Hit(bytes, Markers[g], r[k])
    ensures forall k :: 0 <= k < |r| ==> r[k].position + r[k].length < |bytes|
  {
    Collect(bytes, Markers, false)
  }

  /** Every occurrence of a marker that ends before the last byte is in
      `findBytePatterns(bytes)`. */
  lemma FindBytePatternsComplete(bytes: seq<byte>)
    ensures forall g, q: nat :: 0 <= g < |Markers| && MatchesAt(bytes, Markers[g].code, q) && q + |Markers[g].code| < |bytes|
              ==> Pattern(q, |Markers[g].code|, Markers[g].name) in FindBytePatterns(bytes)
  {
    CollectAll(bytes, Markers, false);
  }

  /** The search with the corrected loop bound: every occurrence of every
      marker is recorded, and nothing else. */
  function FindBytePatternsCorrected(bytes: seq<byte>): (r: seq<Pattern>)
    ensures forall k :: 0 <= k < |r| ==> exists g :: 0 <= g < |Markers| && Hit(bytes, Markers[g], r[k])
  {
    Collect(bytes, Markers, true)
  }

  /** Every occurrence of every marker is in the corrected search's result. */
  lemma FindBytePatternsCorrectedComplete(bytes: seq<byte>)
    ensures forall g, q: nat :: 0 <= g < |Markers| && MatchesAt(bytes, Markers[g].code, q)
              ==> Pattern(q, |Markers[g].code|, Markers[g].name) in FindBytePatternsCorrected(bytes)
  {
    CollectAll(bytes, Markers, true);
  }

  /** A marker that ends on the last byte: the search as written never
      reports it, the corrected one always does. */
  lemma FinalMarkerMissed(bytes: seq<byte>, g: nat)
    requires g < |Markers| && |Markers[g].code| <= |bytes|
    requires MatchesAt(bytes, Markers[g].code, |bytes| - |Markers[g].code|)
    ensures Pattern(|bytes| - |Markers[g].code|, |Markers[g].code|, Markers[g].name) !in FindBytePatterns(bytes)
    ensures Pattern(|bytes| - |Markers[g].code|, |Markers[g].code|, Markers[g].name) in FindBytePatternsCorrected(bytes)
  {
    var r := FindBytePatterns(bytes);
    var p := Pattern(|bytes| - |Markers[g].code|, |Markers[g].code|, Markers[g].name);
    FindBytePatternsCorrectedComplete(bytes);
    forall k | 0 <= k < |r| ensures r[k] != p {
      assert r[k].position + r[k].length < |bytes|;
    }
  }

  /** A package's closing brace: the search as written reports no
      "JSON Object End" for `{}`, the corrected one reports it. */
  lemma ClosingBraceOfPackage(bytes: seq<byte>)
    requires bytes == [0x7B, 0x7D]
    ensures Pattern(1, 1, "JSON Object End") !in FindBytePatterns(bytes)
    ensures Pattern(1, 1, "JSON Object End") in FindBytePatternsCorrected(bytes)
  {
    assert Markers[1].code == [0x7D] && Markers[1].name == "JSON Object End";
    assert MatchesAt(bytes, Markers[1].code, 1);
    FinalMarkerMissed(bytes, 1);
  }

  /** No two markers share a name. */
  predicate NamesDistinct(ms: seq<Marker>)
  {
    forall a, b :: 0 <= a < b < |ms| ==> ms[a].name != ms[b].name
  }

  /** The position of the first marker called `n` (|ms| if none is). */
  function Rank(ms: seq<Marker>, n: string): (g: nat)
    ensures g <= |ms|
    ensures g < |ms| ==> ms[g].name == n
    ensures forall j :: 0 <= j < g ==> ms[j].name != n
  {
    if |ms| == 0 then 0 else if ms[0].name == n then 0 else 1 + Rank(ms[1..], n)
  }

  lemma RankOfName(ms: seq<Marker>, g: nat)
    requires NamesDistinct(ms) && g < |ms|
    ensures Rank(ms, ms[g].name) == g
  {
  }

  /** Grouped by marker in call order, and within one marker sorted by
      position: of two entries, the earlier one belongs to an earlier
      marker or lies further to the left. */
  predicate Ordered(ms: seq<Marker>, r: seq<Pattern>)
  {
    forall a, b :: 0 <= a < b < |r| ==>
      Rank(ms, r[a].kind) < Rank(ms, r[b].kind) || (r[a].kind == r[b].kind && r[a].position < r[b].position)
  }

  /** `findBytePatterns` lists its patterns in that order (the markers'
      names being distinct), with either loop bound. */
  lemma {:induction false} CollectOrdered(bytes: seq<byte>, ms: seq<Marker>, corrected: bool)
    requires NamesDistinct(ms)
    ensures Ordered(ms, Collect(bytes, ms, corrected))
    decreases |ms|
  {
    if |ms| > 0 {
      var head := Find(bytes, ms[0], corrected);
      var rest := Collect(bytes, ms[1..], corrected);
      assert Collect(bytes, ms, corrected) == head + rest;
      DistinctTail(ms);
      CollectOrdered(bytes, ms[1..], corrected);
      forall k | 0 <= k < |rest| ensures rest[k].kind != ms[0].name {
        var g := InRest(bytes, ms, corrected, rest, k);
      }
      OrderedAppend(ms, head, rest);
    }
  }

  /** One marker's sorted hits, then the ordered hits of the later markers. */
  lemma OrderedAppend(ms: seq<Marker>, head: seq<Pattern>, rest: seq<Pattern>)
    requires |ms| > 0
    requires forall k :: 0 <= k < |head| ==> head[k].kind == ms[0].name
    requires forall a, b :: 0 <= a < b < |head| ==> head[a].position < head[b].position
    requires forall k :: 0 <= k < |rest| ==> rest[k].kind != ms[0].name
    requires Ordered(ms[1..], rest)
    ensures Ordered(ms, head + rest)
  {
    var r := head + rest;
    forall a, b | 0 <= a < b < |r|
      ensures Rank(ms, r[a].kind) < Rank(ms, r[b].kind) || (r[a].kind == r[b].kind && r[a].position < r[b].position)
    {
      if b < |head| {
        assert r[a] == head[a] && r[b] == head[b];
      } else if a < |head| {
        assert r[a] == head[a] && r[b] == rest[b - |head|];
        RankStep(ms, r[b].kind);
      } else {
        assert r[a] == rest[a - |head|] && r[b] == rest[b - |head|];
        RankStep(ms, r[a].kind);
        RankStep(ms, r[b].kind);
      }
    }
  }

  lemma RankStep(ms: seq<Marker>, n: string)
    requires |ms| > 0 && ms[0].name != n
    ensures Rank(ms, n) == 1 + Rank(ms[1..], n)
  {
  }

  /** An entry of the tail's list names one of the later markers. */
  lemma InRest(bytes: seq<byte>, ms: seq<Marker>, corrected: bool, rest: seq<Pattern>, k: nat) returns (g: nat)
    requires |ms| > 0 && rest == Collect(bytes, ms[1..], corrected) && k < |rest|
    ensures 1 <= g < |ms| && rest[k].kind == ms[g].name && ms[1..][g - 1] == ms[g]
    ensures NamesDistinct(ms) ==> rest[k].kind != ms[0].name
  {
    var g' :| 0 <= g' < |ms[1..]| && Hit(bytes, ms[1..][g'], rest[k]);
    g := g' + 1;
  }

  lemma DistinctTail(ms: seq<Marker>)
    requires NamesDistinct(ms) && |ms| > 0
    ensures NamesDistinct(ms[1..])
  {
    forall x, y | 0 <= x < y < |ms[1..]| ensures ms[1..][x].name != ms[1..][y].name {
      assert ms[1..][x] == ms[x + 1] && ms[1..][y] == ms[y + 1];
    }
  }

  lemma MarkerNamesDistinct()
    ensures NamesDistinct(Markers)
  {
  }

  // ------------------------------------------------------------ previews

  /** `Array.from(x).slice(0, n)` on an array of length at least 0. */
  function First<T>(s: seq<T>, n: nat): (r: seq<T>)
    ensures |r| == if |s| < n then |s| else n
    ensures r <= s
  {
    if |s| < n then s else s[..n]
  }

  const SharePreview: nat := 20
  const BytePreview: nat := 100

  /** The text shown for the reconstructed bytes: the first 100
      characters, with `...` when there were more. */
  function TextRepresentation(text: string): (r: string)
    ensures |text| <= BytePreview ==> r == text
    ensures |text| > BytePreview ==> |r| == BytePreview + 3
    ensures |text| > BytePreview ==> r[..BytePreview] == text[..BytePreview] && r[BytePreview..] == "..."
  {
    if |text| > BytePreview then text[..BytePreview] + "..." else text
  }

  /** `possibleJson`: judged on the preview, which starts as the text does. */
  predicate LooksLikeJson(s: string)
  {
    |s| > 0 && (s[0] == '{' || s[0] == '[')
  }

  lemma PreviewKeepsLook(text: string)
    ensures LooksLikeJson(TextRepresentation(text)) <==> LooksLikeJson(text)
  {
    if |text| > BytePreview {
      assert TextRepresentation(text)[0] == text[0];
    }
  }

  // ------------------------------------------------------------ the steps

  /** One share as the fetch loop stores it. The data is taken as the byte
      array the contract returned. */
  datatype FetchedShare = FetchedShare(index: nat, data: seq<byte>, address: string, preview: seq<byte>)

  datatype Reconstructed = Reconstructed(bytes: seq<byte>, byteArray: seq<byte>, textRepresentation: string, possibleJson: bool)

  datatype DebugState = DebugState(
    step: nat,
    shares: seq<FetchedShare>,
    reconstructed: Option<Reconstructed>,
    decrypted: string,
    visualBytes: seq<byte>,
    patterns: seq<Pattern>,
    error: string)

  /** What the key material held by the caller offers: `manualKey` with a
      private key, or a wallet provider. */
  datatype EncryptionKeys = EncryptionKeys(manualKey: bool, privateKey: string, walletProvider: bool)

  const Initial := DebugState(0, [], None, "", [], [], "")

  const MissingInputs := "Missing required data: registry contract, secret ID, or share indices"
  const NoShares := "No shares available for reconstruction"
  const NoReconstruction := "No reconstructed data available for decryption"
  const NoKeys := "No decryption keys available"
  const FetchPrefix := "Error fetching shares: "
  const ReconstructPrefix := "Error in Shamir reconstruction: "
  const DecryptPrefix := "Error decrypting data: "

  /** `clearData()`. */
  function ClearData(s: DebugState): (s': DebugState)
    ensures s'.step == 0 && s'.shares == [] && s'.reconstructed.None? && s'.decrypted == ""
    ensures s'.visualBytes == [] && s'.patterns == [] && s'.error == ""
  {
    Initial
  }

  /** The `for … of` loop: for each index, look up the share contract and
      read its data; the first lookup that throws ends the loop. */
  function FetchLoop(indices: seq<nat>, lookup: nat -> Result<(string, seq<byte>), string>): (r: Result<seq<FetchedShare>, string>)
    ensures r.Success? ==> |r.value| == |indices|
    ensures r.Success? ==> forall k :: 0 <= k < |indices| ==>
      lookup(indices[k]).Success? && r.value[k].index == indices[k]
      && r.value[k].data == lookup(indices[k]).value.1 && r.value[k].address == lookup(indices[k]).value.0
      && r.value[k].preview == First(r.value[k].data, SharePreview)
    ensures r.Failure? <==> exists k :: 0 <= k < |indices| && lookup(indices[k]).Failure?
  {
    if |indices| == 0 then Success([])
    else
      var found :- lookup(indices[0]);
      var rest :- FetchLoop(indices[1..], lookup);
      Success([FetchedShare(indices[0], found.1, found.0, First(found.1, SharePreview))] + rest)
  }

  /** `fetchShares()`. Past the guard the counter moves to 1, and to 2 only
      when every share was read. */
  function FetchShares(s: DebugState, connected: bool, secretId: string, indices: seq<nat>,
                       lookup: nat -> Result<(string, seq<byte>), string>): (s': DebugState)
    ensures !connected || secretId == "" || |indices| == 0 ==> s' == s.(error := MissingInputs)
    ensures connected && secretId != "" && |indices| > 0 ==>
      (s'.step == 2 <==> FetchLoop(indices, lookup).Success?) && (s'.step == 1 <==> FetchLoop(indices, lookup).Failure?)
    ensures connected && secretId != "" && |indices| > 0 && s'.step == 2 ==>
      s'.shares == FetchLoop(indices, lookup).value && |s'.shares| == |indices| && s'.error == ""
    ensures connected && secretId != "" && |indices| > 0 && s'.step == 1 ==>
      s'.shares == s.shares && s'.error == FetchPrefix + FetchLoop(indices, lookup).error
    ensures s'.reconstructed == s.reconstructed && s'.decrypted == s.decrypted
  {
    if !connected || secretId == "" || |indices| == 0 then s.(error := MissingInputs)
    else
      match FetchLoop(indices, lookup)
      case Success(list) => s.(step := 2, shares := list, error := "")
      case Failure(e) => s.(step := 1, error := FetchPrefix + e)
  }

  /** What `reconstructWithShamir()` does once the shares were handed to
      `reconstructSecret` and it returned `outcome`: keep the first 100
      bytes and the text preview, and look for markers. */
  function AfterReconstruction(s: DebugState, outcome: Result<seq<byte>, string>): (s': DebugState)
    ensures s'.step == 4 <==> outcome.Success?
    ensures outcome.Failure? ==> s' == s.(step := 3, error := ReconstructPrefix + outcome.error)
    ensures outcome.Success? ==> s'.reconstructed.Some?
    ensures outcome.Success? ==> var rec := s'.reconstructed.value;
      rec.bytes == outcome.value
      && rec.byteArray == First(rec.bytes, BytePreview) && s'.visualBytes == rec.byteArray
      && rec.possibleJson == LooksLikeJson(Utf8.Decode(rec.bytes))
      && s'.patterns == FindBytePatterns(rec.bytes)
    ensures outcome.Success? ==>
      s'.reconstructed.value.textRepresentation == TextRepresentation(Utf8.Decode(outcome.value)) && s'.error == ""
    ensures s'.shares == s.shares && s'.decrypted == s.decrypted
  {
    match outcome
    case Failure(e) => s.(step := 3, error := ReconstructPrefix + e)
    case Success(bytes) =>
      var text := TextRepresentation(Utf8.Decode(bytes));
      PreviewKeepsLook(Utf8.Decode(bytes));
      var rec := Reconstructed(bytes, First(bytes, BytePreview), text, LooksLikeJson(text));
      s.(step := 4, reconstructed := Some(rec), visualBytes := rec.byteArray,
         patterns := FindBytePatterns(bytes), error := "")
  }

  /** `reconstructWithShamir()`. */
  function ReconstructWithShamir(s: DebugState): (s': DebugState)
    ensures |s.shares| == 0 ==> s' == s.(error := NoShares)
    ensures |s.shares| > 0 ==> s' == AfterReconstruction(s, ShamirClient.ReconstructSecret(Datas(s.shares)))
    ensures |s.shares| > 0 ==> (s'.step == 4 <==> ShamirClient.ReconstructSecret(Datas(s.shares)).Success?)
    ensures |s.shares| > 0 && s'.step == 4 ==> s'.reconstructed.value.bytes == ShamirClient.ReconstructSecret(Datas(s.shares)).value
    ensures |s.shares| > 0 && s'.step != 4 ==>
      s'.step == 3 && s'.error == ReconstructPrefix + ShamirClient.ReconstructSecret(Datas(s.shares)).error
  {
    if |s.shares| == 0 then s.(error := NoShares)
    else AfterReconstruction(s, ShamirClient.ReconstructSecret(Datas(s.shares)))
  }

  /** Fetched shares that were made from polynomials of degree below their
      number, at distinct indices, take the tool to step 4 with the secret's
      bytes and no error. */
  lemma ReconstructWithShamirRecovers(s: DebugState, ps: seq<Polynomial.Poly>, xs: seq<byte>)
    requires |xs| >= 2 && Polynomial.Distinct(xs) && |ps| >= 1
    requires forall i :: 0 <= i < |ps| ==> |ps[i]| <= |xs|
    requires |s.shares| == |xs| && forall k :: 0 <= k < |xs| ==> s.shares[k].data == Recovery.ShareFor(ps, xs[k])
    ensures var s' := ReconstructWithShamir(s);
      s'.step == 4 && s'.reconstructed.Some? && s'.reconstructed.value.bytes == Recovery.Secrets(ps) && s'.error == ""
  {
    assert Datas(s.shares) == Recovery.SharesFor(ps, xs);
    Recovery.ReconstructSecretCorrect(ps, xs);
  }

  /** The share data handed to `reconstructSecret`, each as a byte array. */
  function Datas(shares: seq<FetchedShare>): (ds: seq<ShamirClient.ShareData>)
    ensures |ds| == |shares|
    ensures forall k :: 0 <= k < |shares| ==> ds[k] == ShamirClient.Uint8(shares[k].data)
  {
    seq(|shares|, k requires 0 <= k < |shares| => ShamirClient.Uint8(shares[k].data))
  }

  /** The branch on the key material: the private key when `manualKey` is
      set and the key is non-empty, else the wallet, else an error. */
  function DecryptPackage(text: string, keys: Option<EncryptionKeys>, parse: string -> Result<WalletEnvelope.WalletPackage, string>,
                          aes: WebCrypto.Aes): (r: Result<string, string>)
    ensures (keys.None? || (!(keys.value.manualKey && keys.value.privateKey != "") && !keys.value.walletProvider))
            ==> r == Failure(NoKeys)
    ensures keys.Some? && ((keys.value.manualKey && keys.value.privateKey != "") || keys.value.walletProvider)
            ==> r == WalletEnvelope.Open(parse(text), aes)
  {
    match keys
    case None => Failure(NoKeys)
    case Some(k) =>
      if k.manualKey && k.privateKey != "" then WalletEnvelope.DecryptWithPrivateKey(parse(text), aes, k.privateKey)
      else if k.walletProvider then WalletEnvelope.DecryptWithWallet(parse(text), aes, (), "")
      else Failure(NoKeys)
  }

  /** `decryptReconstructedData()`: decode the reconstructed bytes as text
      and open the package with whichever key material is present. */
  function DecryptReconstructedData(s: DebugState, keys: Option<EncryptionKeys>,
                                    parse: string -> Result<WalletEnvelope.WalletPackage, string>, aes: WebCrypto.Aes): (s': DebugState)
    ensures s.reconstructed.None? ==> s' == s.(error := NoReconstruction)
    ensures s.reconstructed.Some? ==>
      var r := DecryptPackage(Utf8.Decode(s.reconstructed.value.bytes), keys, parse, aes);
      (s'.step == 6 <==> r.Success?) && (s'.step == 6 ==> s'.decrypted == r.value)
      && (s'.step != 6 ==> s'.step == 5 && s'.decrypted == s.decrypted && s'.error == DecryptPrefix + r.error)
    ensures s.reconstructed.Some? && s'.step == 6 ==> s'.error == ""
    ensures s'.shares == s.shares && s'.reconstructed == s.reconstructed
    ensures s'.visualBytes == s.visualBytes && s'.patterns == s.patterns
  {
    match s.reconstructed
    case None => s.(error := NoReconstruction)
    case Some(rec) =>
      match DecryptPackage(Utf8.Decode(rec.bytes), keys, parse, aes)
      case Success(secret) => s.(step := 6, decrypted := secret, error := "")
      case Failure(e) => s.(step := 5, error := DecryptPrefix + e)
  }

  // ------------------------------------------------------------ invariant

  /** What every reachable state satisfies: the counter is one of the seven
      steps; the "fetched" step has shares; reconstructed data exists only
      while shares do, and the steps past reconstruction have it. */
  predicate Consistent(s: DebugState)
  {
    s.step <= 6
    && (s.step == 2 ==> |s.shares| > 0)
    && (s.reconstructed.Some? ==> |s.shares| > 0)
    && (s.step >= 4 ==> s.reconstructed.Some?)
  }

  /** Every action keeps the state consistent, whatever the inputs and
      oracles. */
  lemma StepsPreserveConsistency(s: DebugState, connected: bool, secretId: string, indices: seq<nat>,
                                 lookup: nat -> Result<(string, seq<byte>), string>, keys: Option<EncryptionKeys>,
                                 parse: string -> Result<WalletEnvelope.WalletPackage, string>, aes: WebCrypto.Aes)
    requires Consistent(s)
    ensures Consistent(ClearData(s))
    ensures Consistent(FetchShares(s, connected, secretId, indices, lookup))
    ensures Consistent(ReconstructWithShamir(s))
    ensures Consistent(DecryptReconstructedData(s, keys, parse, aes))
  {
  }
}
