/** The salvage routines of `DirectReconstruction`: four ways of turning the
    raw bytes a reconstruction returned into the package `decryptSecret`
    is then handed. Three of them look for a JSON object inside the text
    the bytes decode to — the whole text, the span from the first `{` to
    the last `}`, or the first balanced `{…}` after dropping every
    character outside printable ASCII — and insist that the object carries
    `encryptedSecret`, `aesKey` and `iv`; the fourth cuts the bytes at
    fixed offsets.

    `JSON.parse` and `ethers.utils.arrayify` are oracles; the result of a
    routine is the value it hands to `decryptSecret`, or the message it
    shows with `setError`. */
module DirectReconstruction {
  import opened Wrappers
  import opened GF256
  import opened Js
  import Utf8
  import HexCodec

  // ------------------------------------------------------------ JSON values

  /** What `JSON.parse` can return, plus the `undefined` a missing property
      reads as. A number's only role here is its truthiness, so it is kept
      as a real. */
  datatype Value =
    | Undefined
    | Null
    | Bool(b: bool)
    | Number(n: real)
    | Str(s: string)
    | Array(items: seq<Value>)
    | Object(fields: map<string, Value>)

  type Parser = string -> Result<Value, string>

  /** JavaScript truthiness: `undefined`, `null`, `false`, zero and the empty
      string are falsy; every array and object is truthy, even an empty one. */
  predicate Truthy(v: Value)
  {
    match v
    case Undefined => false
    case Null => false
    case Bool(b) => b
    case Number(n) => n != 0.0
    case Str(s) => |s| > 0
    case Array(_) => true
    case Object(_) => true
  }

  /** Reading property `key` of a value that is neither `null` nor
      `undefined`: an object's own field, `undefined` for everything else. */
  function Get(v: Value, key: string): Value
  {
    if v.Object? && key in v.fields then v.fields[key] else Undefined
  }

  const MissingFields := "Missing required fields in the JSON data"

  /** The TypeError `Object.keys` raises on `null` or `undefined`. */
  const NotAnObject := "Cannot convert undefined or null to object"

  /** A successful parse is logged with `Object.keys(jsonData)`, inside the
      same try as the parse: a parse to `null` throws there like a parse
      failure. */
  function ParseLogged(parse: Parser, t: string): (r: Result<Value, string>)
    ensures r.Success? <==> parse(t).Success? && !parse(t).value.Null? && !parse(t).value.Undefined?
    ensures r.Success? ==> r.value == parse(t).value
    ensures r.Failure? ==> r.error == if parse(t).Failure? then parse(t).error else NotAnObject
  {
    match parse(t)
    case Failure(e) => Failure(e)
    case Success(v) => if v.Null? || v.Undefined? then Failure(NotAnObject) else Success(v)
  }

  /** The TypeError a property read on `null` or `undefined` raises, worded
      as V8 words it. */
  function NullRead(v: Value, key: string): string
  {
    "Cannot read properties of " + (if v.Null? then "null" else "undefined") + " (reading '" + key + "')"
  }

  /** `if (!jsonData.encryptedSecret || !jsonData.aesKey || !jsonData.iv)
      throw …`: the package goes on only when all three fields are truthy. */
  function RequireFields(v: Value): (r: Result<Value, string>)
    ensures r.Success? <==> !v.Null? && !v.Undefined?
                            && Truthy(Get(v, "encryptedSecret")) && Truthy(Get(v, "aesKey")) && Truthy(Get(v, "iv"))
    ensures r.Success? ==> r.value == v && v.Object?
    ensures r.Failure? && (v.Null? || v.Undefined?) ==> r.error == NullRead(v, "encryptedSecret")
    ensures r.Failure? && !v.Null? && !v.Undefined? ==> r.error == MissingFields
  {
    if v.Null? || v.Undefined? then Failure(NullRead(v, "encryptedSecret"))
    else if !Truthy(Get(v, "encryptedSecret")) || !Truthy(Get(v, "aesKey")) || !Truthy(Get(v, "iv")) then Failure(MissingFields)
    else Success(v)
  }

  /** The check looks only at truthiness: empty arrays pass, and so does a
      package whose fields are not byte arrays at all. */
  lemma RequireFieldsTruthinessOnly(extra: map<string, Value>)
    ensures var m := extra["encryptedSecret" := Array([])]["aesKey" := Str("x")]["iv" := Bool(true)];
      RequireFields(Object(m)) == Success(Object(m))
    ensures var m := extra["encryptedSecret" := Array([])]["aesKey" := Array([])]["iv" := Str("")];
      RequireFields(Object(m)) == Failure(MissingFields)
  {
    var m := extra["encryptedSecret" := Array([])]["aesKey" := Str("x")]["iv" := Bool(true)];
    assert Get(Object(m), "aesKey") == Str("x");
    assert Get(Object(m), "iv") == Bool(true);
    var m' := extra["encryptedSecret" := Array([])]["aesKey" := Array([])]["iv" := Str("")];
    assert Get(Object(m'), "iv") == Str("");
  }

  // ------------------------------------------------------------ searching

  /** `s.indexOf(c)`; also what the cleaner's first loop computes. */
  function IndexOf(s: string, c: char): (r: int)
    ensures -1 <= r < |s|
    ensures r >= 0 ==> s[r] == c && forall j :: 0 <= j < r ==> s[j] != c
    ensures r == -1 <==> forall j :: 0 <= j < |s| ==> s[j] != c
  {
    if |s| == 0 then -1
    else if s[0] == c then 0
    else
      var r := IndexOf(s[1..], c);
      if r < 0 then -1 else r + 1
  }

  /** `s.lastIndexOf(c)`. */
  function LastIndexOf(s: string, c: char): (r: int)
    ensures -1 <= r < |s|
    ensures r >= 0 ==> s[r] == c && forall j :: r < j < |s| ==> s[j] != c
    ensures r == -1 <==> forall j :: 0 <= j < |s| ==> s[j] != c
  {
    if |s| == 0 then -1
    else if s[|s| - 1] == c then |s| - 1
    else LastIndexOf(s[..|s| - 1], c)
  }

  // ------------------------------------------------------------ first to last brace

  const NoStructure := "Could not locate JSON structure in the data"

  /** The fallback of `fixWithDirectJson` and the search of
      `fixWithHexProcessing`: the text from the first `{` to the last `}`
      inclusive, provided the last comes after the first. */
  function BraceSpan(text: string): (r: Result<string, string>)
    ensures r.Success? <==> 0 <= IndexOf(text, '{') < LastIndexOf(text, '}')
    ensures r.Success? ==> r.value == text[IndexOf(text, '{')..LastIndexOf(text, '}') + 1]
    ensures r.Success? ==> |r.value| >= 2 && r.value[0] == '{' && r.value[|r.value| - 1] == '}'
    ensures r.Failure? ==> r.error == NoStructure
  {
    var first := IndexOf(text, '{');
    var last := LastIndexOf(text, '}');
    if first >= 0 && last > first then Success(text[first..last + 1]) else Failure(NoStructure)
  }

  /** The span is the whole object when the garbage around it holds no
      `{` in front and no `}` behind; and any text whose first `{` precedes
      its last `}` splits that way. */
  lemma BraceSpanOf(pre: string, t: string, post: string)
    requires |t| >= 2 && t[0] == '{' && t[|t| - 1] == '}'
    requires forall j :: 0 <= j < |pre| ==> pre[j] != '{'
    requires forall j :: 0 <= j < |post| ==> post[j] != '}'
    ensures BraceSpan(pre + t + post) == Success(t)
  {
    var s := pre + t + post;
    assert s[|pre|] == '{';
    assert forall j :: 0 <= j < |pre| ==> s[j] == pre[j];
    assert IndexOf(s, '{') == |pre|;
    assert s[|pre| + |t| - 1] == '}';
    assert forall j :: |pre| + |t| <= j < |s| ==> s[j] == post[j - |pre| - |t|];
    assert LastIndexOf(s, '}') == |pre| + |t| - 1;
    assert s[|pre|..|pre| + |t|] == t;
  }

  // ------------------------------------------------------------ printable cleaner

  /** Printable ASCII, the class `[\x20-\x7E]`. */
  predicate Printable(c: char)
  {
    0x20 <= c as int <= 0x7E
  }

  /** `text.replace(/[^\x20-\x7E]/g, '')`. A character above U+FFFF is two
      code units in JavaScript, both outside the class, so dropping it whole
      is what the regular expression does as well. */
  function Clean(s: string): (r: string)
    ensures |r| <= |s|
    ensures forall i :: 0 <= i < |r| ==> Printable(r[i])
    ensures (forall i :: 0 <= i < |s| ==> Printable(s[i])) ==> r == s
    decreases |s|
  {
    if |s| == 0 then ""
    else if Printable(s[0]) then [s[0]] + Clean(s[1..])
    else Clean(s[1..])
  }

  /** Cleaning works character by character: it commutes with
      concatenation, so together with its action on one character it keeps
      exactly the printable characters in their order. */
  lemma {:induction false} CleanAppend(a: string, b: string)
    ensures Clean(a + b) == Clean(a) + Clean(b)
    decreases |a|
  {
    if |a| == 0 {
      assert a + b == b;
    } else {
      assert (a + b)[0] == a[0];
      assert (a + b)[1..] == a[1..] + b;
      CleanAppend(a[1..], b);
    }
  }

  /** One character is kept exactly when it is printable. */
  lemma CleanChar(c: char)
    ensures Clean([c]) == if Printable(c) then [c] else []
  {
    assert [c][1..] == [];
  }

  // ------------------------------------------------------------ balanced braces

  /** Occurrences of `c` in `s[lo..hi]`. */
  function Count(s: string, c: char, lo: nat, hi: nat): nat
    requires lo <= hi <= |s|
    decreases hi - lo
  {
    if hi == lo then 0 else Count(s, c, lo, hi - 1) + (if s[hi - 1] == c then 1 else 0)
  }

  /** `{` minus `}` in `s[lo..hi]`: the `braceCount` of the cleaner's
      second loop once it has seen `s[lo..hi]`. */
  function Depth(s: string, lo: nat, hi: nat): int
    requires lo <= hi <= |s|
  {
    Count(s, '{', lo, hi) - Count(s, '}', lo, hi)
  }

  /** What one character does to the count. */
  function Step(c: char): int
  {
    if c == '{' then 1 else if c == '}' then -1 else 0
  }

  /** A balanced object as the cleaner cuts it out: it opens with `{`,
      closes with `}`, holds as many of each, and every proper non-empty
      prefix has more `{` than `}`. */
  predicate WellNested(t: string)
  {
    |t| >= 2 && t[0] == '{' && t[|t| - 1] == '}' && Depth(t, 0, |t|) == 0
    && forall k :: 1 <= k < |t| ==> Depth(t, 0, k) > 0
  }

  /** The second loop from index `i` on, `braceCount` being the count so
      far: the first index at which the count, updated by that index's
      character, is 0. */
  function MatchEnd(s: string, lo: nat, i: nat, braceCount: int): (r: Option<nat>)
    requires lo <= i <= |s| && braceCount == Depth(s, lo, i)
    ensures r.Some? ==> i <= r.value < |s| && Depth(s, lo, r.value + 1) == 0
    ensures r.Some? ==> forall k :: i < k <= r.value ==> Depth(s, lo, k) != 0
    ensures r.None? <==> forall k :: i < k <= |s| ==> Depth(s, lo, k) != 0
    decreases |s| - i
  {
    if i == |s| then None
    else
      var count := braceCount + Step(s[i]);
      assert count == Depth(s, lo, i + 1);
      if count == 0 then Some(i) else MatchEnd(s, lo, i + 1, count)
  }

  /** `jsonStart` and `jsonEnd` of `fixWithCharacterCleaning`: the first
      `{`, and the first index from there at which the braces balance. The
      source's further test `jsonEnd > jsonStart` always holds, since the
      count is 1 right after the opening brace. */
  function Locate(s: string): (r: Option<(nat, nat)>)
    ensures r.Some? ==> r.value.0 == IndexOf(s, '{') && r.value.0 < r.value.1 < |s|
    ensures r.Some? ==> Depth(s, r.value.0, r.value.1 + 1) == 0
    ensures r.Some? ==> forall k :: r.value.0 < k <= r.value.1 ==> Depth(s, r.value.0, k) != 0
    ensures r.None? <==> IndexOf(s, '{') == -1
                         || forall k :: IndexOf(s, '{') < k <= |s| ==> Depth(s, IndexOf(s, '{'), k) != 0
  {
    var start := IndexOf(s, '{');
    if start < 0 then None
    else
      match MatchEnd(s, start, start, 0)
      case None => None
      case Some(end) =>
        assert Depth(s, start, start + 1) == 1;
        Some((start, end))
  }

  const NoValidStructure := "Could not locate valid JSON structure"

  /** The text `fixWithCharacterCleaning` hands to `JSON.parse`. */
  function ExtractBalanced(s: string): (r: Result<string, string>)
    ensures r.Failure? <==> Locate(s).None?
    ensures r.Failure? ==> r.error == NoValidStructure
    ensures r.Success? ==> r.value == s[Locate(s).value.0..Locate(s).value.1 + 1]
    ensures r.Success? ==> WellNested(r.value)
  {
    match Locate(s)
    case None => Failure(NoValidStructure)
    case Some((start, end)) =>
      BalancedPrefixes(s, start, end);
      DepthSlice(s, start, end + 1);
      Success(s[start..end + 1])
  }

  /** The count over `s[lo..hi]` read inside the slice itself. */
  lemma {:induction false} CountSlice(s: string, c: char, lo: nat, hi: nat, m: nat)
    requires lo <= hi <= |s| && m <= hi - lo
    ensures Count(s[lo..hi], c, 0, m) == Count(s, c, lo, lo + m)
    decreases m
  {
    if m > 0 {
      CountSlice(s, c, lo, hi, m - 1);
      assert s[lo..hi][m - 1] == s[lo + m - 1];
    }
  }

  lemma DepthSlice(s: string, lo: nat, hi: nat)
    requires lo <= hi <= |s|
    ensures forall m :: 0 <= m <= hi - lo ==> Depth(s[lo..hi], 0, m) == Depth(s, lo, lo + m)
  {
    forall m | 0 <= m <= hi - lo
      ensures Depth(s[lo..hi], 0, m) == Depth(s, lo, lo + m)
    {
      CountSlice(s, '{', lo, hi, m);
      CountSlice(s, '}', lo, hi, m);
    }
  }

  /** Starting at a `{`, a count that does not return to 0 before `end`
      stays positive, and so the character that brings it to 0 at `end`
      is a `}`. */
  lemma {:induction false} BalancedPrefixes(s: string, lo: nat, end: nat)
    requires lo < end < |s| && s[lo] == '{'
    requires Depth(s, lo, end + 1) == 0
    requires forall k :: lo < k <= end ==> Depth(s, lo, k) != 0
    ensures forall k :: lo < k <= end ==> Depth(s, lo, k) > 0
    ensures s[end] == '}'
  {
    forall k | lo < k <= end
      ensures Depth(s, lo, k) > 0
    {
      PositiveUpTo(s, lo, end, k);
    }
    assert Depth(s, lo, end + 1) == Depth(s, lo, end) + Step(s[end]);
  }

  lemma {:induction false} PositiveUpTo(s: string, lo: nat, end: nat, k: nat)
    requires lo < k <= end < |s| && s[lo] == '{'
    requires forall j :: lo < j <= end ==> Depth(s, lo, j) != 0
    ensures Depth(s, lo, k) > 0
    decreases k
  {
    if k > lo + 1 {
      PositiveUpTo(s, lo, end, k - 1);
      assert Depth(s, lo, k) == Depth(s, lo, k - 1) + Step(s[k - 1]);
      assert Depth(s, lo, k) != 0;
    } else {
      assert Depth(s, lo, lo + 1) == Depth(s, lo, lo) + Step(s[lo]);
    }
  }

  /** The matcher finds a balanced object whole whatever follows it, as
      long as nothing in front of it opens a brace. */
  lemma EmbeddedObjectFound(pre: string, t: string, post: string)
    requires WellNested(t)
    requires forall j :: 0 <= j < |pre| ==> pre[j] != '{'
    ensures ExtractBalanced(pre + t + post) == Success(t)
  {
    var s := pre + t + post;
    var lo := |pre|;
    assert s[lo] == '{';
    assert forall j :: 0 <= j < lo ==> s[j] == pre[j];
    assert IndexOf(s, '{') == lo;
    assert s[lo..lo + |t|] == t;
    DepthSlice(s, lo, lo + |t|);
    assert forall k :: lo < k <= lo + |t| ==> Depth(s, lo, k) == Depth(t, 0, k - lo);
    MatchEndFinds(s, lo, lo, lo + |t| - 1);
  }

  lemma {:induction false} MatchEndFinds(s: string, lo: nat, i: nat, end: nat)
    requires lo <= i <= end < |s|
    requires Depth(s, lo, end + 1) == 0
    requires forall k :: i < k <= end ==> Depth(s, lo, k) != 0
    ensures MatchEnd(s, lo, i, Depth(s, lo, i)) == Some(end)
    decreases end - i
  {
    assert Depth(s, lo, i + 1) == Depth(s, lo, i) + Step(s[i]);
    if i < end {
      MatchEndFinds(s, lo, i + 1, end);
    }
  }

  /** The whole cleaning route on an envelope of printable JSON between
      two runs of garbage: the object comes back unchanged when the part of
      the garbage in front that survives cleaning opens no brace. */
  lemma CleaningRecovers(front: string, t: string, back: string)
    requires WellNested(t) && forall i :: 0 <= i < |t| ==> Printable(t[i])
    requires forall j :: 0 <= j < |Clean(front)| ==> Clean(front)[j] != '{'
    ensures ExtractBalanced(Clean(front + t + back)) == Success(t)
  {
    CleanAppend(front + t, back);
    CleanAppend(front, t);
    EmbeddedObjectFound(Clean(front), t, Clean(back));
  }

  // ------------------------------------------------------------ hex processing

  const InvalidHex := "Contains invalid hex characters"

  predicate AllHex(s: string)
  {
    forall i :: 0 <= i < |s| ==> IsHexDigit(s[i])
  }

  /** The start of `fixWithHexProcessing`: drop one `0x`, refuse anything
      that is not a hex digit (`/^[0-9a-fA-F]*$/`), then read the digit
      pairs into `new Uint8Array(cleanHex.length / 2)`, whose length is
      truncated. */
  function HexProcessingBytes(rawHex: string): (r: Result<seq<byte>, string>)
    ensures r.Failure? <==> !AllHex(HexCodec.StripPrefix(rawHex))
    ensures r.Failure? ==> r.error == InvalidHex
    ensures r.Success? ==> var h := HexCodec.StripPrefix(rawHex);
      |r.value| == |h| / 2
      && forall i :: 0 <= i < |r.value| ==> r.value[i] == 16 * HexValue(h[2 * i]) + HexValue(h[2 * i + 1])
  {
    var h := HexCodec.StripPrefix(rawHex);
    if !AllHex(h) then Failure(InvalidHex)
    else
      var b := HexCodec.DecodePairs(h);
      assert forall i :: 0 <= i < |b| ==> b[i] == 16 * HexValue(h[2 * i]) + HexValue(h[2 * i + 1]) by {
        forall i | 0 <= i < |b|
          ensures b[i] == 16 * HexValue(h[2 * i]) + HexValue(h[2 * i + 1])
        {
          PairByteDigits(h[2 * i], h[2 * i + 1]);
        }
      }
      Success(b)
  }

  /** What `bytesToHex` wrote passes the check and reads back unchanged. */
  lemma HexProcessingOfBytesToHex(b: seq<byte>)
    ensures HexProcessingBytes(HexCodec.BytesToHex(b)) == Success(b)
  {
    var h := HexCodec.BytesToHex(b);
    assert HexCodec.StripPrefix(h) == h[2..];
    assert AllHex(h[2..]) by {
      assert forall i :: 0 <= i < |h[2..]| ==> h[2..][i] == h[i + 2];
    }
    HexCodec.HexToBytesOfBytesToHex(b);
  }

  // ------------------------------------------------------------ the fix routines

  const NoRawData := "No raw data to fix. Please retrieve it first."
  const ExtractedParsePrefix := "Failed to parse extracted JSON: "
  const ParsePrefix := "Failed to parse JSON: "
  const DirectJsonPrefix := "Error fixing with direct JSON: "
  const HexProcessingPrefix := "Error fixing with hex processing: "
  const CleaningPrefix := "Error fixing with character cleaning: "
  const RecreationPrefix := "Error with structure recreation: "

  /** The body of `fixWithDirectJson`'s try block after decoding: parse the
      whole text, or else (the parse or its logging having thrown) the
      first-to-last-brace span; then the field check, whose error is
      thrown as it is. */
  function DirectJson(text: string, parse: Parser): (r: Result<Value, string>)
    ensures ParseLogged(parse, text).Success? ==> r == RequireFields(parse(text).value)
    ensures ParseLogged(parse, text).Failure? && BraceSpan(text).Failure? ==> r == Failure(NoStructure)
    ensures ParseLogged(parse, text).Failure? && BraceSpan(text).Success? && ParseLogged(parse, BraceSpan(text).value).Failure?
            ==> r == Failure(ExtractedParsePrefix + ParseLogged(parse, BraceSpan(text).value).error)
    ensures ParseLogged(parse, text).Failure? && BraceSpan(text).Success? && ParseLogged(parse, BraceSpan(text).value).Success?
            ==> r == RequireFields(parse(BraceSpan(text).value).value)
  {
    var data :- match ParseLogged(parse, text)
      case Success(v) => Success(v)
      case Failure(_) =>
        match BraceSpan(text)
        case Failure(e) => Failure(e)
        case Success(t) =>
          match ParseLogged(parse, t)
          case Failure(e) => Failure(ExtractedParsePrefix + e)
          case Success(v) => Success(v);
    RequireFields(data)
  }

  /** The text `null` parses, but listing its keys throws, and with no
      brace in it the fallback finds no structure. */
  lemma DirectJsonOfNull(parse: Parser)
    requires parse("null") == Success(Null)
    ensures DirectJson("null", parse) == Failure(NoStructure)
  {
    assert IndexOf("null", '{') == -1 by {
      assert forall j :: 0 <= j < |"null"| ==> "null"[j] != '{';
    }
  }

  /** `fixWithDirectJson()`: the package handed to `decryptSecret`, or the
      message set as the error. */
  function FixWithDirectJson(rawHex: string, arrayify: string -> Result<seq<byte>, string>, parse: Parser)
    : (r: Result<Value, string>)
    ensures rawHex == "" ==> r == Failure(NoRawData)
    ensures r.Success? ==> RequireFields(r.value).Success?
    ensures rawHex != "" && r.Failure? ==> StartsWith(r.error, DirectJsonPrefix)
    ensures rawHex != "" && arrayify(rawHex).Failure? ==> r == Failure(DirectJsonPrefix + arrayify(rawHex).error)
    ensures rawHex != "" && arrayify(rawHex).Success? ==>
      var inner := DirectJson(Utf8.Decode(arrayify(rawHex).value), parse);
      r.Success? == inner.Success?
      && (r.Success? ==> r.value == inner.value)
      && (r.Failure? ==> r.error == DirectJsonPrefix + inner.error)
  {
    if rawHex == "" then Failure(NoRawData)
    else
      match arrayify(rawHex)
      case Failure(e) => Failure(DirectJsonPrefix + e)
      case Success(bytes) =>
        match DirectJson(Utf8.Decode(bytes), parse)
        case Failure(e) => Failure(DirectJsonPrefix + e)
        case Success(v) => Success(v)
  }

  /** The try block of `fixWithHexProcessing`. A missing field is thrown
      inside the inner try, so it reaches the user as a parse failure. */
  function HexProcessing(rawHex: string, parse: Parser): (r: Result<Value, string>)
    ensures HexProcessingBytes(rawHex).Failure? ==> r == Failure(InvalidHex)
    ensures HexProcessingBytes(rawHex).Success? && BraceSpan(Utf8.Decode(HexProcessingBytes(rawHex).value)).Failure?
            ==> r == Failure(NoStructure)
    ensures r.Success? ==> RequireFields(r.value).Success?
    ensures r.Success? ==> (HexProcessingBytes(rawHex).Success?
            && parse(BraceSpan(Utf8.Decode(HexProcessingBytes(rawHex).value)).value) == Success(r.value))
    ensures (HexProcessingBytes(rawHex).Success? && BraceSpan(Utf8.Decode(HexProcessingBytes(rawHex).value)).Success?
             && r.Failure?) ==> StartsWith(r.error, ParsePrefix)
  {
    var bytes :- HexProcessingBytes(rawHex);
    var t :- BraceSpan(Utf8.Decode(bytes));
    match ParseLogged(parse, t)
    case Failure(e) => Failure(ParsePrefix + e)
    case Success(v) =>
      match RequireFields(v)
      case Failure(e) => Failure(ParsePrefix + e)
      case Success(w) => Success(w)
  }

  /** `fixWithHexProcessing()`. */
  function FixWithHexProcessing(rawHex: string, parse: Parser): (r: Result<Value, string>)
    ensures rawHex == "" ==> r == Failure(NoRawData)
    ensures rawHex != "" ==> r.Success? == HexProcessing(rawHex, parse).Success?
    ensures r.Success? ==> RequireFields(r.value).Success?
    ensures rawHex != "" && r.Failure? ==> StartsWith(r.error, HexProcessingPrefix)
    ensures rawHex != "" && r.Success? ==> r.value == HexProcessing(rawHex, parse).value
    ensures rawHex != "" && r.Failure? ==> r.error == HexProcessingPrefix + HexProcessing(rawHex, parse).error
  {
    if rawHex == "" then Failure(NoRawData)
    else
      match HexProcessing(rawHex, parse)
      case Failure(e) => Failure(HexProcessingPrefix + e)
      case Success(v) => Success(v)
  }

  /** The try block of `fixWithCharacterCleaning` after decoding. */
  function CharacterCleaning(text: string, parse: Parser): (r: Result<Value, string>)
    ensures ExtractBalanced(Clean(text)).Failure? ==> r == Failure(NoValidStructure)
    ensures r.Success? ==> RequireFields(r.value).Success?
    ensures r.Success? ==> ExtractBalanced(Clean(text)).Success? && parse(ExtractBalanced(Clean(text)).value) == Success(r.value)
    ensures ExtractBalanced(Clean(text)).Success? && r.Failure? ==> StartsWith(r.error, ParsePrefix)
  {
    var t :- ExtractBalanced(Clean(text));
    match ParseLogged(parse, t)
    case Failure(e) => Failure(ParsePrefix + e)
    case Success(v) =>
      match RequireFields(v)
      case Failure(e) => Failure(ParsePrefix + e)
      case Success(w) => Success(w)
  }

  /** `fixWithCharacterCleaning()`. */
  function FixWithCharacterCleaning(rawHex: string, arrayify: string -> Result<seq<byte>, string>, parse: Parser)
    : (r: Result<Value, string>)
    ensures rawHex == "" ==> r == Failure(NoRawData)
    ensures r.Success? ==> RequireFields(r.value).Success?
    ensures rawHex != "" && r.Failure? ==> StartsWith(r.error, CleaningPrefix)
    ensures rawHex != "" && arrayify(rawHex).Failure? ==> r == Failure(CleaningPrefix + arrayify(rawHex).error)
    ensures rawHex != "" && arrayify(rawHex).Success? ==>
      var inner := CharacterCleaning(Utf8.Decode(arrayify(rawHex).value), parse);
      r.Success? == inner.Success?
      && (r.Success? ==> r.value == inner.value)
      && (r.Failure? ==> r.error == CleaningPrefix + inner.error)
  {
    if rawHex == "" then Failure(NoRawData)
    else
      match arrayify(rawHex)
      case Failure(e) => Failure(CleaningPrefix + e)
      case Success(bytes) =>
        match CharacterCleaning(Utf8.Decode(bytes), parse)
        case Failure(e) => Failure(CleaningPrefix + e)
        case Success(v) => Success(v)
  }

  // ------------------------------------------------------------ what the salvage recovers

  /** A package object `t` with garbage around it that breaks `JSON.parse`
      is still handed on by the direct route, as long as the garbage in
      front opens no brace and the garbage behind closes none. */
  lemma DirectJsonRecovers(pre: string, t: string, post: string, parse: Parser, v: Value)
    requires |t| >= 2 && t[0] == '{' && t[|t| - 1] == '}'
    requires forall j :: 0 <= j < |pre| ==> pre[j] != '{'
    requires forall j :: 0 <= j < |post| ==> post[j] != '}'
    requires parse(pre + t + post).Failure? && parse(t) == Success(v) && RequireFields(v).Success?
    ensures DirectJson(pre + t + post, parse) == Success(v)
  {
    BraceSpanOf(pre, t, post);
  }

  /** The same garbage-wrapped text, written to chain with `bytesToHex`,
      comes back through the hex route (unless it starts with U+FEFF, which
      the decoder drops). */
  lemma HexProcessingRecovers(pre: string, t: string, post: string, parse: Parser, v: Value)
    requires |t| >= 2 && t[0] == '{' && t[|t| - 1] == '}'
    requires forall j :: 0 <= j < |pre| ==> pre[j] != '{'
    requires forall j :: 0 <= j < |post| ==> post[j] != '}'
    requires |pre| == 0 || pre[0] != Utf8.ByteOrderMark
    requires parse(t) == Success(v) && RequireFields(v).Success?
    ensures HexProcessing(HexCodec.BytesToHex(Utf8.Encode(pre + t + post)), parse) == Success(v)
  {
    var text := pre + t + post;
    assert text[0] == if |pre| > 0 then pre[0] else t[0];
    HexProcessingOfBytesToHex(Utf8.Encode(text));
    Utf8.DecodeEncode(text);
    BraceSpanOf(pre, t, post);
  }

  /** A printable, balanced package object is found by the cleaning route
      whatever garbage surrounds it, as long as what survives of the
      garbage in front opens no brace. */
  lemma CharacterCleaningRecovers(front: string, t: string, back: string, parse: Parser, v: Value)
    requires WellNested(t) && forall i :: 0 <= i < |t| ==> Printable(t[i])
    requires forall j :: 0 <= j < |Clean(front)| ==> Clean(front)[j] != '{'
    requires parse(t) == Success(v) && RequireFields(v).Success?
    ensures CharacterCleaning(front + t + back, parse) == Success(v)
  {
    CleaningRecovers(front, t, back);
  }

  /** End to end on the direct route: when `arrayify` reads the stored hex
      as the UTF-8 bytes of the garbage-wrapped text, the package object
      is what goes to `decryptSecret`. */
  lemma FixWithDirectJsonRecovers(rawHex: string, arrayify: string -> Result<seq<byte>, string>,
                                  pre: string, t: string, post: string, parse: Parser, v: Value)
    requires rawHex != "" && arrayify(rawHex) == Success(Utf8.Encode(pre + t + post))
    requires |pre| == 0 || pre[0] != Utf8.ByteOrderMark
    requires |t| >= 2 && t[0] == '{' && t[|t| - 1] == '}'
    requires forall j :: 0 <= j < |pre| ==> pre[j] != '{'
    requires forall j :: 0 <= j < |post| ==> post[j] != '}'
    requires parse(pre + t + post).Failure? && parse(t) == Success(v) && RequireFields(v).Success?
    ensures FixWithDirectJson(rawHex, arrayify, parse) == Success(v)
  {
    var text := pre + t + post;
    assert text[0] == if |pre| > 0 then pre[0] else t[0];
    Utf8.DecodeEncode(text);
    DirectJsonRecovers(pre, t, post, parse, v);
  }

  /** End to end on the hex route: text stored with `bytesToHex` and
      wrapped in garbage is handed on as the package object. */
  lemma FixWithHexProcessingRecovers(pre: string, t: string, post: string, parse: Parser, v: Value)
    requires |t| >= 2 && t[0] == '{' && t[|t| - 1] == '}'
    requires forall j :: 0 <= j < |pre| ==> pre[j] != '{'
    requires forall j :: 0 <= j < |post| ==> post[j] != '}'
    requires |pre| == 0 || pre[0] != Utf8.ByteOrderMark
    requires parse(t) == Success(v) && RequireFields(v).Success?
    ensures FixWithHexProcessing(HexCodec.BytesToHex(Utf8.Encode(pre + t + post)), parse) == Success(v)
  {
    HexProcessingRecovers(pre, t, post, parse, v);
  }

  /** End to end on the cleaning route: a printable balanced package
      object read back by `arrayify` is handed on whatever surrounds it,
      a leading U+FEFF included, since cleaning drops that too. */
  lemma FixWithCharacterCleaningRecovers(rawHex: string, arrayify: string -> Result<seq<byte>, string>,
                                         front: string, t: string, back: string, parse: Parser, v: Value)
    requires rawHex != "" && arrayify(rawHex) == Success(Utf8.Encode(front + t + back))
    requires WellNested(t) && forall i :: 0 <= i < |t| ==> Printable(t[i])
    requires forall j :: 0 <= j < |Clean(front)| ==> Clean(front)[j] != '{'
    requires parse(t) == Success(v) && RequireFields(v).Success?
    ensures FixWithCharacterCleaning(rawHex, arrayify, parse) == Success(v)
  {
    var text := front + t + back;
    Utf8.DecodeEncode(text);
    if |front| > 0 && front[0] == Utf8.ByteOrderMark {
      assert text[1..] == front[1..] + t + back;
      assert front == [front[0]] + front[1..];
      CleanAppend([front[0]], front[1..]);
      CleanChar(front[0]);
      assert Clean(front[1..]) == Clean(front);
      CharacterCleaningRecovers(front[1..], t, back, parse, v);
    } else {
      if |front| == 0 {
        assert text[0] == t[0];
      } else {
        assert text[0] == front[0];
      }
      CharacterCleaningRecovers(front, t, back, parse, v);
    }
  }

  // ------------------------------------------------------------ structure recreation

  /** The object `fixWithStructureRecreation` builds; it is not checked for
      fields before it goes to `decryptSecret`. */
  datatype MockPackage = MockPackage(iv: seq<byte>, encryptedSecret: seq<byte>, aesKey: seq<byte>)

  /** A relative index of `Array.prototype.slice` (ECMA-262 section
      23.1.3.28) resolved against length `n`: a negative one counts from
      the end, and the result is clamped to 0..n. */
  function Resolve(rel: int, n: nat): (k: nat)
    ensures k <= n
    ensures 0 <= rel ==> k == if rel < n then rel else n
    ensures rel < 0 ==> k == if n + rel > 0 then n + rel else 0
  {
    if rel < 0 then (if n + rel > 0 then n + rel else 0)
    else if rel < n then rel else n
  }

  /** `b.slice(start, end)`. */
  function Slice(b: seq<byte>, start: int, end: int): (r: seq<byte>)
    ensures Resolve(start, |b|) <= Resolve(end, |b|) ==> r == b[Resolve(start, |b|)..Resolve(end, |b|)]
    ensures Resolve(end, |b|) < Resolve(start, |b|) ==> r == []
  {
    var from := Resolve(start, |b|);
    var to := Resolve(end, |b|);
    if from <= to then b[from..to] else []
  }

  /** `mockPackage`: the first 12 bytes, bytes 12 up to 100, and
      `bytes.slice(bytes.length - 32)`. */
  function RecreateStructure(bytes: seq<byte>): (p: MockPackage)
    ensures |bytes| >= 100 ==> p.iv == bytes[..12] && p.encryptedSecret == bytes[12..100]
    ensures |bytes| >= 32 ==> p.aesKey == bytes[|bytes| - 32..]
    ensures |p.iv| == (if |bytes| < 12 then |bytes| else 12)
    ensures |p.iv| + |p.encryptedSecret| <= |bytes|
    ensures bytes == p.iv + p.encryptedSecret + bytes[|p.iv| + |p.encryptedSecret|..]
  {
    MockPackage(Slice(bytes, 0, 12), Slice(bytes, 12, 100), Slice(bytes, |bytes| - 32, |bytes|))
  }

  /** Below 32 bytes the start `bytes.length - 32` is negative, and `slice`
      counts a negative start from the end once more: for n <= 16 bytes the
      key is the whole input, for 16 < n < 32 only its last 32 - n bytes. */
  lemma ShortInputKey(bytes: seq<byte>)
    requires |bytes| < 32
    ensures var n := |bytes|; var p := RecreateStructure(bytes);
      p.aesKey == bytes[if 2 * n > 32 then 2 * n - 32 else 0..]
    ensures |RecreateStructure(bytes).aesKey| == (if 2 * |bytes| > 32 then 32 - |bytes| else |bytes|)
  {
  }

  /** `fixWithStructureRecreation()`. */
  function FixWithStructureRecreation(rawHex: string, arrayify: string -> Result<seq<byte>, string>)
    : (r: Result<MockPackage, string>)
    ensures rawHex == "" ==> r == Failure(NoRawData)
    ensures rawHex != "" ==> (r.Success? <==> arrayify(rawHex).Success?)
    ensures r.Success? ==> r.value == RecreateStructure(arrayify(rawHex).value)
    ensures rawHex != "" && r.Failure? ==> r.error == RecreationPrefix + arrayify(rawHex).error
  {
    if rawHex == "" then Failure(NoRawData)
    else
      match arrayify(rawHex)
      case Failure(e) => Failure(RecreationPrefix + e)
      case Success(bytes) => Success(RecreateStructure(bytes))
  }
}
