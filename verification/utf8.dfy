/** UTF-8 as `TextEncoder` and `TextDecoder` apply it (RFC 3629, and the
    decoder of the WHATWG Encoding Standard). The encoder writes each
    scalar value in one to four bytes. The decoder never fails: a byte that
    cannot start a sequence, or a sequence cut short by a byte outside the
    range the standard allows at that point, becomes U+FFFD, and the
    offending byte (if it was not the lead) is read again as the start of
    the next sequence. A default `TextDecoder` also drops one U+FEFF at the
    very start of its output (the byte order mark). */
module Utf8 {
  import opened GF256

  const Replacement: char := '\U{FFFD}'
  const ByteOrderMark: char := '\U{FEFF}'

  // ------------------------------------------------------------ encoding

  function EncodeChar(c: char): (r: seq<byte>)
    ensures 1 <= |r| <= 4
    ensures (|r| == 1) == (c as int < 0x80) && (|r| == 1 ==> r[0] == c as int)
  {
    var n := c as int;
    if n < 0x80 then [n]
    else if n < 0x800 then [0xC0 + n / 64, 0x80 + n % 64]
    else if n < 0x10000 then [0xE0 + n / 64 / 64, 0x80 + n / 64 % 64, 0x80 + n % 64]
    else [0xF0 + n / 64 / 64 / 64, 0x80 + n / 64 / 64 % 64, 0x80 + n / 64 % 64, 0x80 + n % 64]
  }

  /** `new TextEncoder().encode(s)`. */
  function Encode(s: string): (r: seq<byte>)
    ensures |s| <= |r| <= 4 * |s|
    decreases |s|
  {
    if |s| == 0 then [] else EncodeChar(s[0]) + Encode(s[1..])
  }

  lemma {:induction false} EncodeAppend(s: string, t: string)
    ensures Encode(s + t) == Encode(s) + Encode(t)
    decreases |s|
  {
    if |s| > 0 {
      assert (s + t)[0] == s[0] && (s + t)[1..] == s[1..] + t;
      EncodeAppend(s[1..], t);
      calc {
        Encode(s + t);
        EncodeChar(s[0]) + Encode(s[1..] + t);
        EncodeChar(s[0]) + (Encode(s[1..]) + Encode(t));
        (EncodeChar(s[0]) + Encode(s[1..])) + Encode(t);
      }
    } else {
      assert s + t == t;
    }
  }

  // ------------------------------------------------------------ decoding

  /** How many continuation bytes a lead byte announces; 0 for a byte that
      cannot start a multi-byte sequence. */
  function Needed(lead: byte): nat
  {
    if 0xC2 <= lead <= 0xDF then 1
    else if 0xE0 <= lead <= 0xEF then 2
    else if 0xF0 <= lead <= 0xF4 then 3
    else 0
  }

  /** The range allowed for byte `i` (1 <= i) of the sequence led by `b[0]`:
      the first continuation byte is narrowed so that no overlong form, no
      surrogate and nothing above U+10FFFF can be written. */
  predicate Continues(b: seq<byte>, i: nat)
    requires 1 <= i < |b|
  {
    var lo := if i == 1 && b[0] == 0xE0 then 0xA0 else if i == 1 && b[0] == 0xF0 then 0x90 else 0x80;
    var hi := if i == 1 && b[0] == 0xED then 0x9F else if i == 1 && b[0] == 0xF4 then 0x8F else 0xBF;
    lo <= b[i] <= hi
  }

  /** The number of continuation bytes accepted after the lead `b[0]`,
      checking from position `i` on, at most `n`. */
  function Accepted(b: seq<byte>, i: nat, n: nat): (m: nat)
    requires 1 <= i <= n + 1 && i <= |b|
    ensures i - 1 <= m <= n && m < |b|
    ensures forall k :: i <= k <= m ==> Continues(b, k)
    ensures m < n ==> m + 1 == |b| || !Continues(b, m + 1)
    decreases n + 1 - i
  {
    if i > n || i == |b| || !Continues(b, i) then i - 1 else Accepted(b, i + 1, n)
  }

  /** The value a complete sequence of `n` continuation bytes encodes. */
  function CodePoint(b: seq<byte>, n: nat): int
    requires 1 <= n <= 3 && n < |b|
  {
    var b0, b1 := b[0] as int, b[1] as int;
    if n == 1 then (b0 % 32) * 64 + b1 % 64
    else if n == 2 then ((b0 % 16) * 64 + b1 % 64) * 64 + b[2] as int % 64
    else (((b0 % 8) * 64 + b1 % 64) * 64 + b[2] as int % 64) * 64 + b[3] as int % 64
  }

  predicate IsScalar(v: int)
  {
    0 <= v < 0xD800 || 0xE000 <= v < 0x11_0000
  }

  /** The byte ranges admitted make every complete sequence a scalar value
      of the length that sequence is the shortest encoding for. */
  lemma CodePointScalar(b: seq<byte>, n: nat)
    requires 1 <= n <= 3 && n < |b| && Needed(b[0]) == n
    requires forall k :: 1 <= k <= n ==> Continues(b, k)
    ensures IsScalar(CodePoint(b, n))
    ensures n == 1 ==> 0x80 <= CodePoint(b, n) < 0x800
    ensures n == 2 ==> 0x800 <= CodePoint(b, n) < 0x10000
    ensures n == 3 ==> 0x10000 <= CodePoint(b, n)
  {
    assert Continues(b, 1);
    if n == 1 {
      TwoByteValue(b);
    } else if n == 2 {
      assert Continues(b, 2);
      ThreeByteValue(b);
    } else {
      assert Continues(b, 2) && Continues(b, 3);
      FourByteValue(b);
    }
  }

  lemma TwoByteValue(b: seq<byte>)
    requires 1 < |b| && 0xC2 <= b[0] <= 0xDF && 0x80 <= b[1] <= 0xBF
    ensures 0x80 <= CodePoint(b, 1) < 0x800
  {
    var hi, lo := b[0] as int - 0xC0, b[1] as int - 0x80;
    assert b[0] as int % 32 == hi && b[1] as int % 64 == lo;
  }

  lemma ThreeByteValue(b: seq<byte>)
    requires 2 < |b| && 0xE0 <= b[0] <= 0xEF
    requires (if b[0] == 0xE0 then 0xA0 else 0x80) <= b[1] <= (if b[0] == 0xED then 0x9F else 0xBF)
    requires 0x80 <= b[2] <= 0xBF
    ensures 0x800 <= CodePoint(b, 2) < 0x10000
    ensures !(0xD800 <= CodePoint(b, 2) < 0xE000)
  {
    var h, m, l := b[0] as int - 0xE0, b[1] as int - 0x80, b[2] as int - 0x80;
    assert b[0] as int % 16 == h && b[1] as int % 64 == m && b[2] as int % 64 == l;
    assert CodePoint(b, 2) == h * 4096 + m * 64 + l;
  }

  lemma FourByteValue(b: seq<byte>)
    requires 3 < |b| && 0xF0 <= b[0] <= 0xF4
    requires (if b[0] == 0xF0 then 0x90 else 0x80) <= b[1] <= (if b[0] == 0xF4 then 0x8F else 0xBF)
    requires 0x80 <= b[2] <= 0xBF && 0x80 <= b[3] <= 0xBF
    ensures 0x10000 <= CodePoint(b, 3) < 0x11_0000
  {
    var h, m, l, t := b[0] as int - 0xF0, b[1] as int - 0x80, b[2] as int - 0x80, b[3] as int - 0x80;
    assert b[0] as int % 8 == h && b[1] as int % 64 == m && b[2] as int % 64 == l && b[3] as int % 64 == t;
    assert CodePoint(b, 3) == h * 262144 + m * 4096 + l * 64 + t;
  }

  function DecodeSequence(b: seq<byte>, n: nat): (c: char)
    requires 1 <= n <= 3 && n < |b| && Needed(b[0]) == n
    requires forall k :: 1 <= k <= n ==> Continues(b, k)
  {
    CodePointScalar(b, n);
    CodePoint(b, n) as char
  }

  /** The decoder's output before the byte order mark is looked at. */
  function DecodeRaw(b: seq<byte>): (s: string)
    ensures |s| <= |b|
    decreases |b|
  {
    if |b| == 0 then []
    else if b[0] < 0x80 then [b[0] as char] + DecodeRaw(b[1..])
    else
      var n := Needed(b[0]);
      var m := if n == 0 then 0 else Accepted(b, 1, n);
      if n > 0 && m == n then [DecodeSequence(b, n)] + DecodeRaw(b[n + 1..])
      else [Replacement] + DecodeRaw(b[m + 1..])
  }

  /** `new TextDecoder().decode(b)`. */
  function Decode(b: seq<byte>): (s: string)
    ensures |s| <= |b|
  {
    var raw := DecodeRaw(b);
    if |raw| > 0 && raw[0] == ByteOrderMark then raw[1..] else raw
  }

  // ------------------------------------------------------------ round trip

  /** The decoder reads one encoded character back and stops exactly after
      its bytes. */
  lemma DecodeEncodeChar(c: char, rest: seq<byte>)
    ensures DecodeRaw(EncodeChar(c) + rest) == [c] + DecodeRaw(rest)
  {
    var e := EncodeChar(c);
    var b := e + rest;
    var n := c as int;
    if n < 0x80 {
      assert b[1..] == rest;
    } else if n < 0x800 {
      assert b[0] == 0xC0 + n / 64 && Needed(b[0]) == 1;
      assert Continues(b, 1);
      assert Accepted(b, 1, 1) == 1;
      assert CodePoint(b, 1) == n;
      assert b[2..] == rest;
    } else if n < 0x10000 {
      assert b[0] == 0xE0 + n / 64 / 64 && Needed(b[0]) == 2;
      assert Continues(b, 1) && Continues(b, 2);
      assert Accepted(b, 2, 2) == 2;
      assert Accepted(b, 1, 2) == 2;
      ThreeBytes(n);
      assert CodePoint(b, 2) == n;
      assert b[3..] == rest;
    } else {
      assert b[0] == 0xF0 + n / 64 / 64 / 64 && Needed(b[0]) == 3;
      assert Continues(b, 1) && Continues(b, 2) && Continues(b, 3);
      assert Accepted(b, 3, 3) == 3;
      assert Accepted(b, 2, 3) == 3;
      assert Accepted(b, 1, 3) == 3;
      FourBytes(n);
      assert CodePoint(b, 3) == n;
      assert b[4..] == rest;
    }
  }

  lemma ThreeBytes(n: int)
    requires 0x800 <= n < 0x10000
    ensures ((0xE0 + n / 64 / 64) % 16 * 64 + (0x80 + n / 64 % 64) % 64) * 64 + (0x80 + n % 64) % 64 == n
  {
    var m1 := n / 64;
    var m2 := m1 / 64;
    assert n == 64 * m1 + n % 64;
    assert m1 == 64 * m2 + m1 % 64;
    assert m2 < 16;
  }

  lemma FourBytes(n: int)
    requires 0x10000 <= n < 0x110000
    ensures (((0xF0 + n / 64 / 64 / 64) % 8 * 64 + (0x80 + n / 64 / 64 % 64) % 64) * 64
            + (0x80 + n / 64 % 64) % 64) * 64 + (0x80 + n % 64) % 64 == n
  {
    var m1 := n / 64;
    var m2 := m1 / 64;
    var m3 := m2 / 64;
    assert n == 64 * m1 + n % 64;
    assert m1 == 64 * m2 + m1 % 64;
    assert m2 == 64 * m3 + m2 % 64;
    assert m3 < 8;
  }

  lemma {:induction false} DecodeRawEncode(s: string)
    ensures DecodeRaw(Encode(s)) == s
    decreases |s|
  {
    if |s| > 0 {
      DecodeRawEncode(s[1..]);
      DecodeEncodeChar(s[0], Encode(s[1..]));
    }
  }

  /** Decoding an encoded string gives it back, unless it starts with
      U+FEFF, which the decoder takes for a byte order mark. */
  lemma DecodeEncode(s: string)
    ensures |s| == 0 || s[0] != ByteOrderMark ==> Decode(Encode(s)) == s
    ensures |s| > 0 && s[0] == ByteOrderMark ==> Decode(Encode(s)) == s[1..]
  {
    DecodeRawEncode(s);
  }
}
