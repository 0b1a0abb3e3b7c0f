/** The few JavaScript built-ins the client's byte and hex code leans on,
    with the exact behaviour ECMA-262 gives them on the inputs that occur:
    `parseInt(s, 16)` (section 19.2.5), the ToUint8 conversion a
    `Uint8Array` store applies (section 7.1.11), `Number.prototype.toString(16)`
    with `padStart(2, '0')`, and `startsWith`.

    A JavaScript string is a list of UTF-16 code units; here a string is a
    list of Unicode scalar values. The two agree on every string made of
    characters below U+10000, which covers every hex string the client
    reads or writes. */
module Js {
  import opened Wrappers
  import opened GF256

  // ------------------------------------------------------------ characters

  /** WhiteSpace and LineTerminator of ECMA-262 sections 12.2 and 12.3:
      what `parseInt` skips before the number. */
  predicate IsJsSpace(c: char)
  {
    var n := c as int;
    (0x09 <= n <= 0x0D) || n == 0x20 || n == 0xA0 || n == 0x1680
    || (0x2000 <= n <= 0x200A) || n == 0x2028 || n == 0x2029
    || n == 0x202F || n == 0x205F || n == 0x3000 || n == 0xFEFF
  }

  /** A digit of radix 16, in either case. */
  predicate IsHexDigit(c: char)
  {
    ('0' <= c <= '9') || ('a' <= c <= 'f') || ('A' <= c <= 'F')
  }

  function HexValue(c: char): (v: nat)
    requires IsHexDigit(c)
    ensures v < 16
  {
    if '0' <= c <= '9' then c as int - '0' as int
    else if 'a' <= c <= 'f' then c as int - 'a' as int + 10
    else c as int - 'A' as int + 10
  }

  /** The lower-case digit `toString(16)` writes for `d`. */
  function HexChar(d: nat): (c: char)
    requires d < 16
    ensures IsHexDigit(c) && HexValue(c) == d
    ensures !('A' <= c <= 'F')
  {
    if d < 10 then ('0' as int + d) as char else ('a' as int + d - 10) as char
  }

  /** Every digit is the lower-case digit of its value or the upper-case
      letter of it: the two spellings `parseInt` accepts. */
  lemma HexCharOfValue(c: char)
    requires IsHexDigit(c) && !('A' <= c <= 'F')
    ensures HexChar(HexValue(c)) == c
  {
  }

  // ------------------------------------------------------------ parseInt

  /** `s` starts with `p`. */
  predicate StartsWith(s: string, p: string)
  {
    |p| <= |s| && s[..|p|] == p
  }

  /** The longest prefix of `s` made of hex digits. */
  function HexRun(s: string): (n: nat)
    ensures n <= |s|
    ensures forall i :: 0 <= i < n ==> IsHexDigit(s[i])
    ensures n < |s| ==> !IsHexDigit(s[n])
  {
    if |s| == 0 || !IsHexDigit(s[0]) then 0 else 1 + HexRun(s[1..])
  }

  /** The value of a string of hex digits, most significant first. */
  function HexNumber(s: string): (v: nat)
    requires forall i :: 0 <= i < |s| ==> IsHexDigit(s[i])
    decreases |s|
  {
    if |s| == 0 then 0 else 16 * HexNumber(s[..|s| - 1]) + HexValue(s[|s| - 1])
  }

  /** `parseInt(s, 16)`, with `None` for NaN: skip leading white space,
      take one optional sign, drop one optional `0x`/`0X`, then read the
      longest run of hex digits; no digits at all is NaN. A negative zero
      is reported as 0, which is all a byte store can tell apart. */
  function ParseIntHex(s: string): (r: Option<int>)
    decreases |s|
  {
    if |s| > 0 && IsJsSpace(s[0]) then ParseIntHex(s[1..])
    else
      var sign := if |s| > 0 && s[0] == '-' then -1 else 1;
      var t := if |s| > 0 && (s[0] == '-' || s[0] == '+') then s[1..] else s;
      var u := if |t| >= 2 && t[0] == '0' && (t[1] == 'x' || t[1] == 'X') then t[2..] else t;
      var n := HexRun(u);
      if n == 0 then None else Some(sign * HexNumber(u[..n]))
  }

  /** ToUint8: NaN becomes 0, an integer is taken modulo 2^8 with a result
      in 0..255 (Dafny's `%` by a positive divisor is that modulo). */
  function ToUint8(v: Option<int>): (b: byte)
    ensures v.None? ==> b == 0
    ensures v.Some? ==> (b - v.value) % 256 == 0
  {
    match v
    case None => 0
    case Some(n) => n % 256
  }

  /** `parseInt(pair, 16)` stored into a `Uint8Array`: the byte a two
      character hex slice becomes. */
  function PairByte(c0: char, c1: char): byte
  {
    ToUint8(ParseIntHex([c0, c1]))
  }

  /** Two hex digits give their base-16 value. */
  lemma PairByteDigits(c0: char, c1: char)
    requires IsHexDigit(c0) && IsHexDigit(c1)
    ensures PairByte(c0, c1) == 16 * HexValue(c0) + HexValue(c1)
  {
    var s := [c0, c1];
    assert !IsJsSpace(c0) && c0 != '-' && c0 != '+';
    assert !(s[0] == '0' && (s[1] == 'x' || s[1] == 'X'));
    assert s[1..][1..] == [];
    assert HexRun(s[1..]) == 1;
    assert HexRun(s) == 2;
    assert s[..2] == s;
    assert s[..1] == [c0] && [c0][..0] == [];
    assert HexNumber([c0]) == HexValue(c0);
    assert HexNumber(s) == 16 * HexValue(c0) + HexValue(c1);
    assert ParseIntHex(s) == Some(HexNumber(s));
  }

  /** Nothing is checked: a pair with no leading hex digit becomes 0, and a
      pair whose second character is not a digit keeps the first digit
      (for "0x" and "0X", a prefix with no digits after it, that is 0 too). */
  lemma PairByteNotValidated(c0: char, c1: char)
    ensures !IsJsSpace(c0) && !IsHexDigit(c0) && c0 != '-' && c0 != '+' ==> PairByte(c0, c1) == 0
    ensures IsHexDigit(c0) && !IsHexDigit(c1) ==> PairByte(c0, c1) == HexValue(c0)
  {
    var s := [c0, c1];
    if IsHexDigit(c0) && !IsHexDigit(c1) {
      assert !IsJsSpace(c0) && c0 != '-' && c0 != '+';
      if c0 == '0' && (c1 == 'x' || c1 == 'X') {
        // "0x" is a bare prefix with no digits after it: NaN, stored as 0
        assert HexRun(s[2..]) == 0;
        assert ParseIntHex(s) == None;
        return;
      }
      assert HexRun(s[1..]) == 0;
      assert HexRun(s) == 1;
      assert s[..1] == [c0] && [c0][..0] == [];
      assert HexNumber([c0]) == HexValue(c0);
      assert ParseIntHex(s) == Some(HexValue(c0));
    }
  }

  // ------------------------------------------------------------ toString(16)

  /** `n.toString(16)`: the digits of `n` in radix 16, most significant first,
      in lower case, without leading zeros ("0" for zero). */
  function ToHexString(n: nat): (s: string)
    decreases n
  {
    if n < 16 then [HexChar(n)] else ToHexString(n / 16) + [HexChar(n % 16)]
  }

  /** `s.padStart(2, '0')`. */
  function PadStart2(s: string): (r: string)
  {
    if |s| >= 2 then s else seq(2 - |s|, _ => '0') + s
  }

  /** `b.toString(16).padStart(2, '0')` for one byte. */
  function ByteHex(b: byte): string
  {
    PadStart2(ToHexString(b))
  }

  /** A byte is written as exactly two lower-case digits, high nibble first. */
  lemma ByteHexDigits(b: byte)
    ensures ByteHex(b) == [HexChar(b / 16), HexChar(b % 16)]
  {
    if b < 16 {
      assert ToHexString(b) == [HexChar(b)];
      assert ByteHex(b) == ['0'] + [HexChar(b)];
    } else {
      assert ToHexString(b / 16) == [HexChar(b / 16)];
    }
  }

  /** Reading back the two digits of a byte gives the byte. */
  lemma PairByteOfByteHex(b: byte)
    ensures |ByteHex(b)| == 2 && PairByte(ByteHex(b)[0], ByteHex(b)[1]) == b
  {
    ByteHexDigits(b);
    PairByteDigits(HexChar(b / 16), HexChar(b % 16));
  }
}
