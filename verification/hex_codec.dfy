/** The `0x` hex codec the encryption helpers use to put bytes and text on
    chain (`WalletIntegratedEncryption.hexToBytes/bytesToHex/toHex/fromHex`,
    with `AsymmetricEncryption.toHex/fromHex` and the debug panel's inline
    `fromHex` written out again the same way).

    Writing is strict: `0x`, then two lower-case digits per byte. Reading is
    lenient: one leading `0x` is dropped if present, the rest is cut into
    character pairs from the left (a trailing odd character is ignored),
    and each pair goes through `parseInt(pair, 16)` into a byte, so a pair
    that is not hex becomes whatever `parseInt` makes of it, usually 0. */
module HexCodec {
  import opened GF256
  import opened Js
  import Utf8

  /** The string with one leading `0x` removed, if it has one. */
  function StripPrefix(h: string): (r: string)
    ensures StartsWith(h, "0x") ==> h == "0x" + r
    ensures !StartsWith(h, "0x") ==> r == h
  {
    if StartsWith(h, "0x") then h[2..] else h
  }

  /** The loop that fills `new Uint8Array(hex.length / 2)`: byte i is the
      pair at 2i and 2i + 1 read by `parseInt(_, 16)`. */
  function DecodePairs(hex: string): (b: seq<byte>)
    ensures |b| == |hex| / 2
    ensures forall i :: 0 <= i < |b| ==> b[i] == PairByte(hex[2 * i], hex[2 * i + 1])
    decreases |hex|
  {
    if |hex| < 2 then []
    else
      var rest := DecodePairs(hex[2..]);
      assert forall i :: 1 <= i < |hex| / 2 ==> hex[2 * i] == hex[2..][2 * (i - 1)];
      [PairByte(hex[0], hex[1])] + rest
  }

  /** `hexToBytes(hex)`. */
  function HexToBytes(hex: string): (b: seq<byte>)
    ensures |b| == |StripPrefix(hex)| / 2
  {
    DecodePairs(StripPrefix(hex))
  }

  /** The digits of a byte sequence: two lower-case digits per byte. */
  function JoinHex(b: seq<byte>): (h: string)
    ensures |h| == 2 * |b|
    ensures forall i :: 0 <= i < |b| ==> h[2 * i] == HexChar(b[i] / 16) && h[2 * i + 1] == HexChar(b[i] % 16)
    ensures forall i :: 0 <= i < |h| ==> IsHexDigit(h[i]) && !('A' <= h[i] <= 'F')
    decreases |b|
  {
    if |b| == 0 then ""
    else
      ByteHexDigits(b[0]);
      var rest := JoinHex(b[1..]);
      assert forall i :: 1 <= i < |b| ==> b[i] == b[1..][i - 1];
      ByteHex(b[0]) + rest
  }

  /** `bytesToHex(bytes)`. */
  function BytesToHex(b: seq<byte>): (h: string)
    ensures |h| == 2 + 2 * |b| && StartsWith(h, "0x")
    ensures forall i :: 2 <= i < |h| ==> IsHexDigit(h[i]) && !('A' <= h[i] <= 'F')
  {
    var h := "0x" + JoinHex(b);
    assert forall i :: 2 <= i < |h| ==> h[i] == JoinHex(b)[i - 2];
    h
  }

  /** `toHex(str)`: the UTF-8 bytes of the text, written in hex. */
  function ToHex(s: string): (h: string)
    ensures |h| == 2 + 2 * |Utf8.Encode(s)| && StartsWith(h, "0x")
  {
    BytesToHex(Utf8.Encode(s))
  }

  /** `fromHex(hex)`: the bytes read back, decoded as UTF-8. */
  function FromHex(hex: string): (s: string)
    ensures |s| <= |StripPrefix(hex)| / 2
  {
    Utf8.Decode(HexToBytes(hex))
  }

  // ------------------------------------------------------------ properties

  /** Reading the digits back gives every byte back. */
  lemma {:induction false} DecodeJoin(b: seq<byte>)
    ensures DecodePairs(JoinHex(b)) == b
    decreases |b|
  {
    if |b| > 0 {
      var h := JoinHex(b);
      ByteHexDigits(b[0]);
      assert h[2..] == JoinHex(b[1..]);
      DecodeJoin(b[1..]);
      PairByteOfByteHex(b[0]);
    }
  }

  /** `hexToBytes(bytesToHex(b)) == b` for every byte sequence. */
  lemma HexToBytesOfBytesToHex(b: seq<byte>)
    ensures HexToBytes(BytesToHex(b)) == b
  {
    var h := BytesToHex(b);
    assert h[2..] == JoinHex(b);
    DecodeJoin(b);
  }

  /** The prefix is optional: the digits read the same with or without
      it, as long as the digits themselves do not begin with `0x`. */
  lemma HexToBytesPrefixOptional(digits: string)
    requires !StartsWith(digits, "0x")
    ensures HexToBytes("0x" + digits) == HexToBytes(digits)
  {
    assert ("0x" + digits)[..2] == "0x";
    assert ("0x" + digits)[2..] == digits;
  }

  /** The one exception: a second `0x` is read as the digit pair "0x",
      which `parseInt` makes NaN and the byte store makes 0. */
  lemma HexToBytesDoublePrefix()
    ensures HexToBytes("0x0x12") == [0, 0x12]
    ensures HexToBytes("0x12") == [0x12]
  {
    var d := "0x12";
    assert StartsWith("0x0x12", "0x") && "0x0x12"[2..] == d;
    PairByteNotValidated('0', 'x');
    assert PairByte('0', 'x') == 0;
    PairByteDigits('1', '2');
    assert d[2..] == "12";
    assert DecodePairs("12") == [PairByte('1', '2')];
    assert DecodePairs(d) == [PairByte('0', 'x')] + DecodePairs("12");
    assert StartsWith(d, "0x") && d[2..] == "12";
  }

  /** `fromHex(toHex(s)) == s`: text survives the trip through hex, except
      that a leading U+FEFF is taken for a byte order mark and dropped. */
  lemma FromHexToHex(s: string)
    ensures |s| == 0 || s[0] != Utf8.ByteOrderMark ==> FromHex(ToHex(s)) == s
    ensures |s| > 0 && s[0] == Utf8.ByteOrderMark ==> FromHex(ToHex(s)) == s[1..]
  {
    HexToBytesOfBytesToHex(Utf8.Encode(s));
    Utf8.DecodeEncode(s);
  }
}
