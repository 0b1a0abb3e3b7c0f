/** The multiplicative inverse of GF(2^8) as the client computes it: a
    256-entry lookup table (entry 0 is an unused 0), with `Inverse` and
    `Div` refusing a zero divisor. The table is checked entry by entry: a
    mirror of the shift-and-add product on `bv8` evaluates each product
    with the solver's bit-vector arithmetic, and `PeasantBridge` shows the
    mirror computes exactly `GF256.Peasant`. */
module GF256Inverse {
  import opened Bits
  import opened GF256
  import opened Wrappers

  /** The table, one source row of sixteen entries per constant. */
  const Row0: seq<byte> := [0x00, 0x01, 0x8D, 0xF6, 0xCB, 0x52, 0x7B, 0xD1, 0xE8, 0x4F, 0x29, 0xC0, 0xB0, 0xE1, 0xE5, 0xC7]
  const Row1: seq<byte> := [0x74, 0xB4, 0xAA, 0x4B, 0x99, 0x2B, 0x60, 0x5F, 0x58, 0x3F, 0xFD, 0xCC, 0xFF, 0x40, 0xEE, 0xB2]
  const Row2: seq<byte> := [0x3A, 0x6E, 0x5A, 0xF1, 0x55, 0x4D, 0xA8, 0xC9, 0xC1, 0x0A, 0x98, 0x15, 0x30, 0x44, 0xA2, 0xC2]
  const Row3: seq<byte> := [0x2C, 0x45, 0x92, 0x6C, 0xF3, 0x39, 0x66, 0x42, 0xF2, 0x35, 0x20, 0x6F, 0x77, 0xBB, 0x59, 0x19]
  const Row4: seq<byte> := [0x1D, 0xFE, 0x37, 0x67, 0x2D, 0x31, 0xF5, 0x69, 0xA7, 0x64, 0xAB, 0x13, 0x54, 0x25, 0xE9, 0x09]
  const Row5: seq<byte> := [0xED, 0x5C, 0x05, 0xCA, 0x4C, 0x24, 0x87, 0xBF, 0x18, 0x3E, 0x22, 0xF0, 0x51, 0xEC, 0x61, 0x17]
  const Row6: seq<byte> := [0x16, 0x5E, 0xAF, 0xD3, 0x49, 0xA6, 0x36, 0x43, 0xF4, 0x47, 0x91, 0xDF, 0x33, 0x93, 0x21, 0x3B]
  const Row7: seq<byte> := [0x79, 0xB7, 0x97, 0x85, 0x10, 0xB5, 0xBA, 0x3C, 0xB6, 0x70, 0xD0, 0x06, 0xA1, 0xFA, 0x81, 0x82]
  const Row8: seq<byte> := [0x83, 0x7E, 0x7F, 0x80, 0x96, 0x73, 0xBE, 0x56, 0x9B, 0x9E, 0x95, 0xD9, 0xF7, 0x02, 0xB9, 0xA4]
  const Row9: seq<byte> := [0xDE, 0x6A, 0x32, 0x6D, 0xD8, 0x8A, 0x84, 0x72, 0x2A, 0x14, 0x9F, 0x88, 0xF9, 0xDC, 0x89, 0x9A]
  const RowA: seq<byte> := [0xFB, 0x7C, 0x2E, 0xC3, 0x8F, 0xB8, 0x65, 0x48, 0x26, 0xC8, 0x12, 0x4A, 0xCE, 0xE7, 0xD2, 0x62]
  const RowB: seq<byte> := [0x0C, 0xE0, 0x1F, 0xEF, 0x11, 0x75, 0x78, 0x71, 0xA5, 0x8E, 0x76, 0x3D, 0xBD, 0xBC, 0x86, 0x57]
  const RowC: seq<byte> := [0x0B, 0x28, 0x2F, 0xA3, 0xDA, 0xD4, 0xE4, 0x0F, 0xA9, 0x27, 0x53, 0x04, 0x1B, 0xFC, 0xAC, 0xE6]
  const RowD: seq<byte> := [0x7A, 0x07, 0xAE, 0x63, 0xC5, 0xDB, 0xE2, 0xEA, 0x94, 0x8B, 0xC4, 0xD5, 0x9D, 0xF8, 0x90, 0x6B]
  const RowE: seq<byte> := [0xB1, 0x0D, 0xD6, 0xEB, 0xC6, 0x0E, 0xCF, 0xAD, 0x08, 0x4E, 0xD7, 0xE3, 0x5D, 0x50, 0x1E, 0xB3]
  const RowF: seq<byte> := [0x5B, 0x23, 0x38, 0x34, 0x68, 0x46, 0x03, 0x8C, 0xDD, 0x9C, 0x7D, 0xA0, 0xCD, 0x1A, 0x41, 0x1C]

  const InverseTable: seq<byte> := ((((Row0 + Row1) + (Row2 + Row3)) + ((Row4 + Row5) + (Row6 + Row7))) + (((Row8 + Row9) + (RowA + RowB)) + ((RowC + RowD) + (RowE + RowF))))

  const DivisionByZero := "Division by zero in GF(256)"
  const CannotInvertZero := "Cannot invert zero in GF(256)"

  /** `t[i]`, written as a walk down the sequence. Indexing the table
      directly would let the solver expand all 256 entries wherever an
      inverse is mentioned; the walk is only unfolded on demand, and
      `LookupIndex` says it is the same thing. */
  function Lookup(t: seq<byte>, i: nat): byte
    requires i < |t|
    decreases i
  {
    if i == 0 then t[0] else Lookup(t[1..], i - 1)
  }

  lemma {:induction false} LookupIndex(t: seq<byte>, i: nat)
    requires i < |t|
    ensures Lookup(t, i) == t[i]
    decreases i
  {
    if i > 0 {
      LookupIndex(t[1..], i - 1);
    }
  }

  /** The table entry of `a`: for a != 0 its inverse, for 0 the unused 0. */
  function TableInverse(a: byte): byte
  {
    Lookup(InverseTable, a)
  }

  /** Inverse of a non-zero element: its entry in the table; zero has
      none. */
  function Inverse(a: byte): (r: Result<byte, string>)
    ensures r.Failure? <==> a == 0
    ensures r.Failure? ==> r.error == CannotInvertZero
  {
    if a == 0 then Failure(CannotInvertZero)
    else Success(TableInverse(a))
  }

  /** Division: the zero-divisor check comes first, then a zero dividend
      short-cuts to 0, else the product with the inverse of the divisor. */
  function Div(a: byte, b: byte): (r: Result<byte, string>)
    ensures r.Failure? <==> b == 0
    ensures r.Failure? ==> r.error == DivisionByZero
    ensures b != 0 && a == 0 ==> r == Success(0)
  {
    if b == 0 then Failure(DivisionByZero)
    else if a == 0 then Success(0)
    else Success(Mul(a, Inverse(b).value))
  }

  /** What `Inverse` returns is an inverse, on either side. */
  lemma InverseCorrect(a: byte)
    ensures Inverse(a).Success? ==> Mul(a, Inverse(a).value) == 1 && Mul(Inverse(a).value, a) == 1
  {
    if a != 0 {
      LookupIndex(InverseTable, a);
      InverseTableCorrect(a);
      MulComm(a, InverseTable[a]);
    }
  }

  /** The table entry of a non-zero element is its inverse. */
  lemma TableInverseCorrect(a: byte)
    requires a != 0
    ensures Mul(a, TableInverse(a)) == 1 && Mul(TableInverse(a), a) == 1
  {
    InverseCorrect(a);
  }

  /** What `Div` returns is a quotient: multiplied back by the divisor it
      gives the dividend. */
  lemma DivCorrect(a: byte, b: byte)
    ensures Div(a, b).Success? ==> Mul(Div(a, b).value, b) == a
  {
    if b != 0 {
      if a == 0 {
        MulZero(b);
      } else {
        var inv := Inverse(b).value;
        InverseCorrect(b);
        MulAssoc(a, inv, b);
        MulOneRight(a);
      }
    }
  }

  // ------------------------------------------------------------ field facts

  /** Every non-zero element has exactly one inverse: the table's entry. */
  lemma InverseUnique(a: byte, c: byte)
    requires Mul(a, c) == 1
    ensures a != 0 && Inverse(a) == Success(c)
  {
    MulZero(c);
    var t := InverseTable[a];
    LookupIndex(InverseTable, a);
    InverseTableCorrect(a);
    MulComm(a, t);
    MulAssoc(t, a, c);
    MulOneLeft(c);
    MulOneRight(t);
  }

  /** GF(2^8) has no zero divisors. */
  lemma NoZeroDivisors(a: byte, b: byte)
    requires Mul(a, b) == 0
    ensures a == 0 || b == 0
  {
    if a != 0 {
      var t := InverseTable[a];
      InverseTableCorrect(a);
      MulComm(a, t);
      MulAssoc(t, a, b);
      MulZero(t);
      MulOneLeft(b);
    }
  }

  /** Multiplication by a non-zero element can be cancelled. */
  lemma MulCancel(a: byte, b: byte, c: byte)
    requires a != 0 && Mul(a, b) == Mul(a, c)
    ensures b == c
  {
    MulDistLeft(a, b, c);
    AddSelf(Mul(a, b));
    NoZeroDivisors(a, Add(b, c));
    AddCancel(b, c, 0);
    AddZero(c);
  }

  /** `Div(a, b)` is the only `q` with `q * b == a`. */
  lemma DivUnique(a: byte, b: byte, q: byte)
    requires b != 0 && Mul(q, b) == a
    ensures Div(a, b) == Success(q)
  {
    var r := Div(a, b).value;
    DivCorrect(a, b);
    MulComm(r, b);
    MulComm(q, b);
    MulCancel(b, r, q);
  }

  /** Division by a non-zero element is multiplication by its table inverse. */
  lemma DivByInverse(a: byte, b: byte)
    requires b != 0
    ensures Div(a, b) == Success(Mul(a, TableInverse(b)))
  {
    var t := TableInverse(b);
    LookupIndex(InverseTable, b);
    InverseTableCorrect(b);
    MulAssoc(a, t, b);
    MulComm(t, b);
    MulOneRight(a);
    DivUnique(a, b, Mul(a, t));
  }

  // ---------------------------------------------- checking the table entries

  /** Every non-zero entry of the table is an inverse of its index. */
  lemma InverseTableCorrect(a: byte)
    requires a != 0
    ensures Mul(a, InverseTable[a]) == 1
  {
    if a < 0x04 { Entries00(a); }
    else if a < 0x08 { Entries04(a); }
    else if a < 0x0C { Entries08(a); }
    else if a < 0x10 { Entries0C(a); }
    else if a < 0x14 { Entries10(a); }
    else if a < 0x18 { Entries14(a); }
    else if a < 0x1C { Entries18(a); }
    else if a < 0x20 { Entries1C(a); }
    else if a < 0x24 { Entries20(a); }
    else if a < 0x28 { Entries24(a); }
    else if a < 0x2C { Entries28(a); }
    else if a < 0x30 { Entries2C(a); }
    else if a < 0x34 { Entries30(a); }
    else if a < 0x38 { Entries34(a); }
    else if a < 0x3C { Entries38(a); }
    else if a < 0x40 { Entries3C(a); }
    else if a < 0x44 { Entries40(a); }
    else if a < 0x48 { Entries44(a); }
    else if a < 0x4C { Entries48(a); }
    else if a < 0x50 { Entries4C(a); }
    else if a < 0x54 { Entries50(a); }
    else if a < 0x58 { Entries54(a); }
    else if a < 0x5C { Entries58(a); }
    else if a < 0x60 { Entries5C(a); }
    else if a < 0x64 { Entries60(a); }
    else if a < 0x68 { Entries64(a); }
    else if a < 0x6C { Entries68(a); }
    else if a < 0x70 { Entries6C(a); }
    else if a < 0x74 { Entries70(a); }
    else if a < 0x78 { Entries74(a); }
    else if a < 0x7C { Entries78(a); }
    else if a < 0x80 { Entries7C(a); }
    else if a < 0x84 { Entries80(a); }
    else if a < 0x88 { Entries84(a); }
    else if a < 0x8C { Entries88(a); }
    else if a < 0x90 { Entries8C(a); }
    else if a < 0x94 { Entries90(a); }
    else if a < 0x98 { Entries94(a); }
    else if a < 0x9C { Entries98(a); }
    else if a < 0xA0 { Entries9C(a); }
    else if a < 0xA4 { EntriesA0(a); }
    else if a < 0xA8 { EntriesA4(a); }
    else if a < 0xAC { EntriesA8(a); }
    else if a < 0xB0 { EntriesAC(a); }
    else if a < 0xB4 { EntriesB0(a); }
    else if a < 0xB8 { EntriesB4(a); }
    else if a < 0xBC { EntriesB8(a); }
    else if a < 0xC0 { EntriesBC(a); }
    else if a < 0xC4 { EntriesC0(a); }
    else if a < 0xC8 { EntriesC4(a); }
    else if a < 0xCC { EntriesC8(a); }
    else if a < 0xD0 { EntriesCC(a); }
    else if a < 0xD4 { EntriesD0(a); }
    else if a < 0xD8 { EntriesD4(a); }
    else if a < 0xDC { EntriesD8(a); }
    else if a < 0xE0 { EntriesDC(a); }
    else if a < 0xE4 { EntriesE0(a); }
    else if a < 0xE8 { EntriesE4(a); }
    else if a < 0xEC { EntriesE8(a); }
    else if a < 0xF0 { EntriesEC(a); }
    else if a < 0xF4 { EntriesF0(a); }
    else if a < 0xF8 { EntriesF4(a); }
    else if a < 0xFC { EntriesF8(a); }
    else { EntriesFC(a); }
  }

  /** The shift-and-add product on `bv8`: the same steps as `Peasant`, with
      `XTimeBv` computing xtime by shift, mask and exclusive or. */
  function XTimeBv(a: bv8): bv8
  {
    (a << 1) ^ ((a >> 7) * 0x1B)
  }

  function SelBv(a: bv8, b: bv8): bv8
  {
    if b & 1 == 1 then a else 0
  }

  function PeasantBv(a: bv8, b: bv8, k: nat): bv8
    decreases k
  {
    if k == 0 then 0 else SelBv(a, b) ^ PeasantBv(XTimeBv(a), b >> 1, k - 1)
  }

  lemma PeasantBvStep(a: bv8, b: bv8, k: nat)
    ensures PeasantBv(a, b, k + 1) == SelBv(a, b) ^ PeasantBv(XTimeBv(a), b >> 1, k)
  {
  }

  lemma PeasantBvUnfold(a: bv8, b: bv8, k: nat)
    requires k > 0
    ensures PeasantBv(a, b, k) == SelBv(a, b) ^ PeasantBv(XTimeBv(a), b >> 1, k - 1)
  {
  }

  lemma BvHalf(x: bv8)
    ensures (x >> 1) as int == (x as int) / 2 && (x & 1) as int == (x as int) % 2
  {
  }

  lemma BvCombine(x: bv8, y: bv8)
    ensures (x ^ y) as int == ((x & 1) as int + (y & 1) as int) % 2 + 2 * (((x >> 1) ^ (y >> 1)) as int)
  {
  }

  lemma BvXorZero(x: bv8, y: bv8)
    ensures x == 0 ==> x ^ y == y
    ensures y == 0 ==> x ^ y == x
  {
  }

  lemma XorBridgeStep(x: bv8, y: bv8, a: nat, b: nat)
    requires a == x as int && b == y as int && a != 0 && b != 0
    requires Xor(a / 2, b / 2) == ((x >> 1) ^ (y >> 1)) as int
    ensures Xor(a, b) == (x ^ y) as int
  {
    BvHalf(x);
    BvHalf(y);
    BvCombine(x, y);
  }

  /** `Bits.Xor` on the values of two bytes is their bit-vector `^`. */
  lemma {:induction false} XorBridge(x: bv8, y: bv8, a: nat, b: nat)
    requires a == x as int && b == y as int
    ensures Xor(a, b) == (x ^ y) as int
    decreases a + b
  {
    if a == 0 || b == 0 {
      BvXorZero(x, y);
    } else {
      BvHalf(x);
      BvHalf(y);
      XorBridge(x >> 1, y >> 1, a / 2, b / 2);
      XorBridgeStep(x, y, a, b);
    }
  }

  lemma XTimeBvParts(x: bv8)
    ensures x as int < 128 ==> XTimeBv(x) as int == 2 * (x as int)
    ensures x as int >= 128 ==> XTimeBv(x) == (x << 1) ^ 0x1B && (x << 1) as int == 2 * (x as int) - 256
  {
  }

  lemma XTimeBridge(x: bv8, a: byte)
    requires a == x as int
    ensures XTime(a) == XTimeBv(x) as int
  {
    XTimeBvParts(x);
    if a >= 128 {
      XorBridge(x << 1, 0x1B, 2 * a - 256, 0x1B);
    }
  }

  lemma SelBridge(x: bv8, y: bv8, a: byte, b: nat)
    requires a == x as int && b == y as int
    ensures Sel(a, b) == SelBv(x, y) as int
  {
    BvHalf(y);
  }

  /** The bit-vector mirror computes `Peasant` once k covers every bit of
      the second operand. */
  lemma {:induction false} PeasantBridge(x: bv8, y: bv8, a: byte, b: nat, k: nat)
    requires a == x as int && b == y as int && b < Pow2(k)
    ensures Peasant(a, b) == PeasantBv(x, y, k) as int
    decreases k
  {
    if k > 0 {
      BvHalf(y);
      XTimeBridge(x, a);
      PeasantBridge(XTimeBv(x), y >> 1, XTime(a), b / 2, k - 1);
      PeasantBridgeStep(x, y, a, b, k);
    }
  }

  lemma PeasantBridgeStep(x: bv8, y: bv8, a: byte, b: nat, k: nat)
    requires k > 0 && a == x as int && b == y as int
    requires Peasant(XTime(a), b / 2) == PeasantBv(XTimeBv(x), y >> 1, k - 1) as int
    ensures Peasant(a, b) == PeasantBv(x, y, k) as int
  {
    SelBridge(x, y, a, b);
    PeasantUnfold(a, b);
    PeasantBvXor(x, y, k);
  }

  /** One step of the `bv8` product, read as integers. */
  lemma PeasantBvXor(x: bv8, y: bv8, k: nat)
    requires k > 0
    ensures PeasantBv(x, y, k) as int == Xor(SelBv(x, y) as int, PeasantBv(XTimeBv(x), y >> 1, k - 1) as int)
  {
    PeasantBvUnfold(x, y, k);
    XorBridge(SelBv(x, y), PeasantBv(XTimeBv(x), y >> 1, k - 1), SelBv(x, y) as int, PeasantBv(XTimeBv(x), y >> 1, k - 1) as int);
  }

  /** One table entry: the solver evaluates the `bv8` product, and the
      bridge carries the result over to `Mul`. */
  lemma Entry(a: byte, x: bv8, y: bv8)
    requires a == x as int && InverseTable[a] == y as int && PeasantBv(x, y, 8) == 1
    ensures Mul(a, InverseTable[a]) == 1
  {
    Pow2Byte();
    PeasantBridge(x, y, a, y as int, 8);
  }

  /* The entries four at a time, each four split into two pairs. The
     `PeasantBvStep` calls spell out each product's eight shift-and-add
     steps on the concrete values (the xtime powers of the index against
     the shifts of the entry), so that the solver does not have to search
     for them. */

  lemma Entries00(a: byte)
    requires 0x01 <= a < 0x04
    ensures Mul(a, InverseTable[a]) == 1
  {
    if a < 0x02 { Pair00(a); } else { Pair02(a); }
  }

  lemma Pair00(a: byte)
    requires 0x01 <= a < 0x2
    ensures Mul(a, InverseTable[a]) == 1
  {
    PeasantBvStep(0x80, 0x00, 0); PeasantBvStep(0x40, 0x00, 1); PeasantBvStep(0x20, 0x00, 2); PeasantBvStep(0x10, 0x00, 3); PeasantBvStep(0x08, 0x00, 4); PeasantBvStep(0x04, 0x00, 5); PeasantBvStep(0x02, 0x00, 6); PeasantBvStep(0x01, 0x01, 7);
    Entry(a, 0x01, 0x01);
  }

  lemma Pair02(a: byte)
    requires 0x02 <= a < 0x4
    ensures Mul(a, InverseTable[a]) == 1
  {
    if a == 0x02 {
      PeasantBvStep(0x1B, 0x01, 0); PeasantBvStep(0x80, 0x02, 1); PeasantBvStep(0x40, 0x04, 2); PeasantBvStep(0x20, 0x08, 3); PeasantBvStep(0x10, 0x11, 4); PeasantBvStep(0x08, 0x23, 5); PeasantBvStep(0x04, 0x46, 6); PeasantBvStep(0x02, 0x8D, 7);
      Entry(a, 0x02, 0x8D);
    } else {
      PeasantBvStep(0x9B, 0x01, 0); PeasantBvStep(0xC0, 0x03, 1); PeasantBvStep(0x60, 0x07, 2); PeasantBvStep(0x30, 0x0F, 3); PeasantBvStep(0x18, 0x1E, 4); PeasantBvStep(0x0C, 0x3D, 5); PeasantBvStep(0x06, 0x7B, 6); PeasantBvStep(0x03, 0xF6, 7);
      Entry(a, 0x03, 0xF6);
    }
  }

  lemma Entries04(a: byte)
    requires 0x04 <= a < 0x08
    ensures Mul(a, InverseTable[a]) == 1
  {
    if a < 0x06 { Pair04(a); } else { Pair06(a); }
  }

  lemma Pair04(a: byte)
    requires 0x04 <= a < 0x6
    ensures Mul(a, InverseTable[a]) == 1
  {
    if a == 0x04 {
      PeasantBvStep(0x36, 0x01, 0); PeasantBvStep(0x1B, 0x03, 1); PeasantBvStep(0x80, 0x06, 2); PeasantBvStep(0x40, 0x0C, 3); PeasantBvStep(0x20, 0x19, 4); PeasantBvStep(0x10, 0x32, 5); PeasantBvStep(0x08, 0x65, 6); PeasantBvStep(0x04, 0xCB, 7);
      Entry(a, 0x04, 0xCB);
    } else {
      PeasantBvStep(0xB6, 0x00, 0); PeasantBvStep(0x5B, 0x01, 1); PeasantBvStep(0xA0, 0x02, 2); PeasantBvStep(0x50, 0x05, 3); PeasantBvStep(0x28, 0x0A, 4); PeasantBvStep(0x14, 0x14, 5); PeasantBvStep(0x0A, 0x29, 6); PeasantBvStep(0x05, 0x52, 7);
      Entry(a, 0x05, 0x52);
    }
  }

  lemma Pair06(a: byte)
    requires 0x06 <= a < 0x8
    ensures Mul(a, InverseTable[a]) == 1
  {
    if a == 0x06 {
      PeasantBvStep(0x2D, 0x00, 0); PeasantBvStep(0x9B, 0x01, 1); PeasantBvStep(0xC0, 0x03, 2); PeasantBvStep(0x60, 0x07, 3); PeasantBvStep(0x30, 0x0F, 4); PeasantBvStep(0x18, 0x1E, 5); PeasantBvStep(0x0C, 0x3D, 6); PeasantBvStep(0x06, 0x7B, 7);
      Entry(a, 0x06, 0x7B);
    } else {
      PeasantBvStep(0xAD, 0x01, 0); PeasantBvStep(0xDB, 0x03, 1); PeasantBvStep(0xE0, 0x06, 2); PeasantBvStep(0x70, 0x0D, 3); PeasantBvStep(0x38, 0x1A, 4); PeasantBvStep(0x1C, 0x34, 5); PeasantBvStep(0x0E, 0x68, 6); PeasantBvStep(0x07, 0xD1, 7);
      Entry(a, 0x07, 0xD1);
    }
  }

  lemma Entries08(a: byte)
    requires 0x08 <= a < 0x0C
    ensures Mul(a, InverseTable[a]) == 1
  {
    if a < 0x0A { Pair08(a); } else { Pair0A(a); }
  }

  lemma Pair08(a: byte)
    requires 0x08 <= a < 0xA
    ensures Mul(a, InverseTable[a]) == 1
  {
    if a == 0x08 {
      PeasantBvStep(0x6C, 0x01, 0); PeasantBvStep(0x36, 0x03, 1); PeasantBvStep(0x1B, 0x07, 2); PeasantBvStep(0x80, 0x0E, 3); PeasantBvStep(0x40, 0x1D, 4); PeasantBvStep(0x20, 0x3A, 5); PeasantBvStep(0x10, 0x74, 6); PeasantBvStep(0x08, 0xE8, 7);
      Entry(a, 0x08, 0xE8);
    } else {
      PeasantBvStep(0xEC, 0x00, 0); PeasantBvStep(0x76, 0x01, 1); PeasantBvStep(0x3B, 0x02, 2); PeasantBvStep(0x90, 0x04, 3); PeasantBvStep(0x48, 0x09, 4); PeasantBvStep(0x24, 0x13, 5); PeasantBvStep(0x12, 0x27, 6); PeasantBvStep(0x09, 0x4F, 7);
      Entry(a, 0x09, 0x4F);
    }
  }

  lemma Pair0A(a: byte)
    requires 0x0A <= a < 0xC
    ensures Mul(a, InverseTable[a]) == 1
  {
    if a == 0x0A {
      PeasantBvStep(0x77, 0x00, 0); PeasantBvStep(0xB6, 0x00, 1); PeasantBvStep(0x5B, 0x01, 2); PeasantBvStep(0xA0, 0x02, 3); PeasantBvStep(0x50, 0x05, 4); PeasantBvStep(0x28, 0x0A, 5); PeasantBvStep(0x14, 0x14, 6); PeasantBvStep(0x0A, 0x29, 7);
      Entry(a, 0x0A, 0x29);
    } else {
      PeasantBvStep(0xF7, 0x01, 0); PeasantBvStep(0xF6, 0x03, 1); PeasantBvStep(0x7B, 0x06, 2); PeasantBvStep(0xB0, 0x0C, 3); PeasantBvStep(0x58, 0x18, 4); PeasantBvStep(0x2C, 0x30, 5); PeasantBvStep(0x16, 0x60, 6); PeasantBvStep(0x0B, 0xC0, 7);
      Entry(a, 0x0B, 0xC0);
    }
  }

  lemma Entries0C(a: byte)
    requires 0x0C <= a < 0x10
    ensures Mul(a, InverseTable[a]) == 1
  {
    if a < 0x0E { Pair0C(a); } else { Pair0E(a); }
  }

  lemma Pair0C(a: byte)
    requires 0x0C <= a < 0xE
    ensures Mul(a, InverseTable[a]) == 1
  {
    if a == 0x0C {
      PeasantBvStep(0x5A, 0x01, 0); PeasantBvStep(0x2D, 0x02, 1); PeasantBvStep(0x9B, 0x05, 2); PeasantBvStep(0xC0, 0x0B, 3); PeasantBvStep(0x60, 0x16, 4); PeasantBvStep(0x30, 0x2C, 5); PeasantBvStep(0x18, 0x58, 6); PeasantBvStep(0x0C, 0xB0, 7);
      Entry(a, 0x0C, 0xB0);
    } else {
      PeasantBvStep(0xDA, 0x01, 0); PeasantBvStep(0x6D, 0x03, 1); PeasantBvStep(0xBB, 0x07, 2); PeasantBvStep(0xD0, 0x0E, 3); PeasantBvStep(0x68, 0x1C, 4); PeasantBvStep(0x34, 0x38, 5); PeasantBvStep(0x1A, 0x70, 6); PeasantBvStep(0x0D, 0xE1, 7);
      Entry(a, 0x0D, 0xE1);
    }
  }

  lemma Pair0E(a: byte)
    requires 0x0E <= a < 0x10
    ensures Mul(a, InverseTable[a]) == 1
  {
    if a == 0x0E {
      PeasantBvStep(0x41, 0x01, 0); PeasantBvStep(0xAD, 0x03, 1); PeasantBvStep(0xDB, 0x07, 2); PeasantBvStep(0xE0, 0x0E, 3); PeasantBvStep(0x70, 0x1C, 4); PeasantBvStep(0x38, 0x39, 5); PeasantBvStep(0x1C, 0x72, 6); PeasantBvStep(0x0E, 0xE5, 7);
      Entry(a, 0x0E, 0xE5);
    } else {
      PeasantBvStep(0xC1, 0x01, 0); PeasantBvStep(0xED, 0x03, 1); PeasantBvStep(0xFB, 0x06, 2); PeasantBvStep(0xF0, 0x0C, 3); PeasantBvStep(0x78, 0x18, 4); PeasantBvStep(0x3C, 0x31, 5); PeasantBvStep(0x1E, 0x63, 6); PeasantBvStep(0x0F, 0xC7, 7);
      Entry(a, 0x0F, 0xC7);
    }
  }

  lemma Entries10(a: byte)
    requires 0x10 <= a < 0x14
    ensures Mul(a, InverseTable[a]) == 1
  {
    if a < 0x12 { Pair10(a); } else { Pair12(a); }
  }

  lemma Pair10(a: byte)
    requires 0x10 <= a < 0x12
    ensures Mul(a, InverseTable[a]) == 1
  {
    if a == 0x10 {
      PeasantBvStep(0xD8, 0x00, 0); PeasantBvStep(0x6C, 0x01, 1); PeasantBvStep(0x36, 0x03, 2); PeasantBvStep(0x1B, 0x07, 3); PeasantBvStep(0x80, 0x0E, 4); PeasantBvStep(0x40, 0x1D, 5); PeasantBvStep(0x20, 0x3A, 6); PeasantBvStep(0x10, 0x74, 7);
      Entry(a, 0x10, 0x74);
    } else {
      PeasantBvStep(0x58, 0x01, 0); PeasantBvStep(0x2C, 0x02, 1); PeasantBvStep(0x16, 0x05, 2); PeasantBvStep(0x0B, 0x0B, 3); PeasantBvStep(0x88, 0x16, 4); PeasantBvStep(0x44, 0x2D, 5); PeasantBvStep(0x22, 0x5A, 6); PeasantBvStep(0x11, 0xB4, 7);
      Entry(a, 0x11, 0xB4);
    }
  }

  lemma Pair12(a: byte)
    requires 0x12 <= a < 0x14
    ensures Mul(a, InverseTable[a]) == 1
  {
    if a == 0x12 {
      PeasantBvStep(0xC3, 0x01, 0); PeasantBvStep(0xEC, 0x02, 1); PeasantBvStep(0x76, 0x05, 2); PeasantBvStep(0x3B, 0x0A, 3); PeasantBvStep(0x90, 0x15, 4); PeasantBvStep(0x48, 0x2A, 5); PeasantBvStep(0x24, 0x55, 6); PeasantBvStep(0x12, 0xAA, 7);
      Entry(a, 0x12, 0xAA);
    } else {
      PeasantBvStep(0x43, 0x00, 0); PeasantBvStep(0xAC, 0x01, 1); PeasantBvStep(0x56, 0x02, 2); PeasantBvStep(0x2B, 0x04, 3); PeasantBvStep(0x98, 0x09, 4); PeasantBvStep(0x4C, 0x12, 5); PeasantBvStep(0x26, 0x25, 6); PeasantBvStep(0x13, 0x4B, 7);
      Entry(a, 0x13, 0x4B);
    }
  }

  lemma Entries14(a: byte)
    requires 0x14 <= a < 0x18
    ensures Mul(a, InverseTable[a]) == 1
  {
    if a < 0x16 { Pair14(a); } else { Pair16(a); }
  }

  lemma Pair14(a: byte)
    requires 0x14 <= a < 0x16
    ensures Mul(a, InverseTable[a]) == 1
  {
    if a == 0x14 {
      PeasantBvStep(0xEE, 0x01, 0); PeasantBvStep(0x77, 0x02, 1); PeasantBvStep(0xB6, 0x04, 2); PeasantBvStep(0x5B, 0x09, 3); PeasantBvStep(0xA0, 0x13, 4); PeasantBvStep(0x50, 0x26, 5); PeasantBvStep(0x28, 0x4C, 6); PeasantBvStep(0x14, 0x99, 7);
      Entry(a, 0x14, 0x99);
    } else {
      PeasantBvStep(0x6E, 0x00, 0); PeasantBvStep(0x37, 0x00, 1); PeasantBvStep(0x96, 0x01, 2); PeasantBvStep(0x4B, 0x02, 3); PeasantBvStep(0xA8, 0x05, 4); PeasantBvStep(0x54, 0x0A, 5); PeasantBvStep(0x2A, 0x15, 6); PeasantBvStep(0x15, 0x2B, 7);
      Entry(a, 0x15, 0x2B);
    }
  }

  lemma Pair16(a: byte)
    requires 0x16 <= a < 0x18
    ensures Mul(a, InverseTable[a]) == 1
  {
    if a == 0x16 {
      PeasantBvStep(0xF5, 0x00, 0); PeasantBvStep(0xF7, 0x01, 1); PeasantBvStep(0xF6, 0x03, 2); PeasantBvStep(0x7B, 0x06, 3); PeasantBvStep(0xB0, 0x0C, 4); PeasantBvStep(0x58, 0x18, 5); PeasantBvStep(0x2C, 0x30, 6); PeasantBvStep(0x16, 0x60, 7);
      Entry(a, 0x16, 0x60);
    } else {
      PeasantBvStep(0x75, 0x00, 0); PeasantBvStep(0xB7, 0x01, 1); PeasantBvStep(0xD6, 0x02, 2); PeasantBvStep(0x6B, 0x05, 3); PeasantBvStep(0xB8, 0x0B, 4); PeasantBvStep(0x5C, 0x17, 5); PeasantBvStep(0x2E, 0x2F, 6); PeasantBvStep(0x17, 0x5F, 7);
      Entry(a, 0x17, 0x5F);
    }
  }

  lemma Entries18(a: byte)
    requires 0x18 <= a < 0x1C
    ensures Mul(a, InverseTable[a]) == 1
  {
    if a < 0x1A { Pair18(a); } else { Pair1A(a); }
  }

  lemma Pair18(a: byte)
    requires 0x18 <= a < 0x1A
    ensures Mul(a, InverseTable[a]) == 1
  {
    if a == 0x18 {
      PeasantBvStep(0xB4, 0x00, 0); PeasantBvStep(0x5A, 0x01, 1); PeasantBvStep(0x2D, 0x02, 2); PeasantBvStep(0x9B, 0x05, 3); PeasantBvStep(0xC0, 0x0B, 4); PeasantBvStep(0x60, 0x16, 5); PeasantBvStep(0x30, 0x2C, 6); PeasantBvStep(0x18, 0x58, 7);
      Entry(a, 0x18, 0x58);
    } else {
      PeasantBvStep(0x34, 0x00, 0); PeasantBvStep(0x1A, 0x00, 1); PeasantBvStep(0x0D, 0x01, 2); PeasantBvStep(0x8B, 0x03, 3); PeasantBvStep(0xC8, 0x07, 4); PeasantBvStep(0x64, 0x0F, 5); PeasantBvStep(0x32, 0x1F, 6); PeasantBvStep(0x19, 0x3F, 7);
      Entry(a, 0x19, 0x3F);
    }
  }

  lemma Pair1A(a: byte)
    requires 0x1A <= a < 0x1C
    ensures Mul(a, InverseTable[a]) == 1
  {
    if a == 0x1A {
      PeasantBvStep(0xAF, 0x01, 0); PeasantBvStep(0xDA, 0x03, 1); PeasantBvStep(0x6D, 0x07, 2); PeasantBvStep(0xBB, 0x0F, 3); PeasantBvStep(0xD0, 0x1F, 4); PeasantBvStep(0x68, 0x3F, 5); PeasantBvStep(0x34, 0x7E, 6); PeasantBvStep(0x1A, 0xFD, 7);
      Entry(a, 0x1A, 0xFD);
    } else {
      PeasantBvStep(0x2F, 0x01, 0); PeasantBvStep(0x9A, 0x03, 1); PeasantBvStep(0x4D, 0x06, 2); PeasantBvStep(0xAB, 0x0C, 3); PeasantBvStep(0xD8, 0x19, 4); PeasantBvStep(0x6C, 0x33, 5); PeasantBvStep(0x36, 0x66, 6); PeasantBvStep(0x1B, 0xCC, 7);
      Entry(a, 0x1B, 0xCC);
    }
  }

  lemma Entries1C(a: byte)
    requires 0x1C <= a < 0x20
    ensures Mul(a, InverseTable[a]) == 1
  {
    if a < 0x1E { Pair1C(a); } else { Pair1E(a); }
  }

  lemma Pair1C(a: byte)
    requires 0x1C <= a < 0x1E
    ensures Mul(a, InverseTable[a]) == 1
  {
    if a == 0x1C {
      PeasantBvStep(0x82, 0x01, 0); PeasantBvStep(0x41, 0x03, 1); PeasantBvStep(0xAD, 0x07, 2); PeasantBvStep(0xDB, 0x0F, 3); PeasantBvStep(0xE0, 0x1F, 4); PeasantBvStep(0x70, 0x3F, 5); PeasantBvStep(0x38, 0x7F, 6); PeasantBvStep(0x1C, 0xFF, 7);
      Entry(a, 0x1C, 0xFF);
    } else {
      PeasantBvStep(0x02, 0x00, 0); PeasantBvStep(0x01, 0x01, 1); PeasantBvStep(0x8D, 0x02, 2); PeasantBvStep(0xCB, 0x04, 3); PeasantBvStep(0xE8, 0x08, 4); PeasantBvStep(0x74, 0x10, 5); PeasantBvStep(0x3A, 0x20, 6); PeasantBvStep(0x1D, 0x40, 7);
      Entry(a, 0x1D, 0x40);
    }
  }

  lemma Pair1E(a: byte)
    requires 0x1E <= a < 0x20
    ensures Mul(a, InverseTable[a]) == 1
  {
    if a == 0x1E {
      PeasantBvStep(0x99, 0x01, 0); PeasantBvStep(0xC1, 0x03, 1); PeasantBvStep(0xED, 0x07, 2); PeasantBvStep(0xFB, 0x0E, 3); PeasantBvStep(0xF0, 0x1D, 4); PeasantBvStep(0x78, 0x3B, 5); PeasantBvStep(0x3C, 0x77, 6); PeasantBvStep(0x1E, 0xEE, 7);
      Entry(a, 0x1E, 0xEE);
    } else {
      PeasantBvStep(0x19, 0x01, 0); PeasantBvStep(0x81, 0x02, 1); PeasantBvStep(0xCD, 0x05, 2); PeasantBvStep(0xEB, 0x0B, 3); PeasantBvStep(0xF8, 0x16, 4); PeasantBvStep(0x7C, 0x2C, 5); PeasantBvStep(0x3E, 0x59, 6); PeasantBvStep(0x1F, 0xB2, 7);
      Entry(a, 0x1F, 0xB2);
    }
  }

  lemma Entries20(a: byte)
    requires 0x20 <= a < 0x24
    ensures Mul(a, InverseTable[a]) == 1
  {
    if a < 0x22 { Pair20(a); } else { Pair22(a); }
  }

  lemma Pair20(a: byte)
    requires 0x20 <= a < 0x22
    ensures Mul(a, InverseTable[a]) == 1
  {
    if a == 0x20 {
      PeasantBvStep(0xAB, 0x00, 0); PeasantBvStep(0xD8, 0x00, 1); PeasantBvStep(0x6C, 0x01, 2); PeasantBvStep(0x36, 0x03, 3); PeasantBvStep(0x1B, 0x07, 4); PeasantBvStep(0x80, 0x0E, 5); PeasantBvStep(0x40, 0x1D, 6); PeasantBvStep(0x20, 0x3A, 7);
      Entry(a, 0x20, 0x3A);
    } else {
      PeasantBvStep(0x2B, 0x00, 0); PeasantBvStep(0x98, 0x01, 1); PeasantBvStep(0x4C, 0x03, 2); PeasantBvStep(0x26, 0x06, 3); PeasantBvStep(0x13, 0x0D, 4); PeasantBvStep(0x84, 0x1B, 5); PeasantBvStep(0x42, 0x37, 6); PeasantBvStep(0x21, 0x6E, 7);
      Entry(a, 0x21, 0x6E);
    }
  }

  lemma Pair22(a: byte)
    requires 0x22 <= a < 0x24
    ensures Mul(a, InverseTable[a]) == 1
  {
    if a == 0x22 {
      PeasantBvStep(0xB0, 0x00, 0); PeasantBvStep(0x58, 0x01, 1); PeasantBvStep(0x2C, 0x02, 2); PeasantBvStep(0x16, 0x05, 3); PeasantBvStep(0x0B, 0x0B, 4); PeasantBvStep(0x88, 0x16, 5); PeasantBvStep(0x44, 0x2D, 6); PeasantBvStep(0x22, 0x5A, 7);
      Entry(a, 0x22, 0x5A);
    } else {
      PeasantBvStep(0x30, 0x01, 0); PeasantBvStep(0x18, 0x03, 1); PeasantBvStep(0x0C, 0x07, 2); PeasantBvStep(0x06, 0x0F, 3); PeasantBvStep(0x03, 0x1E, 4); PeasantBvStep(0x8C, 0x3C, 5); PeasantBvStep(0x46, 0x78, 6); PeasantBvStep(0x23, 0xF1, 7);
      Entry(a, 0x23, 0xF1);
    }
  }

  lemma Entries24(a: byte)
    requires 0x24 <= a < 0x28
    ensures Mul(a, InverseTable[a]) == 1
  {
    if a < 0x26 { Pair24(a); } else { Pair26(a); }
  }

  lemma Pair24(a: byte)
    requires 0x24 <= a < 0x26
    ensures Mul(a, InverseTable[a]) == 1
  {
    if a == 0x24 {
      PeasantBvStep(0x9D, 0x00, 0); PeasantBvStep(0xC3, 0x01, 1); PeasantBvStep(0xEC, 0x02, 2); PeasantBvStep(0x76, 0x05, 3); PeasantBvStep(0x3B, 0x0A, 4); PeasantBvStep(0x90, 0x15, 5); PeasantBvStep(0x48, 0x2A, 6); PeasantBvStep(0x24, 0x55, 7);
      Entry(a, 0x24, 0x55);
    } else {
      PeasantBvStep(0x1D, 0x00, 0); PeasantBvStep(0x83, 0x01, 1); PeasantBvStep(0xCC, 0x02, 2); PeasantBvStep(0x66, 0x04, 3); PeasantBvStep(0x33, 0x09, 4); PeasantBvStep(0x94, 0x13, 5); PeasantBvStep(0x4A, 0x26, 6); PeasantBvStep(0x25, 0x4D, 7);
      Entry(a, 0x25, 0x4D);
    }
  }

  lemma Pair26(a: byte)
    requires 0x26 <= a < 0x28
    ensures Mul(a, InverseTable[a]) == 1
  {
    if a == 0x26 {
      PeasantBvStep(0x86, 0x01, 0); PeasantBvStep(0x43, 0x02, 1); PeasantBvStep(0xAC, 0x05, 2); PeasantBvStep(0x56, 0x0A, 3); PeasantBvStep(0x2B, 0x15, 4); PeasantBvStep(0x98, 0x2A, 5); PeasantBvStep(0x4C, 0x54, 6); PeasantBvStep(0x26, 0xA8, 7);
      Entry(a, 0x26, 0xA8);
    } else {
      PeasantBvStep(0x06, 0x01, 0); PeasantBvStep(0x03, 0x03, 1); PeasantBvStep(0x8C, 0x06, 2); PeasantBvStep(0x46, 0x0C, 3); PeasantBvStep(0x23, 0x19, 4); PeasantBvStep(0x9C, 0x32, 5); PeasantBvStep(0x4E, 0x64, 6); PeasantBvStep(0x27, 0xC9, 7);
      Entry(a, 0x27, 0xC9);
    }
  }

  lemma Entries28(a: byte)
    requires 0x28 <= a < 0x2C
    ensures Mul(a, InverseTable[a]) == 1
  {
    if a < 0x2A { Pair28(a); } else { Pair2A(a); }
  }

  lemma Pair28(a: byte)
    requires 0x28 <= a < 0x2A
    ensures Mul(a, InverseTable[a]) == 1
  {
    if a == 0x28 {
      PeasantBvStep(0xC7, 0x01, 0); PeasantBvStep(0xEE, 0x03, 1); PeasantBvStep(0x77, 0x06, 2); PeasantBvStep(0xB6, 0x0C, 3); PeasantBvStep(0x5B, 0x18, 4); PeasantBvStep(0xA0, 0x30, 5); PeasantBvStep(0x50, 0x60, 6); PeasantBvStep(0x28, 0xC1, 7);
      Entry(a, 0x28, 0xC1);
    } else {
      PeasantBvStep(0x47, 0x00, 0); PeasantBvStep(0xAE, 0x00, 1); PeasantBvStep(0x57, 0x00, 2); PeasantBvStep(0xA6, 0x00, 3); PeasantBvStep(0x53, 0x01, 4); PeasantBvStep(0xA4, 0x02, 5); PeasantBvStep(0x52, 0x05, 6); PeasantBvStep(0x29, 0x0A, 7);
      Entry(a, 0x29, 0x0A);
    }
  }

  lemma Pair2A(a: byte)
    requires 0x2A <= a < 0x2C
    ensures Mul(a, InverseTable[a]) == 1
  {
    if a == 0x2A {
      PeasantBvStep(0xDC, 0x01, 0); PeasantBvStep(0x6E, 0x02, 1); PeasantBvStep(0x37, 0x04, 2); PeasantBvStep(0x96, 0x09, 3); PeasantBvStep(0x4B, 0x13, 4); PeasantBvStep(0xA8, 0x26, 5); PeasantBvStep(0x54, 0x4C, 6); PeasantBvStep(0x2A, 0x98, 7);
      Entry(a, 0x2A, 0x98);
    } else {
      PeasantBvStep(0x5C, 0x00, 0); PeasantBvStep(0x2E, 0x00, 1); PeasantBvStep(0x17, 0x00, 2); PeasantBvStep(0x86, 0x01, 3); PeasantBvStep(0x43, 0x02, 4); PeasantBvStep(0xAC, 0x05, 5); PeasantBvStep(0x56, 0x0A, 6); PeasantBvStep(0x2B, 0x15, 7);
      Entry(a, 0x2B, 0x15);
    }
  }

  lemma Entries2C(a: byte)
    requires 0x2C <= a < 0x30
    ensures Mul(a, InverseTable[a]) == 1
  {
    if a < 0x2E { Pair2C(a); } else { Pair2E(a); }
  }

  lemma Pair2C(a: byte)
    requires 0x2C <= a < 0x2E
    ensures Mul(a, InverseTable[a]) == 1
  {
    if a == 0x2C {
      PeasantBvStep(0xF1, 0x00, 0); PeasantBvStep(0xF5, 0x00, 1); PeasantBvStep(0xF7, 0x01, 2); PeasantBvStep(0xF6, 0x03, 3); PeasantBvStep(0x7B, 0x06, 4); PeasantBvStep(0xB0, 0x0C, 5); PeasantBvStep(0x58, 0x18, 6); PeasantBvStep(0x2C, 0x30, 7);
      Entry(a, 0x2C, 0x30);
    } else {
      PeasantBvStep(0x71, 0x00, 0); PeasantBvStep(0xB5, 0x01, 1); PeasantBvStep(0xD7, 0x02, 2); PeasantBvStep(0xE6, 0x04, 3); PeasantBvStep(0x73, 0x08, 4); PeasantBvStep(0xB4, 0x11, 5); PeasantBvStep(0x5A, 0x22, 6); PeasantBvStep(0x2D, 0x44, 7);
      Entry(a, 0x2D, 0x44);
    }
  }

  lemma Pair2E(a: byte)
    requires 0x2E <= a < 0x30
    ensures Mul(a, InverseTable[a]) == 1
  {
    if a == 0x2E {
      PeasantBvStep(0xEA, 0x01, 0); PeasantBvStep(0x75, 0x02, 1); PeasantBvStep(0xB7, 0x05, 2); PeasantBvStep(0xD6, 0x0A, 3); PeasantBvStep(0x6B, 0x14, 4); PeasantBvStep(0xB8, 0x28, 5); PeasantBvStep(0x5C, 0x51, 6); PeasantBvStep(0x2E, 0xA2, 7);
      Entry(a, 0x2E, 0xA2);
    } else {
      PeasantBvStep(0x6A, 0x01, 0); PeasantBvStep(0x35, 0x03, 1); PeasantBvStep(0x97, 0x06, 2); PeasantBvStep(0xC6, 0x0C, 3); PeasantBvStep(0x63, 0x18, 4); PeasantBvStep(0xBC, 0x30, 5); PeasantBvStep(0x5E, 0x61, 6); PeasantBvStep(0x2F, 0xC2, 7);
      Entry(a, 0x2F, 0xC2);
    }
  }

  lemma Entries30(a: byte)
    requires 0x30 <= a < 0x34
    ensures Mul(a, InverseTable[a]) == 1
  {
    if a < 0x32 { Pair30(a); } else { Pair32(a); }
  }

  lemma Pair30(a: byte)
    requires 0x30 <= a < 0x32
    ensures Mul(a, InverseTable[a]) == 1
  {
    if a == 0x30 {
      PeasantBvStep(0x73, 0x00, 0); PeasantBvStep(0xB4, 0x00, 1); PeasantBvStep(0x5A, 0x01, 2); PeasantBvStep(0x2D, 0x02, 3); PeasantBvStep(0x9B, 0x05, 4); PeasantBvStep(0xC0, 0x0B, 5); PeasantBvStep(0x60, 0x16, 6); PeasantBvStep(0x30, 0x2C, 7);
      Entry(a, 0x30, 0x2C);
    } else {
      PeasantBvStep(0xF3, 0x00, 0); PeasantBvStep(0xF4, 0x01, 1); PeasantBvStep(0x7A, 0x02, 2); PeasantBvStep(0x3D, 0x04, 3); PeasantBvStep(0x93, 0x08, 4); PeasantBvStep(0xC4, 0x11, 5); PeasantBvStep(0x62, 0x22, 6); PeasantBvStep(0x31, 0x45, 7);
      Entry(a, 0x31, 0x45);
    }
  }

  lemma Pair32(a: byte)
    requires 0x32 <= a < 0x34
    ensures Mul(a, InverseTable[a]) == 1
  {
    if a == 0x32 {
      PeasantBvStep(0x68, 0x01, 0); PeasantBvStep(0x34, 0x02, 1); PeasantBvStep(0x1A, 0x04, 2); PeasantBvStep(0x0D, 0x09, 3); PeasantBvStep(0x8B, 0x12, 4); PeasantBvStep(0xC8, 0x24, 5); PeasantBvStep(0x64, 0x49, 6); PeasantBvStep(0x32, 0x92, 7);
      Entry(a, 0x32, 0x92);
    } else {
      PeasantBvStep(0xE8, 0x00, 0); PeasantBvStep(0x74, 0x01, 1); PeasantBvStep(0x3A, 0x03, 2); PeasantBvStep(0x1D, 0x06, 3); PeasantBvStep(0x83, 0x0D, 4); PeasantBvStep(0xCC, 0x1B, 5); PeasantBvStep(0x66, 0x36, 6); PeasantBvStep(0x33, 0x6C, 7);
      Entry(a, 0x33, 0x6C);
    }
  }

  lemma Entries34(a: byte)
    requires 0x34 <= a < 0x38
    ensures Mul(a, InverseTable[a]) == 1
  {
    if a < 0x36 { Pair34(a); } else { Pair36(a); }
  }

  lemma Pair34(a: byte)
    requires 0x34 <= a < 0x36
    ensures Mul(a, InverseTable[a]) == 1
  {
    if a == 0x34 {
      PeasantBvStep(0x45, 0x01, 0); PeasantBvStep(0xAF, 0x03, 1); PeasantBvStep(0xDA, 0x07, 2); PeasantBvStep(0x6D, 0x0F, 3); PeasantBvStep(0xBB, 0x1E, 4); PeasantBvStep(0xD0, 0x3C, 5); PeasantBvStep(0x68, 0x79, 6); PeasantBvStep(0x34, 0xF3, 7);
      Entry(a, 0x34, 0xF3);
    } else {
      PeasantBvStep(0xC5, 0x00, 0); PeasantBvStep(0xEF, 0x00, 1); PeasantBvStep(0xFA, 0x01, 2); PeasantBvStep(0x7D, 0x03, 3); PeasantBvStep(0xB3, 0x07, 4); PeasantBvStep(0xD4, 0x0E, 5); PeasantBvStep(0x6A, 0x1C, 6); PeasantBvStep(0x35, 0x39, 7);
      Entry(a, 0x35, 0x39);
    }
  }

  lemma Pair36(a: byte)
    requires 0x36 <= a < 0x38
    ensures Mul(a, InverseTable[a]) == 1
  {
    if a == 0x36 {
      PeasantBvStep(0x5E, 0x00, 0); PeasantBvStep(0x2F, 0x01, 1); PeasantBvStep(0x9A, 0x03, 2); PeasantBvStep(0x4D, 0x06, 3); PeasantBvStep(0xAB, 0x0C, 4); PeasantBvStep(0xD8, 0x19, 5); PeasantBvStep(0x6C, 0x33, 6); PeasantBvStep(0x36, 0x66, 7);
      Entry(a, 0x36, 0x66);
    } else {
      PeasantBvStep(0xDE, 0x00, 0); PeasantBvStep(0x6F, 0x01, 1); PeasantBvStep(0xBA, 0x02, 2); PeasantBvStep(0x5D, 0x04, 3); PeasantBvStep(0xA3, 0x08, 4); PeasantBvStep(0xDC, 0x10, 5); PeasantBvStep(0x6E, 0x21, 6); PeasantBvStep(0x37, 0x42, 7);
      Entry(a, 0x37, 0x42);
    }
  }

  lemma Entries38(a: byte)
    requires 0x38 <= a < 0x3C
    ensures Mul(a, InverseTable[a]) == 1
  {
    if a < 0x3A { Pair38(a); } else { Pair3A(a); }
  }

  lemma Pair38(a: byte)
    requires 0x38 <= a < 0x3A
    ensures Mul(a, InverseTable[a]) == 1
  {
    if a == 0x38 {
      PeasantBvStep(0x1F, 0x01, 0); PeasantBvStep(0x82, 0x03, 1); PeasantBvStep(0x41, 0x07, 2); PeasantBvStep(0xAD, 0x0F, 3); PeasantBvStep(0xDB, 0x1E, 4); PeasantBvStep(0xE0, 0x3C, 5); PeasantBvStep(0x70, 0x79, 6); PeasantBvStep(0x38, 0xF2, 7);
      Entry(a, 0x38, 0xF2);
    } else {
      PeasantBvStep(0x9F, 0x00, 0); PeasantBvStep(0xC2, 0x00, 1); PeasantBvStep(0x61, 0x01, 2); PeasantBvStep(0xBD, 0x03, 3); PeasantBvStep(0xD3, 0x06, 4); PeasantBvStep(0xE4, 0x0D, 5); PeasantBvStep(0x72, 0x1A, 6); PeasantBvStep(0x39, 0x35, 7);
      Entry(a, 0x39, 0x35);
    }
  }

  lemma Pair3A(a: byte)
    requires 0x3A <= a < 0x3C
    ensures Mul(a, InverseTable[a]) == 1
  {
    if a == 0x3A {
      PeasantBvStep(0x04, 0x00, 0); PeasantBvStep(0x02, 0x00, 1); PeasantBvStep(0x01, 0x01, 2); PeasantBvStep(0x8D, 0x02, 3); PeasantBvStep(0xCB, 0x04, 4); PeasantBvStep(0xE8, 0x08, 5); PeasantBvStep(0x74, 0x10, 6); PeasantBvStep(0x3A, 0x20, 7);
      Entry(a, 0x3A, 0x20);
    } else {
      PeasantBvStep(0x84, 0x00, 0); PeasantBvStep(0x42, 0x01, 1); PeasantBvStep(0x21, 0x03, 2); PeasantBvStep(0x9D, 0x06, 3); PeasantBvStep(0xC3, 0x0D, 4); PeasantBvStep(0xEC, 0x1B, 5); PeasantBvStep(0x76, 0x37, 6); PeasantBvStep(0x3B, 0x6F, 7);
      Entry(a, 0x3B, 0x6F);
    }
  }

  lemma Entries3C(a: byte)
    requires 0x3C <= a < 0x40
    ensures Mul(a, InverseTable[a]) == 1
  {
    if a < 0x3E { Pair3C(a); } else { Pair3E(a); }
  }

  lemma Pair3C(a: byte)
    requires 0x3C <= a < 0x3E
    ensures Mul(a, InverseTable[a]) == 1
  {
    if a == 0x3C {
      PeasantBvStep(0x29, 0x00, 0); PeasantBvStep(0x99, 0x01, 1); PeasantBvStep(0xC1, 0x03, 2); PeasantBvStep(0xED, 0x07, 3); PeasantBvStep(0xFB, 0x0E, 4); PeasantBvStep(0xF0, 0x1D, 5); PeasantBvStep(0x78, 0x3B, 6); PeasantBvStep(0x3C, 0x77, 7);
      Entry(a, 0x3C, 0x77);
    } else {
      PeasantBvStep(0xA9, 0x01, 0); PeasantBvStep(0xD9, 0x02, 1); PeasantBvStep(0xE1, 0x05, 2); PeasantBvStep(0xFD, 0x0B, 3); PeasantBvStep(0xF3, 0x17, 4); PeasantBvStep(0xF4, 0x2E, 5); PeasantBvStep(0x7A, 0x5D, 6); PeasantBvStep(0x3D, 0xBB, 7);
      Entry(a, 0x3D, 0xBB);
    }
  }

  lemma Pair3E(a: byte)
    requires 0x3E <= a < 0x40
    ensures Mul(a, InverseTable[a]) == 1
  {
    if a == 0x3E {
      PeasantBvStep(0x32, 0x00, 0); PeasantBvStep(0x19, 0x01, 1); PeasantBvStep(0x81, 0x02, 2); PeasantBvStep(0xCD, 0x05, 3); PeasantBvStep(0xEB, 0x0B, 4); PeasantBvStep(0xF8, 0x16, 5); PeasantBvStep(0x7C, 0x2C, 6); PeasantBvStep(0x3E, 0x59, 7);
      Entry(a, 0x3E, 0x59);
    } else {
      PeasantBvStep(0xB2, 0x00, 0); PeasantBvStep(0x59, 0x00, 1); PeasantBvStep(0xA1, 0x00, 2); PeasantBvStep(0xDD, 0x01, 3); PeasantBvStep(0xE3, 0x03, 4); PeasantBvStep(0xFC, 0x06, 5); PeasantBvStep(0x7E, 0x0C, 6); PeasantBvStep(0x3F, 0x19, 7);
      Entry(a, 0x3F, 0x19);
    }
  }

  lemma Entries40(a: byte)
    requires 0x40 <= a < 0x44
    ensures Mul(a, InverseTable[a]) == 1
  {
    if a < 0x42 { Pair40(a); } else { Pair42(a); }
  }

  lemma Pair40(a: byte)
    requires 0x40 <= a < 0x42
    ensures Mul(a, InverseTable[a]) == 1
  {
    if a == 0x40 {
      PeasantBvStep(0x4D, 0x00, 0); PeasantBvStep(0xAB, 0x00, 1); PeasantBvStep(0xD8, 0x00, 2); PeasantBvStep(0x6C, 0x01, 3); PeasantBvStep(0x36, 0x03, 4); PeasantBvStep(0x1B, 0x07, 5); PeasantBvStep(0x80, 0x0E, 6); PeasantBvStep(0x40, 0x1D, 7);
      Entry(a, 0x40, 0x1D);
    } else {
      PeasantBvStep(0xCD, 0x01, 0); PeasantBvStep(0xEB, 0x03, 1); PeasantBvStep(0xF8, 0x07, 2); PeasantBvStep(0x7C, 0x0F, 3); PeasantBvStep(0x3E, 0x1F, 4); PeasantBvStep(0x1F, 0x3F, 5); PeasantBvStep(0x82, 0x7F, 6); PeasantBvStep(0x41, 0xFE, 7);
      Entry(a, 0x41, 0xFE);
    }
  }

  lemma Pair42(a: byte)
    requires 0x42 <= a < 0x44
    ensures Mul(a, InverseTable[a]) == 1
  {
    if a == 0x42 {
      PeasantBvStep(0x56, 0x00, 0); PeasantBvStep(0x2B, 0x00, 1); PeasantBvStep(0x98, 0x01, 2); PeasantBvStep(0x4C, 0x03, 3); PeasantBvStep(0x26, 0x06, 4); PeasantBvStep(0x13, 0x0D, 5); PeasantBvStep(0x84, 0x1B, 6); PeasantBvStep(0x42, 0x37, 7);
      Entry(a, 0x42, 0x37);
    } else {
      PeasantBvStep(0xD6, 0x00, 0); PeasantBvStep(0x6B, 0x01, 1); PeasantBvStep(0xB8, 0x03, 2); PeasantBvStep(0x5C, 0x06, 3); PeasantBvStep(0x2E, 0x0C, 4); PeasantBvStep(0x17, 0x19, 5); PeasantBvStep(0x86, 0x33, 6); PeasantBvStep(0x43, 0x67, 7);
      Entry(a, 0x43, 0x67);
    }
  }

  lemma Entries44(a: byte)
    requires 0x44 <= a < 0x48
    ensures Mul(a, InverseTable[a]) == 1
  {
    if a < 0x46 { Pair44(a); } else { Pair46(a); }
  }

  lemma Pair44(a: byte)
    requires 0x44 <= a < 0x46
    ensures Mul(a, InverseTable[a]) == 1
  {
    if a == 0x44 {
      PeasantBvStep(0x7B, 0x00, 0); PeasantBvStep(0xB0, 0x00, 1); PeasantBvStep(0x58, 0x01, 2); PeasantBvStep(0x2C, 0x02, 3); PeasantBvStep(0x16, 0x05, 4); PeasantBvStep(0x0B, 0x0B, 5); PeasantBvStep(0x88, 0x16, 6); PeasantBvStep(0x44, 0x2D, 7);
      Entry(a, 0x44, 0x2D);
    } else {
      PeasantBvStep(0xFB, 0x00, 0); PeasantBvStep(0xF0, 0x00, 1); PeasantBvStep(0x78, 0x01, 2); PeasantBvStep(0x3C, 0x03, 3); PeasantBvStep(0x1E, 0x06, 4); PeasantBvStep(0x0F, 0x0C, 5); PeasantBvStep(0x8A, 0x18, 6); PeasantBvStep(0x45, 0x31, 7);
      Entry(a, 0x45, 0x31);
    }
  }

  lemma Pair46(a: byte)
    requires 0x46 <= a < 0x48
    ensures Mul(a, InverseTable[a]) == 1
  {
    if a == 0x46 {
      PeasantBvStep(0x60, 0x01, 0); PeasantBvStep(0x30, 0x03, 1); PeasantBvStep(0x18, 0x07, 2); PeasantBvStep(0x0C, 0x0F, 3); PeasantBvStep(0x06, 0x1E, 4); PeasantBvStep(0x03, 0x3D, 5); PeasantBvStep(0x8C, 0x7A, 6); PeasantBvStep(0x46, 0xF5, 7);
      Entry(a, 0x46, 0xF5);
    } else {
      PeasantBvStep(0xE0, 0x00, 0); PeasantBvStep(0x70, 0x01, 1); PeasantBvStep(0x38, 0x03, 2); PeasantBvStep(0x1C, 0x06, 3); PeasantBvStep(0x0E, 0x0D, 4); PeasantBvStep(0x07, 0x1A, 5); PeasantBvStep(0x8E, 0x34, 6); PeasantBvStep(0x47, 0x69, 7);
      Entry(a, 0x47, 0x69);
    }
  }

  lemma Entries48(a: byte)
    requires 0x48 <= a < 0x4C
    ensures Mul(a, InverseTable[a]) == 1
  {
    if a < 0x4A { Pair48(a); } else { Pair4A(a); }
  }

  lemma Pair48(a: byte)
    requires 0x48 <= a < 0x4A
    ensures Mul(a, InverseTable[a]) == 1
  {
    if a == 0x48 {
      PeasantBvStep(0x21, 0x01, 0); PeasantBvStep(0x9D, 0x02, 1); PeasantBvStep(0xC3, 0x05, 2); PeasantBvStep(0xEC, 0x0A, 3); PeasantBvStep(0x76, 0x14, 4); PeasantBvStep(0x3B, 0x29, 5); PeasantBvStep(0x90, 0x53, 6); PeasantBvStep(0x48, 0xA7, 7);
      Entry(a, 0x48, 0xA7);
    } else {
      PeasantBvStep(0xA1, 0x00, 0); PeasantBvStep(0xDD, 0x01, 1); PeasantBvStep(0xE3, 0x03, 2); PeasantBvStep(0xFC, 0x06, 3); PeasantBvStep(0x7E, 0x0C, 4); PeasantBvStep(0x3F, 0x19, 5); PeasantBvStep(0x92, 0x32, 6); PeasantBvStep(0x49, 0x64, 7);
      Entry(a, 0x49, 0x64);
    }
  }

  lemma Pair4A(a: byte)
    requires 0x4A <= a < 0x4C
    ensures Mul(a, InverseTable[a]) == 1
  {
    if a == 0x4A {
      PeasantBvStep(0x3A, 0x01, 0); PeasantBvStep(0x1D, 0x02, 1); PeasantBvStep(0x83, 0x05, 2); PeasantBvStep(0xCC, 0x0A, 3); PeasantBvStep(0x66, 0x15, 4); PeasantBvStep(0x33, 0x2A, 5); PeasantBvStep(0x94, 0x55, 6); PeasantBvStep(0x4A, 0xAB, 7);
      Entry(a, 0x4A, 0xAB);
    } else {
      PeasantBvStep(0xBA, 0x00, 0); PeasantBvStep(0x5D, 0x00, 1); PeasantBvStep(0xA3, 0x00, 2); PeasantBvStep(0xDC, 0x01, 3); PeasantBvStep(0x6E, 0x02, 4); PeasantBvStep(0x37, 0x04, 5); PeasantBvStep(0x96, 0x09, 6); PeasantBvStep(0x4B, 0x13, 7);
      Entry(a, 0x4B, 0x13);
    }
  }

  lemma Entries4C(a: byte)
    requires 0x4C <= a < 0x50
    ensures Mul(a, InverseTable[a]) == 1
  {
    if a < 0x4E { Pair4C(a); } else { Pair4E(a); }
  }

  lemma Pair4C(a: byte)
    requires 0x4C <= a < 0x4E
    ensures Mul(a, InverseTable[a]) == 1
  {
    if a == 0x4C {
      PeasantBvStep(0x17, 0x00, 0); PeasantBvStep(0x86, 0x01, 1); PeasantBvStep(0x43, 0x02, 2); PeasantBvStep(0xAC, 0x05, 3); PeasantBvStep(0x56, 0x0A, 4); PeasantBvStep(0x2B, 0x15, 5); PeasantBvStep(0x98, 0x2A, 6); PeasantBvStep(0x4C, 0x54, 7);
      Entry(a, 0x4C, 0x54);
    } else {
      PeasantBvStep(0x97, 0x00, 0); PeasantBvStep(0xC6, 0x00, 1); PeasantBvStep(0x63, 0x01, 2); PeasantBvStep(0xBC, 0x02, 3); PeasantBvStep(0x5E, 0x04, 4); PeasantBvStep(0x2F, 0x09, 5); PeasantBvStep(0x9A, 0x12, 6); PeasantBvStep(0x4D, 0x25, 7);
      Entry(a, 0x4D, 0x25);
    }
  }

  lemma Pair4E(a: byte)
    requires 0x4E <= a < 0x50
    ensures Mul(a, InverseTable[a]) == 1
  {
    if a == 0x4E {
      PeasantBvStep(0x0C, 0x01, 0); PeasantBvStep(0x06, 0x03, 1); PeasantBvStep(0x03, 0x07, 2); PeasantBvStep(0x8C, 0x0E, 3); PeasantBvStep(0x46, 0x1D, 4); PeasantBvStep(0x23, 0x3A, 5); PeasantBvStep(0x9C, 0x74, 6); PeasantBvStep(0x4E, 0xE9, 7);
      Entry(a, 0x4E, 0xE9);
    } else {
      PeasantBvStep(0x8C, 0x00, 0); PeasantBvStep(0x46, 0x00, 1); PeasantBvStep(0x23, 0x00, 2); PeasantBvStep(0x9C, 0x00, 3); PeasantBvStep(0x4E, 0x01, 4); PeasantBvStep(0x27, 0x02, 5); PeasantBvStep(0x9E, 0x04, 6); PeasantBvStep(0x4F, 0x09, 7);
      Entry(a, 0x4F, 0x09);
    }
  }

  lemma Entries50(a: byte)
    requires 0x50 <= a < 0x54
    ensures Mul(a, InverseTable[a]) == 1
  {
    if a < 0x52 { Pair50(a); } else { Pair52(a); }
  }

  lemma Pair50(a: byte)
    requires 0x50 <= a < 0x52
    ensures Mul(a, InverseTable[a]) == 1
  {
    if a == 0x50 {
      PeasantBvStep(0x95, 0x01, 0); PeasantBvStep(0xC7, 0x03, 1); PeasantBvStep(0xEE, 0x07, 2); PeasantBvStep(0x77, 0x0E, 3); PeasantBvStep(0xB6, 0x1D, 4); PeasantBvStep(0x5B, 0x3B, 5); PeasantBvStep(0xA0, 0x76, 6); PeasantBvStep(0x50, 0xED, 7);
      Entry(a, 0x50, 0xED);
    } else {
      PeasantBvStep(0x15, 0x00, 0); PeasantBvStep(0x87, 0x01, 1); PeasantBvStep(0xCE, 0x02, 2); PeasantBvStep(0x67, 0x05, 3); PeasantBvStep(0xBE, 0x0B, 4); PeasantBvStep(0x5F, 0x17, 5); PeasantBvStep(0xA2, 0x2E, 6); PeasantBvStep(0x51, 0x5C, 7);
      Entry(a, 0x51, 0x5C);
    }
  }

  lemma Pair52(a: byte)
    requires 0x52 <= a < 0x54
    ensures Mul(a, InverseTable[a]) == 1
  {
    if a == 0x52 {
      PeasantBvStep(0x8E, 0x00, 0); PeasantBvStep(0x47, 0x00, 1); PeasantBvStep(0xAE, 0x00, 2); PeasantBvStep(0x57, 0x00, 3); PeasantBvStep(0xA6, 0x00, 4); PeasantBvStep(0x53, 0x01, 5); PeasantBvStep(0xA4, 0x02, 6); PeasantBvStep(0x52, 0x05, 7);
      Entry(a, 0x52, 0x05);
    } else {
      PeasantBvStep(0x0E, 0x01, 0); PeasantBvStep(0x07, 0x03, 1); PeasantBvStep(0x8E, 0x06, 2); PeasantBvStep(0x47, 0x0C, 3); PeasantBvStep(0xAE, 0x19, 4); PeasantBvStep(0x57, 0x32, 5); PeasantBvStep(0xA6, 0x65, 6); PeasantBvStep(0x53, 0xCA, 7);
      Entry(a, 0x53, 0xCA);
    }
  }

  lemma Entries54(a: byte)
    requires 0x54 <= a < 0x58
    ensures Mul(a, InverseTable[a]) == 1
  {
    if a < 0x56 { Pair54(a); } else { Pair56(a); }
  }

  lemma Pair54(a: byte)
    requires 0x54 <= a < 0x56
    ensures Mul(a, InverseTable[a]) == 1
  {
    if a == 0x54 {
      PeasantBvStep(0xA3, 0x00, 0); PeasantBvStep(0xDC, 0x01, 1); PeasantBvStep(0x6E, 0x02, 2); PeasantBvStep(0x37, 0x04, 3); PeasantBvStep(0x96, 0x09, 4); PeasantBvStep(0x4B, 0x13, 5); PeasantBvStep(0xA8, 0x26, 6); PeasantBvStep(0x54, 0x4C, 7);
      Entry(a, 0x54, 0x4C);
    } else {
      PeasantBvStep(0x23, 0x00, 0); PeasantBvStep(0x9C, 0x00, 1); PeasantBvStep(0x4E, 0x01, 2); PeasantBvStep(0x27, 0x02, 3); PeasantBvStep(0x9E, 0x04, 4); PeasantBvStep(0x4F, 0x09, 5); PeasantBvStep(0xAA, 0x12, 6); PeasantBvStep(0x55, 0x24, 7);
      Entry(a, 0x55, 0x24);
    }
  }

  lemma Pair56(a: byte)
    requires 0x56 <= a < 0x58
    ensures Mul(a, InverseTable[a]) == 1
  {
    if a == 0x56 {
      PeasantBvStep(0xB8, 0x01, 0); PeasantBvStep(0x5C, 0x02, 1); PeasantBvStep(0x2E, 0x04, 2); PeasantBvStep(0x17, 0x08, 3); PeasantBvStep(0x86, 0x10, 4); PeasantBvStep(0x43, 0x21, 5); PeasantBvStep(0xAC, 0x43, 6); PeasantBvStep(0x56, 0x87, 7);
      Entry(a, 0x56, 0x87);
    } else {
      PeasantBvStep(0x38, 0x01, 0); PeasantBvStep(0x1C, 0x02, 1); PeasantBvStep(0x0E, 0x05, 2); PeasantBvStep(0x07, 0x0B, 3); PeasantBvStep(0x8E, 0x17, 4); PeasantBvStep(0x47, 0x2F, 5); PeasantBvStep(0xAE, 0x5F, 6); PeasantBvStep(0x57, 0xBF, 7);
      Entry(a, 0x57, 0xBF);
    }
  }

  lemma Entries58(a: byte)
    requires 0x58 <= a < 0x5C
    ensures Mul(a, InverseTable[a]) == 1
  {
    if a < 0x5A { Pair58(a); } else { Pair5A(a); }
  }

  lemma Pair58(a: byte)
    requires 0x58 <= a < 0x5A
    ensures Mul(a, InverseTable[a]) == 1
  {
    if a == 0x58 {
      PeasantBvStep(0xF9, 0x00, 0); PeasantBvStep(0xF1, 0x00, 1); PeasantBvStep(0xF5, 0x00, 2); PeasantBvStep(0xF7, 0x01, 3); PeasantBvStep(0xF6, 0x03, 4); PeasantBvStep(0x7B, 0x06, 5); PeasantBvStep(0xB0, 0x0C, 6); PeasantBvStep(0x58, 0x18, 7);
      Entry(a, 0x58, 0x18);
    } else {
      PeasantBvStep(0x79, 0x00, 0); PeasantBvStep(0xB1, 0x00, 1); PeasantBvStep(0xD5, 0x01, 2); PeasantBvStep(0xE7, 0x03, 3); PeasantBvStep(0xFE, 0x07, 4); PeasantBvStep(0x7F, 0x0F, 5); PeasantBvStep(0xB2, 0x1F, 6); PeasantBvStep(0x59, 0x3E, 7);
      Entry(a, 0x59, 0x3E);
    }
  }

  lemma Pair5A(a: byte)
    requires 0x5A <= a < 0x5C
    ensures Mul(a, InverseTable[a]) == 1
  {
    if a == 0x5A {
      PeasantBvStep(0xE2, 0x00, 0); PeasantBvStep(0x71, 0x00, 1); PeasantBvStep(0xB5, 0x01, 2); PeasantBvStep(0xD7, 0x02, 3); PeasantBvStep(0xE6, 0x04, 4); PeasantBvStep(0x73, 0x08, 5); PeasantBvStep(0xB4, 0x11, 6); PeasantBvStep(0x5A, 0x22, 7);
      Entry(a, 0x5A, 0x22);
    } else {
      PeasantBvStep(0x62, 0x01, 0); PeasantBvStep(0x31, 0x03, 1); PeasantBvStep(0x95, 0x07, 2); PeasantBvStep(0xC7, 0x0F, 3); PeasantBvStep(0xEE, 0x1E, 4); PeasantBvStep(0x77, 0x3C, 5); PeasantBvStep(0xB6, 0x78, 6); PeasantBvStep(0x5B, 0xF0, 7);
      Entry(a, 0x5B, 0xF0);
    }
  }

  lemma Entries5C(a: byte)
    requires 0x5C <= a < 0x60
    ensures Mul(a, InverseTable[a]) == 1
  {
    if a < 0x5E { Pair5C(a); } else { Pair5E(a); }
  }

  lemma Pair5C(a: byte)
    requires 0x5C <= a < 0x5E
    ensures Mul(a, InverseTable[a]) == 1
  {
    if a == 0x5C {
      PeasantBvStep(0xCF, 0x00, 0); PeasantBvStep(0xEA, 0x01, 1); PeasantBvStep(0x75, 0x02, 2); PeasantBvStep(0xB7, 0x05, 3); PeasantBvStep(0xD6, 0x0A, 4); PeasantBvStep(0x6B, 0x14, 5); PeasantBvStep(0xB8, 0x28, 6); PeasantBvStep(0x5C, 0x51, 7);
      Entry(a, 0x5C, 0x51);
    } else {
      PeasantBvStep(0x4F, 0x01, 0); PeasantBvStep(0xAA, 0x03, 1); PeasantBvStep(0x55, 0x07, 2); PeasantBvStep(0xA7, 0x0E, 3); PeasantBvStep(0xDE, 0x1D, 4); PeasantBvStep(0x6F, 0x3B, 5); PeasantBvStep(0xBA, 0x76, 6); PeasantBvStep(0x5D, 0xEC, 7);
      Entry(a, 0x5D, 0xEC);
    }
  }

  lemma Pair5E(a: byte)
    requires 0x5E <= a < 0x60
    ensures Mul(a, InverseTable[a]) == 1
  {
    if a == 0x5E {
      PeasantBvStep(0xD4, 0x00, 0); PeasantBvStep(0x6A, 0x01, 1); PeasantBvStep(0x35, 0x03, 2); PeasantBvStep(0x97, 0x06, 3); PeasantBvStep(0xC6, 0x0C, 4); PeasantBvStep(0x63, 0x18, 5); PeasantBvStep(0xBC, 0x30, 6); PeasantBvStep(0x5E, 0x61, 7);
      Entry(a, 0x5E, 0x61);
    } else {
      PeasantBvStep(0x54, 0x00, 0); PeasantBvStep(0x2A, 0x00, 1); PeasantBvStep(0x15, 0x00, 2); PeasantBvStep(0x87, 0x01, 3); PeasantBvStep(0xCE, 0x02, 4); PeasantBvStep(0x67, 0x05, 5); PeasantBvStep(0xBE, 0x0B, 6); PeasantBvStep(0x5F, 0x17, 7);
      Entry(a, 0x5F, 0x17);
    }
  }

  lemma Entries60(a: byte)
    requires 0x60 <= a < 0x64
    ensures Mul(a, InverseTable[a]) == 1
  {
    if a < 0x62 { Pair60(a); } else { Pair62(a); }
  }

  lemma Pair60(a: byte)
    requires 0x60 <= a < 0x62
    ensures Mul(a, InverseTable[a]) == 1
  {
    if a == 0x60 {
      PeasantBvStep(0xE6, 0x00, 0); PeasantBvStep(0x73, 0x00, 1); PeasantBvStep(0xB4, 0x00, 2); PeasantBvStep(0x5A, 0x01, 3); PeasantBvStep(0x2D, 0x02, 4); PeasantBvStep(0x9B, 0x05, 5); PeasantBvStep(0xC0, 0x0B, 6); PeasantBvStep(0x60, 0x16, 7);
      Entry(a, 0x60, 0x16);
    } else {
      PeasantBvStep(0x66, 0x00, 0); PeasantBvStep(0x33, 0x01, 1); PeasantBvStep(0x94, 0x02, 2); PeasantBvStep(0x4A, 0x05, 3); PeasantBvStep(0x25, 0x0B, 4); PeasantBvStep(0x9F, 0x17, 5); PeasantBvStep(0xC2, 0x2F, 6); PeasantBvStep(0x61, 0x5E, 7);
      Entry(a, 0x61, 0x5E);
    }
  }

  lemma Pair62(a: byte)
    requires 0x62 <= a < 0x64
    ensures Mul(a, InverseTable[a]) == 1
  {
    if a == 0x62 {
      PeasantBvStep(0xFD, 0x01, 0); PeasantBvStep(0xF3, 0x02, 1); PeasantBvStep(0xF4, 0x05, 2); PeasantBvStep(0x7A, 0x0A, 3); PeasantBvStep(0x3D, 0x15, 4); PeasantBvStep(0x93, 0x2B, 5); PeasantBvStep(0xC4, 0x57, 6); PeasantBvStep(0x62, 0xAF, 7);
      Entry(a, 0x62, 0xAF);
    } else {
      PeasantBvStep(0x7D, 0x01, 0); PeasantBvStep(0xB3, 0x03, 1); PeasantBvStep(0xD4, 0x06, 2); PeasantBvStep(0x6A, 0x0D, 3); PeasantBvStep(0x35, 0x1A, 4); PeasantBvStep(0x97, 0x34, 5); PeasantBvStep(0xC6, 0x69, 6); PeasantBvStep(0x63, 0xD3, 7);
      Entry(a, 0x63, 0xD3);
    }
  }

  lemma Entries64(a: byte)
    requires 0x64 <= a < 0x68
    ensures Mul(a, InverseTable[a]) == 1
  {
    if a < 0x66 { Pair64(a); } else { Pair66(a); }
  }

  lemma Pair64(a: byte)
    requires 0x64 <= a < 0x66
    ensures Mul(a, InverseTable[a]) == 1
  {
    if a == 0x64 {
      PeasantBvStep(0xD0, 0x00, 0); PeasantBvStep(0x68, 0x01, 1); PeasantBvStep(0x34, 0x02, 2); PeasantBvStep(0x1A, 0x04, 3); PeasantBvStep(0x0D, 0x09, 4); PeasantBvStep(0x8B, 0x12, 5); PeasantBvStep(0xC8, 0x24, 6); PeasantBvStep(0x64, 0x49, 7);
      Entry(a, 0x64, 0x49);
    } else {
      PeasantBvStep(0x50, 0x01, 0); PeasantBvStep(0x28, 0x02, 1); PeasantBvStep(0x14, 0x05, 2); PeasantBvStep(0x0A, 0x0A, 3); PeasantBvStep(0x05, 0x14, 4); PeasantBvStep(0x8F, 0x29, 5); PeasantBvStep(0xCA, 0x53, 6); PeasantBvStep(0x65, 0xA6, 7);
      Entry(a, 0x65, 0xA6);
    }
  }

  lemma Pair66(a: byte)
    requires 0x66 <= a < 0x68
    ensures Mul(a, InverseTable[a]) == 1
  {
    if a == 0x66 {
      PeasantBvStep(0xCB, 0x00, 0); PeasantBvStep(0xE8, 0x00, 1); PeasantBvStep(0x74, 0x01, 2); PeasantBvStep(0x3A, 0x03, 3); PeasantBvStep(0x1D, 0x06, 4); PeasantBvStep(0x83, 0x0D, 5); PeasantBvStep(0xCC, 0x1B, 6); PeasantBvStep(0x66, 0x36, 7);
      Entry(a, 0x66, 0x36);
    } else {
      PeasantBvStep(0x4B, 0x00, 0); PeasantBvStep(0xA8, 0x01, 1); PeasantBvStep(0x54, 0x02, 2); PeasantBvStep(0x2A, 0x04, 3); PeasantBvStep(0x15, 0x08, 4); PeasantBvStep(0x87, 0x10, 5); PeasantBvStep(0xCE, 0x21, 6); PeasantBvStep(0x67, 0x43, 7);
      Entry(a, 0x67, 0x43);
    }
  }

  lemma Entries68(a: byte)
    requires 0x68 <= a < 0x6C
    ensures Mul(a, InverseTable[a]) == 1
  {
    if a < 0x6A { Pair68(a); } else { Pair6A(a); }
  }

  lemma Pair68(a: byte)
    requires 0x68 <= a < 0x6A
    ensures Mul(a, InverseTable[a]) == 1
  {
    if a == 0x68 {
      PeasantBvStep(0x8A, 0x01, 0); PeasantBvStep(0x45, 0x03, 1); PeasantBvStep(0xAF, 0x07, 2); PeasantBvStep(0xDA, 0x0F, 3); PeasantBvStep(0x6D, 0x1E, 4); PeasantBvStep(0xBB, 0x3D, 5); PeasantBvStep(0xD0, 0x7A, 6); PeasantBvStep(0x68, 0xF4, 7);
      Entry(a, 0x68, 0xF4);
    } else {
      PeasantBvStep(0x0A, 0x00, 0); PeasantBvStep(0x05, 0x01, 1); PeasantBvStep(0x8F, 0x02, 2); PeasantBvStep(0xCA, 0x04, 3); PeasantBvStep(0x65, 0x08, 4); PeasantBvStep(0xBF, 0x11, 5); PeasantBvStep(0xD2, 0x23, 6); PeasantBvStep(0x69, 0x47, 7);
      Entry(a, 0x69, 0x47);
    }
  }

  lemma Pair6A(a: byte)
    requires 0x6A <= a < 0x6C
    ensures Mul(a, InverseTable[a]) == 1
  {
    if a == 0x6A {
      PeasantBvStep(0x91, 0x01, 0); PeasantBvStep(0xC5, 0x02, 1); PeasantBvStep(0xEF, 0x04, 2); PeasantBvStep(0xFA, 0x09, 3); PeasantBvStep(0x7D, 0x12, 4); PeasantBvStep(0xB3, 0x24, 5); PeasantBvStep(0xD4, 0x48, 6); PeasantBvStep(0x6A, 0x91, 7);
      Entry(a, 0x6A, 0x91);
    } else {
      PeasantBvStep(0x11, 0x01, 0); PeasantBvStep(0x85, 0x03, 1); PeasantBvStep(0xCF, 0x06, 2); PeasantBvStep(0xEA, 0x0D, 3); PeasantBvStep(0x75, 0x1B, 4); PeasantBvStep(0xB7, 0x37, 5); PeasantBvStep(0xD6, 0x6F, 6); PeasantBvStep(0x6B, 0xDF, 7);
      Entry(a, 0x6B, 0xDF);
    }
  }

  lemma Entries6C(a: byte)
    requires 0x6C <= a < 0x70
    ensures Mul(a, InverseTable[a]) == 1
  {
    if a < 0x6E { Pair6C(a); } else { Pair6E(a); }
  }

  lemma Pair6C(a: byte)
    requires 0x6C <= a < 0x6E
    ensures Mul(a, InverseTable[a]) == 1
  {
    if a == 0x6C {
      PeasantBvStep(0xBC, 0x00, 0); PeasantBvStep(0x5E, 0x00, 1); PeasantBvStep(0x2F, 0x01, 2); PeasantBvStep(0x9A, 0x03, 3); PeasantBvStep(0x4D, 0x06, 4); PeasantBvStep(0xAB, 0x0C, 5); PeasantBvStep(0xD8, 0x19, 6); PeasantBvStep(0x6C, 0x33, 7);
      Entry(a, 0x6C, 0x33);
    } else {
      PeasantBvStep(0x3C, 0x01, 0); PeasantBvStep(0x1E, 0x02, 1); PeasantBvStep(0x0F, 0x04, 2); PeasantBvStep(0x8A, 0x09, 3); PeasantBvStep(0x45, 0x12, 4); PeasantBvStep(0xAF, 0x24, 5); PeasantBvStep(0xDA, 0x49, 6); PeasantBvStep(0x6D, 0x93, 7);
      Entry(a, 0x6D, 0x93);
    }
  }

  lemma Pair6E(a: byte)
    requires 0x6E <= a < 0x70
    ensures Mul(a, InverseTable[a]) == 1
  {
    if a == 0x6E {
      PeasantBvStep(0xA7, 0x00, 0); PeasantBvStep(0xDE, 0x00, 1); PeasantBvStep(0x6F, 0x01, 2); PeasantBvStep(0xBA, 0x02, 3); PeasantBvStep(0x5D, 0x04, 4); PeasantBvStep(0xA3, 0x08, 5); PeasantBvStep(0xDC, 0x10, 6); PeasantBvStep(0x6E, 0x21, 7);
      Entry(a, 0x6E, 0x21);
    } else {
      PeasantBvStep(0x27, 0x00, 0); PeasantBvStep(0x9E, 0x00, 1); PeasantBvStep(0x4F, 0x01, 2); PeasantBvStep(0xAA, 0x03, 3); PeasantBvStep(0x55, 0x07, 4); PeasantBvStep(0xA7, 0x0E, 5); PeasantBvStep(0xDE, 0x1D, 6); PeasantBvStep(0x6F, 0x3B, 7);
      Entry(a, 0x6F, 0x3B);
    }
  }

  lemma Entries70(a: byte)
    requires 0x70 <= a < 0x74
    ensures Mul(a, InverseTable[a]) == 1
  {
    if a < 0x72 { Pair70(a); } else { Pair72(a); }
  }

  lemma Pair70(a: byte)
    requires 0x70 <= a < 0x72
    ensures Mul(a, InverseTable[a]) == 1
  {
    if a == 0x70 {
      PeasantBvStep(0x3E, 0x00, 0); PeasantBvStep(0x1F, 0x01, 1); PeasantBvStep(0x82, 0x03, 2); PeasantBvStep(0x41, 0x07, 3); PeasantBvStep(0xAD, 0x0F, 4); PeasantBvStep(0xDB, 0x1E, 5); PeasantBvStep(0xE0, 0x3C, 6); PeasantBvStep(0x70, 0x79, 7);
      Entry(a, 0x70, 0x79);
    } else {
      PeasantBvStep(0xBE, 0x01, 0); PeasantBvStep(0x5F, 0x02, 1); PeasantBvStep(0xA2, 0x05, 2); PeasantBvStep(0x51, 0x0B, 3); PeasantBvStep(0xA5, 0x16, 4); PeasantBvStep(0xDF, 0x2D, 5); PeasantBvStep(0xE2, 0x5B, 6); PeasantBvStep(0x71, 0xB7, 7);
      Entry(a, 0x71, 0xB7);
    }
  }

  lemma Pair72(a: byte)
    requires 0x72 <= a < 0x74
    ensures Mul(a, InverseTable[a]) == 1
  {
    if a == 0x72 {
      PeasantBvStep(0x25, 0x01, 0); PeasantBvStep(0x9F, 0x02, 1); PeasantBvStep(0xC2, 0x04, 2); PeasantBvStep(0x61, 0x09, 3); PeasantBvStep(0xBD, 0x12, 4); PeasantBvStep(0xD3, 0x25, 5); PeasantBvStep(0xE4, 0x4B, 6); PeasantBvStep(0x72, 0x97, 7);
      Entry(a, 0x72, 0x97);
    } else {
      PeasantBvStep(0xA5, 0x01, 0); PeasantBvStep(0xDF, 0x02, 1); PeasantBvStep(0xE2, 0x04, 2); PeasantBvStep(0x71, 0x08, 3); PeasantBvStep(0xB5, 0x10, 4); PeasantBvStep(0xD7, 0x21, 5); PeasantBvStep(0xE6, 0x42, 6); PeasantBvStep(0x73, 0x85, 7);
      Entry(a, 0x73, 0x85);
    }
  }

  lemma Entries74(a: byte)
    requires 0x74 <= a < 0x78
    ensures Mul(a, InverseTable[a]) == 1
  {
    if a < 0x76 { Pair74(a); } else { Pair76(a); }
  }

  lemma Pair74(a: byte)
    requires 0x74 <= a < 0x76
    ensures Mul(a, InverseTable[a]) == 1
  {
    if a == 0x74 {
      PeasantBvStep(0x08, 0x00, 0); PeasantBvStep(0x04, 0x00, 1); PeasantBvStep(0x02, 0x00, 2); PeasantBvStep(0x01, 0x01, 3); PeasantBvStep(0x8D, 0x02, 4); PeasantBvStep(0xCB, 0x04, 5); PeasantBvStep(0xE8, 0x08, 6); PeasantBvStep(0x74, 0x10, 7);
      Entry(a, 0x74, 0x10);
    } else {
      PeasantBvStep(0x88, 0x01, 0); PeasantBvStep(0x44, 0x02, 1); PeasantBvStep(0x22, 0x05, 2); PeasantBvStep(0x11, 0x0B, 3); PeasantBvStep(0x85, 0x16, 4); PeasantBvStep(0xCF, 0x2D, 5); PeasantBvStep(0xEA, 0x5A, 6); PeasantBvStep(0x75, 0xB5, 7);
      Entry(a, 0x75, 0xB5);
    }
  }

  lemma Pair76(a: byte)
    requires 0x76 <= a < 0x78
    ensures Mul(a, InverseTable[a]) == 1
  {
    if a == 0x76 {
      PeasantBvStep(0x13, 0x01, 0); PeasantBvStep(0x84, 0x02, 1); PeasantBvStep(0x42, 0x05, 2); PeasantBvStep(0x21, 0x0B, 3); PeasantBvStep(0x9D, 0x17, 4); PeasantBvStep(0xC3, 0x2E, 5); PeasantBvStep(0xEC, 0x5D, 6); PeasantBvStep(0x76, 0xBA, 7);
      Entry(a, 0x76, 0xBA);
    } else {
      PeasantBvStep(0x93, 0x00, 0); PeasantBvStep(0xC4, 0x00, 1); PeasantBvStep(0x62, 0x01, 2); PeasantBvStep(0x31, 0x03, 3); PeasantBvStep(0x95, 0x07, 4); PeasantBvStep(0xC7, 0x0F, 5); PeasantBvStep(0xEE, 0x1E, 6); PeasantBvStep(0x77, 0x3C, 7);
      Entry(a, 0x77, 0x3C);
    }
  }

  lemma Entries78(a: byte)
    requires 0x78 <= a < 0x7C
    ensures Mul(a, InverseTable[a]) == 1
  {
    if a < 0x7A { Pair78(a); } else { Pair7A(a); }
  }

  lemma Pair78(a: byte)
    requires 0x78 <= a < 0x7A
    ensures Mul(a, InverseTable[a]) == 1
  {
    if a == 0x78 {
      PeasantBvStep(0x52, 0x01, 0); PeasantBvStep(0x29, 0x02, 1); PeasantBvStep(0x99, 0x05, 2); PeasantBvStep(0xC1, 0x0B, 3); PeasantBvStep(0xED, 0x16, 4); PeasantBvStep(0xFB, 0x2D, 5); PeasantBvStep(0xF0, 0x5B, 6); PeasantBvStep(0x78, 0xB6, 7);
      Entry(a, 0x78, 0xB6);
    } else {
      PeasantBvStep(0xD2, 0x00, 0); PeasantBvStep(0x69, 0x01, 1); PeasantBvStep(0xB9, 0x03, 2); PeasantBvStep(0xD1, 0x07, 3); PeasantBvStep(0xE5, 0x0E, 4); PeasantBvStep(0xFF, 0x1C, 5); PeasantBvStep(0xF2, 0x38, 6); PeasantBvStep(0x79, 0x70, 7);
      Entry(a, 0x79, 0x70);
    }
  }

  lemma Pair7A(a: byte)
    requires 0x7A <= a < 0x7C
    ensures Mul(a, InverseTable[a]) == 1
  {
    if a == 0x7A {
      PeasantBvStep(0x49, 0x01, 0); PeasantBvStep(0xA9, 0x03, 1); PeasantBvStep(0xD9, 0x06, 2); PeasantBvStep(0xE1, 0x0D, 3); PeasantBvStep(0xFD, 0x1A, 4); PeasantBvStep(0xF3, 0x34, 5); PeasantBvStep(0xF4, 0x68, 6); PeasantBvStep(0x7A, 0xD0, 7);
      Entry(a, 0x7A, 0xD0);
    } else {
      PeasantBvStep(0xC9, 0x00, 0); PeasantBvStep(0xE9, 0x00, 1); PeasantBvStep(0xF9, 0x00, 2); PeasantBvStep(0xF1, 0x00, 3); PeasantBvStep(0xF5, 0x00, 4); PeasantBvStep(0xF7, 0x01, 5); PeasantBvStep(0xF6, 0x03, 6); PeasantBvStep(0x7B, 0x06, 7);
      Entry(a, 0x7B, 0x06);
    }
  }

  lemma Entries7C(a: byte)
    requires 0x7C <= a < 0x80
    ensures Mul(a, InverseTable[a]) == 1
  {
    if a < 0x7E { Pair7C(a); } else { Pair7E(a); }
  }

  lemma Pair7C(a: byte)
    requires 0x7C <= a < 0x7E
    ensures Mul(a, InverseTable[a]) == 1
  {
    if a == 0x7C {
      PeasantBvStep(0x64, 0x01, 0); PeasantBvStep(0x32, 0x02, 1); PeasantBvStep(0x19, 0x05, 2); PeasantBvStep(0x81, 0x0A, 3); PeasantBvStep(0xCD, 0x14, 4); PeasantBvStep(0xEB, 0x28, 5); PeasantBvStep(0xF8, 0x50, 6); PeasantBvStep(0x7C, 0xA1, 7);
      Entry(a, 0x7C, 0xA1);
    } else {
      PeasantBvStep(0xE4, 0x01, 0); PeasantBvStep(0x72, 0x03, 1); PeasantBvStep(0x39, 0x07, 2); PeasantBvStep(0x91, 0x0F, 3); PeasantBvStep(0xC5, 0x1F, 4); PeasantBvStep(0xEF, 0x3E, 5); PeasantBvStep(0xFA, 0x7D, 6); PeasantBvStep(0x7D, 0xFA, 7);
      Entry(a, 0x7D, 0xFA);
    }
  }

  lemma Pair7E(a: byte)
    requires 0x7E <= a < 0x80
    ensures Mul(a, InverseTable[a]) == 1
  {
    if a == 0x7E {
      PeasantBvStep(0x7F, 0x01, 0); PeasantBvStep(0xB2, 0x02, 1); PeasantBvStep(0x59, 0x04, 2); PeasantBvStep(0xA1, 0x08, 3); PeasantBvStep(0xDD, 0x10, 4); PeasantBvStep(0xE3, 0x20, 5); PeasantBvStep(0xFC, 0x40, 6); PeasantBvStep(0x7E, 0x81, 7);
      Entry(a, 0x7E, 0x81);
    } else {
      PeasantBvStep(0xFF, 0x01, 0); PeasantBvStep(0xF2, 0x02, 1); PeasantBvStep(0x79, 0x04, 2); PeasantBvStep(0xB1, 0x08, 3); PeasantBvStep(0xD5, 0x10, 4); PeasantBvStep(0xE7, 0x20, 5); PeasantBvStep(0xFE, 0x41, 6); PeasantBvStep(0x7F, 0x82, 7);
      Entry(a, 0x7F, 0x82);
    }
  }

  lemma Entries80(a: byte)
    requires 0x80 <= a < 0x84
    ensures Mul(a, InverseTable[a]) == 1
  {
    if a < 0x82 { Pair80(a); } else { Pair82(a); }
  }

  lemma Pair80(a: byte)
    requires 0x80 <= a < 0x82
    ensures Mul(a, InverseTable[a]) == 1
  {
    if a == 0x80 {
      PeasantBvStep(0x9A, 0x01, 0); PeasantBvStep(0x4D, 0x02, 1); PeasantBvStep(0xAB, 0x04, 2); PeasantBvStep(0xD8, 0x08, 3); PeasantBvStep(0x6C, 0x10, 4); PeasantBvStep(0x36, 0x20, 5); PeasantBvStep(0x1B, 0x41, 6); PeasantBvStep(0x80, 0x83, 7);
      Entry(a, 0x80, 0x83);
    } else {
      PeasantBvStep(0x1A, 0x00, 0); PeasantBvStep(0x0D, 0x01, 1); PeasantBvStep(0x8B, 0x03, 2); PeasantBvStep(0xC8, 0x07, 3); PeasantBvStep(0x64, 0x0F, 4); PeasantBvStep(0x32, 0x1F, 5); PeasantBvStep(0x19, 0x3F, 6); PeasantBvStep(0x81, 0x7E, 7);
      Entry(a, 0x81, 0x7E);
    }
  }

  lemma Pair82(a: byte)
    requires 0x82 <= a < 0x84
    ensures Mul(a, InverseTable[a]) == 1
  {
    if a == 0x82 {
      PeasantBvStep(0x81, 0x00, 0); PeasantBvStep(0xCD, 0x01, 1); PeasantBvStep(0xEB, 0x03, 2); PeasantBvStep(0xF8, 0x07, 3); PeasantBvStep(0x7C, 0x0F, 4); PeasantBvStep(0x3E, 0x1F, 5); PeasantBvStep(0x1F, 0x3F, 6); PeasantBvStep(0x82, 0x7F, 7);
      Entry(a, 0x82, 0x7F);
    } else {
      PeasantBvStep(0x01, 0x01, 0); PeasantBvStep(0x8D, 0x02, 1); PeasantBvStep(0xCB, 0x04, 2); PeasantBvStep(0xE8, 0x08, 3); PeasantBvStep(0x74, 0x10, 4); PeasantBvStep(0x3A, 0x20, 5); PeasantBvStep(0x1D, 0x40, 6); PeasantBvStep(0x83, 0x80, 7);
      Entry(a, 0x83, 0x80);
    }
  }

  lemma Entries84(a: byte)
    requires 0x84 <= a < 0x88
    ensures Mul(a, InverseTable[a]) == 1
  {
    if a < 0x86 { Pair84(a); } else { Pair86(a); }
  }

  lemma Pair84(a: byte)
    requires 0x84 <= a < 0x86
    ensures Mul(a, InverseTable[a]) == 1
  {
    if a == 0x84 {
      PeasantBvStep(0xAC, 0x01, 0); PeasantBvStep(0x56, 0x02, 1); PeasantBvStep(0x2B, 0x04, 2); PeasantBvStep(0x98, 0x09, 3); PeasantBvStep(0x4C, 0x12, 4); PeasantBvStep(0x26, 0x25, 5); PeasantBvStep(0x13, 0x4B, 6); PeasantBvStep(0x84, 0x96, 7);
      Entry(a, 0x84, 0x96);
    } else {
      PeasantBvStep(0x2C, 0x00, 0); PeasantBvStep(0x16, 0x01, 1); PeasantBvStep(0x0B, 0x03, 2); PeasantBvStep(0x88, 0x07, 3); PeasantBvStep(0x44, 0x0E, 4); PeasantBvStep(0x22, 0x1C, 5); PeasantBvStep(0x11, 0x39, 6); PeasantBvStep(0x85, 0x73, 7);
      Entry(a, 0x85, 0x73);
    }
  }

  lemma Pair86(a: byte)
    requires 0x86 <= a < 0x88
    ensures Mul(a, InverseTable[a]) == 1
  {
    if a == 0x86 {
      PeasantBvStep(0xB7, 0x01, 0); PeasantBvStep(0xD6, 0x02, 1); PeasantBvStep(0x6B, 0x05, 2); PeasantBvStep(0xB8, 0x0B, 3); PeasantBvStep(0x5C, 0x17, 4); PeasantBvStep(0x2E, 0x2F, 5); PeasantBvStep(0x17, 0x5F, 6); PeasantBvStep(0x86, 0xBE, 7);
      Entry(a, 0x86, 0xBE);
    } else {
      PeasantBvStep(0x37, 0x00, 0); PeasantBvStep(0x96, 0x01, 1); PeasantBvStep(0x4B, 0x02, 2); PeasantBvStep(0xA8, 0x05, 3); PeasantBvStep(0x54, 0x0A, 4); PeasantBvStep(0x2A, 0x15, 5); PeasantBvStep(0x15, 0x2B, 6); PeasantBvStep(0x87, 0x56, 7);
      Entry(a, 0x87, 0x56);
    }
  }

  lemma Entries88(a: byte)
    requires 0x88 <= a < 0x8C
    ensures Mul(a, InverseTable[a]) == 1
  {
    if a < 0x8A { Pair88(a); } else { Pair8A(a); }
  }

  lemma Pair88(a: byte)
    requires 0x88 <= a < 0x8A
    ensures Mul(a, InverseTable[a]) == 1
  {
    if a == 0x88 {
      PeasantBvStep(0xF6, 0x01, 0); PeasantBvStep(0x7B, 0x02, 1); PeasantBvStep(0xB0, 0x04, 2); PeasantBvStep(0x58, 0x09, 3); PeasantBvStep(0x2C, 0x13, 4); PeasantBvStep(0x16, 0x26, 5); PeasantBvStep(0x0B, 0x4D, 6); PeasantBvStep(0x88, 0x9B, 7);
      Entry(a, 0x88, 0x9B);
    } else {
      PeasantBvStep(0x76, 0x01, 0); PeasantBvStep(0x3B, 0x02, 1); PeasantBvStep(0x90, 0x04, 2); PeasantBvStep(0x48, 0x09, 3); PeasantBvStep(0x24, 0x13, 4); PeasantBvStep(0x12, 0x27, 5); PeasantBvStep(0x09, 0x4F, 6); PeasantBvStep(0x89, 0x9E, 7);
      Entry(a, 0x89, 0x9E);
    }
  }

  lemma Pair8A(a: byte)
    requires 0x8A <= a < 0x8C
    ensures Mul(a, InverseTable[a]) == 1
  {
    if a == 0x8A {
      PeasantBvStep(0xED, 0x01, 0); PeasantBvStep(0xFB, 0x02, 1); PeasantBvStep(0xF0, 0x04, 2); PeasantBvStep(0x78, 0x09, 3); PeasantBvStep(0x3C, 0x12, 4); PeasantBvStep(0x1E, 0x25, 5); PeasantBvStep(0x0F, 0x4A, 6); PeasantBvStep(0x8A, 0x95, 7);
      Entry(a, 0x8A, 0x95);
    } else {
      PeasantBvStep(0x6D, 0x01, 0); PeasantBvStep(0xBB, 0x03, 1); PeasantBvStep(0xD0, 0x06, 2); PeasantBvStep(0x68, 0x0D, 3); PeasantBvStep(0x34, 0x1B, 4); PeasantBvStep(0x1A, 0x36, 5); PeasantBvStep(0x0D, 0x6C, 6); PeasantBvStep(0x8B, 0xD9, 7);
      Entry(a, 0x8B, 0xD9);
    }
  }

  lemma Entries8C(a: byte)
    requires 0x8C <= a < 0x90
    ensures Mul(a, InverseTable[a]) == 1
  {
    if a < 0x8E { Pair8C(a); } else { Pair8E(a); }
  }

  lemma Pair8C(a: byte)
    requires 0x8C <= a < 0x8E
    ensures Mul(a, InverseTable[a]) == 1
  {
    if a == 0x8C {
      PeasantBvStep(0xC0, 0x01, 0); PeasantBvStep(0x60, 0x03, 1); PeasantBvStep(0x30, 0x07, 2); PeasantBvStep(0x18, 0x0F, 3); PeasantBvStep(0x0C, 0x1E, 4); PeasantBvStep(0x06, 0x3D, 5); PeasantBvStep(0x03, 0x7B, 6); PeasantBvStep(0x8C, 0xF7, 7);
      Entry(a, 0x8C, 0xF7);
    } else {
      PeasantBvStep(0x40, 0x00, 0); PeasantBvStep(0x20, 0x00, 1); PeasantBvStep(0x10, 0x00, 2); PeasantBvStep(0x08, 0x00, 3); PeasantBvStep(0x04, 0x00, 4); PeasantBvStep(0x02, 0x00, 5); PeasantBvStep(0x01, 0x01, 6); PeasantBvStep(0x8D, 0x02, 7);
      Entry(a, 0x8D, 0x02);
    }
  }

  lemma Pair8E(a: byte)
    requires 0x8E <= a < 0x90
    ensures Mul(a, InverseTable[a]) == 1
  {
    if a == 0x8E {
      PeasantBvStep(0xDB, 0x01, 0); PeasantBvStep(0xE0, 0x02, 1); PeasantBvStep(0x70, 0x05, 2); PeasantBvStep(0x38, 0x0B, 3); PeasantBvStep(0x1C, 0x17, 4); PeasantBvStep(0x0E, 0x2E, 5); PeasantBvStep(0x07, 0x5C, 6); PeasantBvStep(0x8E, 0xB9, 7);
      Entry(a, 0x8E, 0xB9);
    } else {
      PeasantBvStep(0x5B, 0x01, 0); PeasantBvStep(0xA0, 0x02, 1); PeasantBvStep(0x50, 0x05, 2); PeasantBvStep(0x28, 0x0A, 3); PeasantBvStep(0x14, 0x14, 4); PeasantBvStep(0x0A, 0x29, 5); PeasantBvStep(0x05, 0x52, 6); PeasantBvStep(0x8F, 0xA4, 7);
      Entry(a, 0x8F, 0xA4);
    }
  }

  lemma Entries90(a: byte)
    requires 0x90 <= a < 0x94
    ensures Mul(a, InverseTable[a]) == 1
  {
    if a < 0x92 { Pair90(a); } else { Pair92(a); }
  }

  lemma Pair90(a: byte)
    requires 0x90 <= a < 0x92
    ensures Mul(a, InverseTable[a]) == 1
  {
    if a == 0x90 {
      PeasantBvStep(0x42, 0x01, 0); PeasantBvStep(0x21, 0x03, 1); PeasantBvStep(0x9D, 0x06, 2); PeasantBvStep(0xC3, 0x0D, 3); PeasantBvStep(0xEC, 0x1B, 4); PeasantBvStep(0x76, 0x37, 5); PeasantBvStep(0x3B, 0x6F, 6); PeasantBvStep(0x90, 0xDE, 7);
      Entry(a, 0x90, 0xDE);
    } else {
      PeasantBvStep(0xC2, 0x00, 0); PeasantBvStep(0x61, 0x01, 1); PeasantBvStep(0xBD, 0x03, 2); PeasantBvStep(0xD3, 0x06, 3); PeasantBvStep(0xE4, 0x0D, 4); PeasantBvStep(0x72, 0x1A, 5); PeasantBvStep(0x39, 0x35, 6); PeasantBvStep(0x91, 0x6A, 7);
      Entry(a, 0x91, 0x6A);
    }
  }

  lemma Pair92(a: byte)
    requires 0x92 <= a < 0x94
    ensures Mul(a, InverseTable[a]) == 1
  {
    if a == 0x92 {
      PeasantBvStep(0x59, 0x00, 0); PeasantBvStep(0xA1, 0x00, 1); PeasantBvStep(0xDD, 0x01, 2); PeasantBvStep(0xE3, 0x03, 3); PeasantBvStep(0xFC, 0x06, 4); PeasantBvStep(0x7E, 0x0C, 5); PeasantBvStep(0x3F, 0x19, 6); PeasantBvStep(0x92, 0x32, 7);
      Entry(a, 0x92, 0x32);
    } else {
      PeasantBvStep(0xD9, 0x00, 0); PeasantBvStep(0xE1, 0x01, 1); PeasantBvStep(0xFD, 0x03, 2); PeasantBvStep(0xF3, 0x06, 3); PeasantBvStep(0xF4, 0x0D, 4); PeasantBvStep(0x7A, 0x1B, 5); PeasantBvStep(0x3D, 0x36, 6); PeasantBvStep(0x93, 0x6D, 7);
      Entry(a, 0x93, 0x6D);
    }
  }

  lemma Entries94(a: byte)
    requires 0x94 <= a < 0x98
    ensures Mul(a, InverseTable[a]) == 1
  {
    if a < 0x96 { Pair94(a); } else { Pair96(a); }
  }

  lemma Pair94(a: byte)
    requires 0x94 <= a < 0x96
    ensures Mul(a, InverseTable[a]) == 1
  {
    if a == 0x94 {
      PeasantBvStep(0x74, 0x01, 0); PeasantBvStep(0x3A, 0x03, 1); PeasantBvStep(0x1D, 0x06, 2); PeasantBvStep(0x83, 0x0D, 3); PeasantBvStep(0xCC, 0x1B, 4); PeasantBvStep(0x66, 0x36, 5); PeasantBvStep(0x33, 0x6C, 6); PeasantBvStep(0x94, 0xD8, 7);
      Entry(a, 0x94, 0xD8);
    } else {
      PeasantBvStep(0xF4, 0x01, 0); PeasantBvStep(0x7A, 0x02, 1); PeasantBvStep(0x3D, 0x04, 2); PeasantBvStep(0x93, 0x08, 3); PeasantBvStep(0xC4, 0x11, 4); PeasantBvStep(0x62, 0x22, 5); PeasantBvStep(0x31, 0x45, 6); PeasantBvStep(0x95, 0x8A, 7);
      Entry(a, 0x95, 0x8A);
    }
  }

  lemma Pair96(a: byte)
    requires 0x96 <= a < 0x98
    ensures Mul(a, InverseTable[a]) == 1
  {
    if a == 0x96 {
      PeasantBvStep(0x6F, 0x01, 0); PeasantBvStep(0xBA, 0x02, 1); PeasantBvStep(0x5D, 0x04, 2); PeasantBvStep(0xA3, 0x08, 3); PeasantBvStep(0xDC, 0x10, 4); PeasantBvStep(0x6E, 0x21, 5); PeasantBvStep(0x37, 0x42, 6); PeasantBvStep(0x96, 0x84, 7);
      Entry(a, 0x96, 0x84);
    } else {
      PeasantBvStep(0xEF, 0x00, 0); PeasantBvStep(0xFA, 0x01, 1); PeasantBvStep(0x7D, 0x03, 2); PeasantBvStep(0xB3, 0x07, 3); PeasantBvStep(0xD4, 0x0E, 4); PeasantBvStep(0x6A, 0x1C, 5); PeasantBvStep(0x35, 0x39, 6); PeasantBvStep(0x97, 0x72, 7);
      Entry(a, 0x97, 0x72);
    }
  }

  lemma Entries98(a: byte)
    requires 0x98 <= a < 0x9C
    ensures Mul(a, InverseTable[a]) == 1
  {
    if a < 0x9A { Pair98(a); } else { Pair9A(a); }
  }

  lemma Pair98(a: byte)
    requires 0x98 <= a < 0x9A
    ensures Mul(a, InverseTable[a]) == 1
  {
    if a == 0x98 {
      PeasantBvStep(0x2E, 0x00, 0); PeasantBvStep(0x17, 0x00, 1); PeasantBvStep(0x86, 0x01, 2); PeasantBvStep(0x43, 0x02, 3); PeasantBvStep(0xAC, 0x05, 4); PeasantBvStep(0x56, 0x0A, 5); PeasantBvStep(0x2B, 0x15, 6); PeasantBvStep(0x98, 0x2A, 7);
      Entry(a, 0x98, 0x2A);
    } else {
      PeasantBvStep(0xAE, 0x00, 0); PeasantBvStep(0x57, 0x00, 1); PeasantBvStep(0xA6, 0x00, 2); PeasantBvStep(0x53, 0x01, 3); PeasantBvStep(0xA4, 0x02, 4); PeasantBvStep(0x52, 0x05, 5); PeasantBvStep(0x29, 0x0A, 6); PeasantBvStep(0x99, 0x14, 7);
      Entry(a, 0x99, 0x14);
    }
  }

  lemma Pair9A(a: byte)
    requires 0x9A <= a < 0x9C
    ensures Mul(a, InverseTable[a]) == 1
  {
    if a == 0x9A {
      PeasantBvStep(0x35, 0x01, 0); PeasantBvStep(0x97, 0x02, 1); PeasantBvStep(0xC6, 0x04, 2); PeasantBvStep(0x63, 0x09, 3); PeasantBvStep(0xBC, 0x13, 4); PeasantBvStep(0x5E, 0x27, 5); PeasantBvStep(0x2F, 0x4F, 6); PeasantBvStep(0x9A, 0x9F, 7);
      Entry(a, 0x9A, 0x9F);
    } else {
      PeasantBvStep(0xB5, 0x01, 0); PeasantBvStep(0xD7, 0x02, 1); PeasantBvStep(0xE6, 0x04, 2); PeasantBvStep(0x73, 0x08, 3); PeasantBvStep(0xB4, 0x11, 4); PeasantBvStep(0x5A, 0x22, 5); PeasantBvStep(0x2D, 0x44, 6); PeasantBvStep(0x9B, 0x88, 7);
      Entry(a, 0x9B, 0x88);
    }
  }

  lemma Entries9C(a: byte)
    requires 0x9C <= a < 0xA0
    ensures Mul(a, InverseTable[a]) == 1
  {
    if a < 0x9E { Pair9C(a); } else { Pair9E(a); }
  }

  lemma Pair9C(a: byte)
    requires 0x9C <= a < 0x9E
    ensures Mul(a, InverseTable[a]) == 1
  {
    if a == 0x9C {
      PeasantBvStep(0x18, 0x01, 0); PeasantBvStep(0x0C, 0x03, 1); PeasantBvStep(0x06, 0x07, 2); PeasantBvStep(0x03, 0x0F, 3); PeasantBvStep(0x8C, 0x1F, 4); PeasantBvStep(0x46, 0x3E, 5); PeasantBvStep(0x23, 0x7C, 6); PeasantBvStep(0x9C, 0xF9, 7);
      Entry(a, 0x9C, 0xF9);
    } else {
      PeasantBvStep(0x98, 0x01, 0); PeasantBvStep(0x4C, 0x03, 1); PeasantBvStep(0x26, 0x06, 2); PeasantBvStep(0x13, 0x0D, 3); PeasantBvStep(0x84, 0x1B, 4); PeasantBvStep(0x42, 0x37, 5); PeasantBvStep(0x21, 0x6E, 6); PeasantBvStep(0x9D, 0xDC, 7);
      Entry(a, 0x9D, 0xDC);
    }
  }

  lemma Pair9E(a: byte)
    requires 0x9E <= a < 0xA0
    ensures Mul(a, InverseTable[a]) == 1
  {
    if a == 0x9E {
      PeasantBvStep(0x03, 0x01, 0); PeasantBvStep(0x8C, 0x02, 1); PeasantBvStep(0x46, 0x04, 2); PeasantBvStep(0x23, 0x08, 3); PeasantBvStep(0x9C, 0x11, 4); PeasantBvStep(0x4E, 0x22, 5); PeasantBvStep(0x27, 0x44, 6); PeasantBvStep(0x9E, 0x89, 7);
      Entry(a, 0x9E, 0x89);
    } else {
      PeasantBvStep(0x83, 0x01, 0); PeasantBvStep(0xCC, 0x02, 1); PeasantBvStep(0x66, 0x04, 2); PeasantBvStep(0x33, 0x09, 3); PeasantBvStep(0x94, 0x13, 4); PeasantBvStep(0x4A, 0x26, 5); PeasantBvStep(0x25, 0x4D, 6); PeasantBvStep(0x9F, 0x9A, 7);
      Entry(a, 0x9F, 0x9A);
    }
  }

  lemma EntriesA0(a: byte)
    requires 0xA0 <= a < 0xA4
    ensures Mul(a, InverseTable[a]) == 1
  {
    if a < 0xA2 { PairA0(a); } else { PairA2(a); }
  }

  lemma PairA0(a: byte)
    requires 0xA0 <= a < 0xA2
    ensures Mul(a, InverseTable[a]) == 1
  {
    if a == 0xA0 {
      PeasantBvStep(0x31, 0x01, 0); PeasantBvStep(0x95, 0x03, 1); PeasantBvStep(0xC7, 0x07, 2); PeasantBvStep(0xEE, 0x0F, 3); PeasantBvStep(0x77, 0x1F, 4); PeasantBvStep(0xB6, 0x3E, 5); PeasantBvStep(0x5B, 0x7D, 6); PeasantBvStep(0xA0, 0xFB, 7);
      Entry(a, 0xA0, 0xFB);
    } else {
      PeasantBvStep(0xB1, 0x00, 0); PeasantBvStep(0xD5, 0x01, 1); PeasantBvStep(0xE7, 0x03, 2); PeasantBvStep(0xFE, 0x07, 3); PeasantBvStep(0x7F, 0x0F, 4); PeasantBvStep(0xB2, 0x1F, 5); PeasantBvStep(0x59, 0x3E, 6); PeasantBvStep(0xA1, 0x7C, 7);
      Entry(a, 0xA1, 0x7C);
    }
  }

  lemma PairA2(a: byte)
    requires 0xA2 <= a < 0xA4
    ensures Mul(a, InverseTable[a]) == 1
  {
    if a == 0xA2 {
      PeasantBvStep(0x2A, 0x00, 0); PeasantBvStep(0x15, 0x00, 1); PeasantBvStep(0x87, 0x01, 2); PeasantBvStep(0xCE, 0x02, 3); PeasantBvStep(0x67, 0x05, 4); PeasantBvStep(0xBE, 0x0B, 5); PeasantBvStep(0x5F, 0x17, 6); PeasantBvStep(0xA2, 0x2E, 7);
      Entry(a, 0xA2, 0x2E);
    } else {
      PeasantBvStep(0xAA, 0x01, 0); PeasantBvStep(0x55, 0x03, 1); PeasantBvStep(0xA7, 0x06, 2); PeasantBvStep(0xDE, 0x0C, 3); PeasantBvStep(0x6F, 0x18, 4); PeasantBvStep(0xBA, 0x30, 5); PeasantBvStep(0x5D, 0x61, 6); PeasantBvStep(0xA3, 0xC3, 7);
      Entry(a, 0xA3, 0xC3);
    }
  }

  lemma EntriesA4(a: byte)
    requires 0xA4 <= a < 0xA8
    ensures Mul(a, InverseTable[a]) == 1
  {
    if a < 0xA6 { PairA4(a); } else { PairA6(a); }
  }

  lemma PairA4(a: byte)
    requires 0xA4 <= a < 0xA6
    ensures Mul(a, InverseTable[a]) == 1
  {
    if a == 0xA4 {
      PeasantBvStep(0x07, 0x01, 0); PeasantBvStep(0x8E, 0x02, 1); PeasantBvStep(0x47, 0x04, 2); PeasantBvStep(0xAE, 0x08, 3); PeasantBvStep(0x57, 0x11, 4); PeasantBvStep(0xA6, 0x23, 5); PeasantBvStep(0x53, 0x47, 6); PeasantBvStep(0xA4, 0x8F, 7);
      Entry(a, 0xA4, 0x8F);
    } else {
      PeasantBvStep(0x87, 0x01, 0); PeasantBvStep(0xCE, 0x02, 1); PeasantBvStep(0x67, 0x05, 2); PeasantBvStep(0xBE, 0x0B, 3); PeasantBvStep(0x5F, 0x17, 4); PeasantBvStep(0xA2, 0x2E, 5); PeasantBvStep(0x51, 0x5C, 6); PeasantBvStep(0xA5, 0xB8, 7);
      Entry(a, 0xA5, 0xB8);
    }
  }

  lemma PairA6(a: byte)
    requires 0xA6 <= a < 0xA8
    ensures Mul(a, InverseTable[a]) == 1
  {
    if a == 0xA6 {
      PeasantBvStep(0x1C, 0x00, 0); PeasantBvStep(0x0E, 0x01, 1); PeasantBvStep(0x07, 0x03, 2); PeasantBvStep(0x8E, 0x06, 3); PeasantBvStep(0x47, 0x0C, 4); PeasantBvStep(0xAE, 0x19, 5); PeasantBvStep(0x57, 0x32, 6); PeasantBvStep(0xA6, 0x65, 7);
      Entry(a, 0xA6, 0x65);
    } else {
      PeasantBvStep(0x9C, 0x00, 0); PeasantBvStep(0x4E, 0x01, 1); PeasantBvStep(0x27, 0x02, 2); PeasantBvStep(0x9E, 0x04, 3); PeasantBvStep(0x4F, 0x09, 4); PeasantBvStep(0xAA, 0x12, 5); PeasantBvStep(0x55, 0x24, 6); PeasantBvStep(0xA7, 0x48, 7);
      Entry(a, 0xA7, 0x48);
    }
  }

  lemma EntriesA8(a: byte)
    requires 0xA8 <= a < 0xAC
    ensures Mul(a, InverseTable[a]) == 1
  {
    if a < 0xAA { PairA8(a); } else { PairAA(a); }
  }

  lemma PairA8(a: byte)
    requires 0xA8 <= a < 0xAA
    ensures Mul(a, InverseTable[a]) == 1
  {
    if a == 0xA8 {
      PeasantBvStep(0x5D, 0x00, 0); PeasantBvStep(0xA3, 0x00, 1); PeasantBvStep(0xDC, 0x01, 2); PeasantBvStep(0x6E, 0x02, 3); PeasantBvStep(0x37, 0x04, 4); PeasantBvStep(0x96, 0x09, 5); PeasantBvStep(0x4B, 0x13, 6); PeasantBvStep(0xA8, 0x26, 7);
      Entry(a, 0xA8, 0x26);
    } else {
      PeasantBvStep(0xDD, 0x01, 0); PeasantBvStep(0xE3, 0x03, 1); PeasantBvStep(0xFC, 0x06, 2); PeasantBvStep(0x7E, 0x0C, 3); PeasantBvStep(0x3F, 0x19, 4); PeasantBvStep(0x92, 0x32, 5); PeasantBvStep(0x49, 0x64, 6); PeasantBvStep(0xA9, 0xC8, 7);
      Entry(a, 0xA9, 0xC8);
    }
  }

  lemma PairAA(a: byte)
    requires 0xAA <= a < 0xAC
    ensures Mul(a, InverseTable[a]) == 1
  {
    if a == 0xAA {
      PeasantBvStep(0x46, 0x00, 0); PeasantBvStep(0x23, 0x00, 1); PeasantBvStep(0x9C, 0x00, 2); PeasantBvStep(0x4E, 0x01, 3); PeasantBvStep(0x27, 0x02, 4); PeasantBvStep(0x9E, 0x04, 5); PeasantBvStep(0x4F, 0x09, 6); PeasantBvStep(0xAA, 0x12, 7);
      Entry(a, 0xAA, 0x12);
    } else {
      PeasantBvStep(0xC6, 0x00, 0); PeasantBvStep(0x63, 0x01, 1); PeasantBvStep(0xBC, 0x02, 2); PeasantBvStep(0x5E, 0x04, 3); PeasantBvStep(0x2F, 0x09, 4); PeasantBvStep(0x9A, 0x12, 5); PeasantBvStep(0x4D, 0x25, 6); PeasantBvStep(0xAB, 0x4A, 7);
      Entry(a, 0xAB, 0x4A);
    }
  }

  lemma EntriesAC(a: byte)
    requires 0xAC <= a < 0xB0
    ensures Mul(a, InverseTable[a]) == 1
  {
    if a < 0xAE { PairAC(a); } else { PairAE(a); }
  }

  lemma PairAC(a: byte)
    requires 0xAC <= a < 0xAE
    ensures Mul(a, InverseTable[a]) == 1
  {
    if a == 0xAC {
      PeasantBvStep(0x6B, 0x01, 0); PeasantBvStep(0xB8, 0x03, 1); PeasantBvStep(0x5C, 0x06, 2); PeasantBvStep(0x2E, 0x0C, 3); PeasantBvStep(0x17, 0x19, 4); PeasantBvStep(0x86, 0x33, 5); PeasantBvStep(0x43, 0x67, 6); PeasantBvStep(0xAC, 0xCE, 7);
      Entry(a, 0xAC, 0xCE);
    } else {
      PeasantBvStep(0xEB, 0x01, 0); PeasantBvStep(0xF8, 0x03, 1); PeasantBvStep(0x7C, 0x07, 2); PeasantBvStep(0x3E, 0x0E, 3); PeasantBvStep(0x1F, 0x1C, 4); PeasantBvStep(0x82, 0x39, 5); PeasantBvStep(0x41, 0x73, 6); PeasantBvStep(0xAD, 0xE7, 7);
      Entry(a, 0xAD, 0xE7);
    }
  }

  lemma PairAE(a: byte)
    requires 0xAE <= a < 0xB0
    ensures Mul(a, InverseTable[a]) == 1
  {
    if a == 0xAE {
      PeasantBvStep(0x70, 0x01, 0); PeasantBvStep(0x38, 0x03, 1); PeasantBvStep(0x1C, 0x06, 2); PeasantBvStep(0x0E, 0x0D, 3); PeasantBvStep(0x07, 0x1A, 4); PeasantBvStep(0x8E, 0x34, 5); PeasantBvStep(0x47, 0x69, 6); PeasantBvStep(0xAE, 0xD2, 7);
      Entry(a, 0xAE, 0xD2);
    } else {
      PeasantBvStep(0xF0, 0x00, 0); PeasantBvStep(0x78, 0x01, 1); PeasantBvStep(0x3C, 0x03, 2); PeasantBvStep(0x1E, 0x06, 3); PeasantBvStep(0x0F, 0x0C, 4); PeasantBvStep(0x8A, 0x18, 5); PeasantBvStep(0x45, 0x31, 6); PeasantBvStep(0xAF, 0x62, 7);
      Entry(a, 0xAF, 0x62);
    }
  }

  lemma EntriesB0(a: byte)
    requires 0xB0 <= a < 0xB4
    ensures Mul(a, InverseTable[a]) == 1
  {
    if a < 0xB2 { PairB0(a); } else { PairB2(a); }
  }

  lemma PairB0(a: byte)
    requires 0xB0 <= a < 0xB2
    ensures Mul(a, InverseTable[a]) == 1
  {
    if a == 0xB0 {
      PeasantBvStep(0xE9, 0x00, 0); PeasantBvStep(0xF9, 0x00, 1); PeasantBvStep(0xF1, 0x00, 2); PeasantBvStep(0xF5, 0x00, 3); PeasantBvStep(0xF7, 0x01, 4); PeasantBvStep(0xF6, 0x03, 5); PeasantBvStep(0x7B, 0x06, 6); PeasantBvStep(0xB0, 0x0C, 7);
      Entry(a, 0xB0, 0x0C);
    } else {
      PeasantBvStep(0x69, 0x01, 0); PeasantBvStep(0xB9, 0x03, 1); PeasantBvStep(0xD1, 0x07, 2); PeasantBvStep(0xE5, 0x0E, 3); PeasantBvStep(0xFF, 0x1C, 4); PeasantBvStep(0xF2, 0x38, 5); PeasantBvStep(0x79, 0x70, 6); PeasantBvStep(0xB1, 0xE0, 7);
      Entry(a, 0xB1, 0xE0);
    }
  }

  lemma PairB2(a: byte)
    requires 0xB2 <= a < 0xB4
    ensures Mul(a, InverseTable[a]) == 1
  {
    if a == 0xB2 {
      PeasantBvStep(0xF2, 0x00, 0); PeasantBvStep(0x79, 0x00, 1); PeasantBvStep(0xB1, 0x00, 2); PeasantBvStep(0xD5, 0x01, 3); PeasantBvStep(0xE7, 0x03, 4); PeasantBvStep(0xFE, 0x07, 5); PeasantBvStep(0x7F, 0x0F, 6); PeasantBvStep(0xB2, 0x1F, 7);
      Entry(a, 0xB2, 0x1F);
    } else {
      PeasantBvStep(0x72, 0x01, 0); PeasantBvStep(0x39, 0x03, 1); PeasantBvStep(0x91, 0x07, 2); PeasantBvStep(0xC5, 0x0E, 3); PeasantBvStep(0xEF, 0x1D, 4); PeasantBvStep(0xFA, 0x3B, 5); PeasantBvStep(0x7D, 0x77, 6); PeasantBvStep(0xB3, 0xEF, 7);
      Entry(a, 0xB3, 0xEF);
    }
  }

  lemma EntriesB4(a: byte)
    requires 0xB4 <= a < 0xB8
    ensures Mul(a, InverseTable[a]) == 1
  {
    if a < 0xB6 { PairB4(a); } else { PairB6(a); }
  }

  lemma PairB4(a: byte)
    requires 0xB4 <= a < 0xB6
    ensures Mul(a, InverseTable[a]) == 1
  {
    if a == 0xB4 {
      PeasantBvStep(0xDF, 0x00, 0); PeasantBvStep(0xE2, 0x00, 1); PeasantBvStep(0x71, 0x00, 2); PeasantBvStep(0xB5, 0x01, 3); PeasantBvStep(0xD7, 0x02, 4); PeasantBvStep(0xE6, 0x04, 5); PeasantBvStep(0x73, 0x08, 6); PeasantBvStep(0xB4, 0x11, 7);
      Entry(a, 0xB4, 0x11);
    } else {
      PeasantBvStep(0x5F, 0x00, 0); PeasantBvStep(0xA2, 0x01, 1); PeasantBvStep(0x51, 0x03, 2); PeasantBvStep(0xA5, 0x07, 3); PeasantBvStep(0xDF, 0x0E, 4); PeasantBvStep(0xE2, 0x1D, 5); PeasantBvStep(0x71, 0x3A, 6); PeasantBvStep(0xB5, 0x75, 7);
      Entry(a, 0xB5, 0x75);
    }
  }

  lemma PairB6(a: byte)
    requires 0xB6 <= a < 0xB8
    ensures Mul(a, InverseTable[a]) == 1
  {
    if a == 0xB6 {
      PeasantBvStep(0xC4, 0x00, 0); PeasantBvStep(0x62, 0x01, 1); PeasantBvStep(0x31, 0x03, 2); PeasantBvStep(0x95, 0x07, 3); PeasantBvStep(0xC7, 0x0F, 4); PeasantBvStep(0xEE, 0x1E, 5); PeasantBvStep(0x77, 0x3C, 6); PeasantBvStep(0xB6, 0x78, 7);
      Entry(a, 0xB6, 0x78);
    } else {
      PeasantBvStep(0x44, 0x00, 0); PeasantBvStep(0x22, 0x01, 1); PeasantBvStep(0x11, 0x03, 2); PeasantBvStep(0x85, 0x07, 3); PeasantBvStep(0xCF, 0x0E, 4); PeasantBvStep(0xEA, 0x1C, 5); PeasantBvStep(0x75, 0x38, 6); PeasantBvStep(0xB7, 0x71, 7);
      Entry(a, 0xB7, 0x71);
    }
  }

  lemma EntriesB8(a: byte)
    requires 0xB8 <= a < 0xBC
    ensures Mul(a, InverseTable[a]) == 1
  {
    if a < 0xBA { PairB8(a); } else { PairBA(a); }
  }

  lemma PairB8(a: byte)
    requires 0xB8 <= a < 0xBA
    ensures Mul(a, InverseTable[a]) == 1
  {
    if a == 0xB8 {
      PeasantBvStep(0x85, 0x01, 0); PeasantBvStep(0xCF, 0x02, 1); PeasantBvStep(0xEA, 0x05, 2); PeasantBvStep(0x75, 0x0A, 3); PeasantBvStep(0xB7, 0x14, 4); PeasantBvStep(0xD6, 0x29, 5); PeasantBvStep(0x6B, 0x52, 6); PeasantBvStep(0xB8, 0xA5, 7);
      Entry(a, 0xB8, 0xA5);
    } else {
      PeasantBvStep(0x05, 0x01, 0); PeasantBvStep(0x8F, 0x02, 1); PeasantBvStep(0xCA, 0x04, 2); PeasantBvStep(0x65, 0x08, 3); PeasantBvStep(0xBF, 0x11, 4); PeasantBvStep(0xD2, 0x23, 5); PeasantBvStep(0x69, 0x47, 6); PeasantBvStep(0xB9, 0x8E, 7);
      Entry(a, 0xB9, 0x8E);
    }
  }

  lemma PairBA(a: byte)
    requires 0xBA <= a < 0xBC
    ensures Mul(a, InverseTable[a]) == 1
  {
    if a == 0xBA {
      PeasantBvStep(0x9E, 0x00, 0); PeasantBvStep(0x4F, 0x01, 1); PeasantBvStep(0xAA, 0x03, 2); PeasantBvStep(0x55, 0x07, 3); PeasantBvStep(0xA7, 0x0E, 4); PeasantBvStep(0xDE, 0x1D, 5); PeasantBvStep(0x6F, 0x3B, 6); PeasantBvStep(0xBA, 0x76, 7);
      Entry(a, 0xBA, 0x76);
    } else {
      PeasantBvStep(0x1E, 0x00, 0); PeasantBvStep(0x0F, 0x00, 1); PeasantBvStep(0x8A, 0x01, 2); PeasantBvStep(0x45, 0x03, 3); PeasantBvStep(0xAF, 0x07, 4); PeasantBvStep(0xDA, 0x0F, 5); PeasantBvStep(0x6D, 0x1E, 6); PeasantBvStep(0xBB, 0x3D, 7);
      Entry(a, 0xBB, 0x3D);
    }
  }

  lemma EntriesBC(a: byte)
    requires 0xBC <= a < 0xC0
    ensures Mul(a, InverseTable[a]) == 1
  {
    if a < 0xBE { PairBC(a); } else { PairBE(a); }
  }

  lemma PairBC(a: byte)
    requires 0xBC <= a < 0xBE
    ensures Mul(a, InverseTable[a]) == 1
  {
    if a == 0xBC {
      PeasantBvStep(0xB3, 0x01, 0); PeasantBvStep(0xD4, 0x02, 1); PeasantBvStep(0x6A, 0x05, 2); PeasantBvStep(0x35, 0x0B, 3); PeasantBvStep(0x97, 0x17, 4); PeasantBvStep(0xC6, 0x2F, 5); PeasantBvStep(0x63, 0x5E, 6); PeasantBvStep(0xBC, 0xBD, 7);
      Entry(a, 0xBC, 0xBD);
    } else {
      PeasantBvStep(0x33, 0x01, 0); PeasantBvStep(0x94, 0x02, 1); PeasantBvStep(0x4A, 0x05, 2); PeasantBvStep(0x25, 0x0B, 3); PeasantBvStep(0x9F, 0x17, 4); PeasantBvStep(0xC2, 0x2F, 5); PeasantBvStep(0x61, 0x5E, 6); PeasantBvStep(0xBD, 0xBC, 7);
      Entry(a, 0xBD, 0xBC);
    }
  }

  lemma PairBE(a: byte)
    requires 0xBE <= a < 0xC0
    ensures Mul(a, InverseTable[a]) == 1
  {
    if a == 0xBE {
      PeasantBvStep(0xA8, 0x01, 0); PeasantBvStep(0x54, 0x02, 1); PeasantBvStep(0x2A, 0x04, 2); PeasantBvStep(0x15, 0x08, 3); PeasantBvStep(0x87, 0x10, 4); PeasantBvStep(0xCE, 0x21, 5); PeasantBvStep(0x67, 0x43, 6); PeasantBvStep(0xBE, 0x86, 7);
      Entry(a, 0xBE, 0x86);
    } else {
      PeasantBvStep(0x28, 0x00, 0); PeasantBvStep(0x14, 0x01, 1); PeasantBvStep(0x0A, 0x02, 2); PeasantBvStep(0x05, 0x05, 3); PeasantBvStep(0x8F, 0x0A, 4); PeasantBvStep(0xCA, 0x15, 5); PeasantBvStep(0x65, 0x2B, 6); PeasantBvStep(0xBF, 0x57, 7);
      Entry(a, 0xBF, 0x57);
    }
  }

  lemma EntriesC0(a: byte)
    requires 0xC0 <= a < 0xC4
    ensures Mul(a, InverseTable[a]) == 1
  {
    if a < 0xC2 { PairC0(a); } else { PairC2(a); }
  }

  lemma PairC0(a: byte)
    requires 0xC0 <= a < 0xC2
    ensures Mul(a, InverseTable[a]) == 1
  {
    if a == 0xC0 {
      PeasantBvStep(0xD7, 0x00, 0); PeasantBvStep(0xE6, 0x00, 1); PeasantBvStep(0x73, 0x00, 2); PeasantBvStep(0xB4, 0x00, 3); PeasantBvStep(0x5A, 0x01, 4); PeasantBvStep(0x2D, 0x02, 5); PeasantBvStep(0x9B, 0x05, 6); PeasantBvStep(0xC0, 0x0B, 7);
      Entry(a, 0xC0, 0x0B);
    } else {
      PeasantBvStep(0x57, 0x00, 0); PeasantBvStep(0xA6, 0x00, 1); PeasantBvStep(0x53, 0x01, 2); PeasantBvStep(0xA4, 0x02, 3); PeasantBvStep(0x52, 0x05, 4); PeasantBvStep(0x29, 0x0A, 5); PeasantBvStep(0x99, 0x14, 6); PeasantBvStep(0xC1, 0x28, 7);
      Entry(a, 0xC1, 0x28);
    }
  }

  lemma PairC2(a: byte)
    requires 0xC2 <= a < 0xC4
    ensures Mul(a, InverseTable[a]) == 1
  {
    if a == 0xC2 {
      PeasantBvStep(0xCC, 0x00, 0); PeasantBvStep(0x66, 0x00, 1); PeasantBvStep(0x33, 0x01, 2); PeasantBvStep(0x94, 0x02, 3); PeasantBvStep(0x4A, 0x05, 4); PeasantBvStep(0x25, 0x0B, 5); PeasantBvStep(0x9F, 0x17, 6); PeasantBvStep(0xC2, 0x2F, 7);
      Entry(a, 0xC2, 0x2F);
    } else {
      PeasantBvStep(0x4C, 0x01, 0); PeasantBvStep(0x26, 0x02, 1); PeasantBvStep(0x13, 0x05, 2); PeasantBvStep(0x84, 0x0A, 3); PeasantBvStep(0x42, 0x14, 4); PeasantBvStep(0x21, 0x28, 5); PeasantBvStep(0x9D, 0x51, 6); PeasantBvStep(0xC3, 0xA3, 7);
      Entry(a, 0xC3, 0xA3);
    }
  }

  lemma EntriesC4(a: byte)
    requires 0xC4 <= a < 0xC8
    ensures Mul(a, InverseTable[a]) == 1
  {
    if a < 0xC6 { PairC4(a); } else { PairC6(a); }
  }

  lemma PairC4(a: byte)
    requires 0xC4 <= a < 0xC6
    ensures Mul(a, InverseTable[a]) == 1
  {
    if a == 0xC4 {
      PeasantBvStep(0xE1, 0x01, 0); PeasantBvStep(0xFD, 0x03, 1); PeasantBvStep(0xF3, 0x06, 2); PeasantBvStep(0xF4, 0x0D, 3); PeasantBvStep(0x7A, 0x1B, 4); PeasantBvStep(0x3D, 0x36, 5); PeasantBvStep(0x93, 0x6D, 6); PeasantBvStep(0xC4, 0xDA, 7);
      Entry(a, 0xC4, 0xDA);
    } else {
      PeasantBvStep(0x61, 0x01, 0); PeasantBvStep(0xBD, 0x03, 1); PeasantBvStep(0xD3, 0x06, 2); PeasantBvStep(0xE4, 0x0D, 3); PeasantBvStep(0x72, 0x1A, 4); PeasantBvStep(0x39, 0x35, 5); PeasantBvStep(0x91, 0x6A, 6); PeasantBvStep(0xC5, 0xD4, 7);
      Entry(a, 0xC5, 0xD4);
    }
  }

  lemma PairC6(a: byte)
    requires 0xC6 <= a < 0xC8
    ensures Mul(a, InverseTable[a]) == 1
  {
    if a == 0xC6 {
      PeasantBvStep(0xFA, 0x01, 0); PeasantBvStep(0x7D, 0x03, 1); PeasantBvStep(0xB3, 0x07, 2); PeasantBvStep(0xD4, 0x0E, 3); PeasantBvStep(0x6A, 0x1C, 4); PeasantBvStep(0x35, 0x39, 5); PeasantBvStep(0x97, 0x72, 6); PeasantBvStep(0xC6, 0xE4, 7);
      Entry(a, 0xC6, 0xE4);
    } else {
      PeasantBvStep(0x7A, 0x00, 0); PeasantBvStep(0x3D, 0x00, 1); PeasantBvStep(0x93, 0x00, 2); PeasantBvStep(0xC4, 0x00, 3); PeasantBvStep(0x62, 0x01, 4); PeasantBvStep(0x31, 0x03, 5); PeasantBvStep(0x95, 0x07, 6); PeasantBvStep(0xC7, 0x0F, 7);
      Entry(a, 0xC7, 0x0F);
    }
  }

  lemma EntriesC8(a: byte)
    requires 0xC8 <= a < 0xCC
    ensures Mul(a, InverseTable[a]) == 1
  {
    if a < 0xCA { PairC8(a); } else { PairCA(a); }
  }

  lemma PairC8(a: byte)
    requires 0xC8 <= a < 0xCA
    ensures Mul(a, InverseTable[a]) == 1
  {
    if a == 0xC8 {
      PeasantBvStep(0xBB, 0x01, 0); PeasantBvStep(0xD0, 0x02, 1); PeasantBvStep(0x68, 0x05, 2); PeasantBvStep(0x34, 0x0A, 3); PeasantBvStep(0x1A, 0x15, 4); PeasantBvStep(0x0D, 0x2A, 5); PeasantBvStep(0x8B, 0x54, 6); PeasantBvStep(0xC8, 0xA9, 7);
      Entry(a, 0xC8, 0xA9);
    } else {
      PeasantBvStep(0x3B, 0x00, 0); PeasantBvStep(0x90, 0x00, 1); PeasantBvStep(0x48, 0x01, 2); PeasantBvStep(0x24, 0x02, 3); PeasantBvStep(0x12, 0x04, 4); PeasantBvStep(0x09, 0x09, 5); PeasantBvStep(0x89, 0x13, 6); PeasantBvStep(0xC9, 0x27, 7);
      Entry(a, 0xC9, 0x27);
    }
  }

  lemma PairCA(a: byte)
    requires 0xCA <= a < 0xCC
    ensures Mul(a, InverseTable[a]) == 1
  {
    if a == 0xCA {
      PeasantBvStep(0xA0, 0x00, 0); PeasantBvStep(0x50, 0x01, 1); PeasantBvStep(0x28, 0x02, 2); PeasantBvStep(0x14, 0x05, 3); PeasantBvStep(0x0A, 0x0A, 4); PeasantBvStep(0x05, 0x14, 5); PeasantBvStep(0x8F, 0x29, 6); PeasantBvStep(0xCA, 0x53, 7);
      Entry(a, 0xCA, 0x53);
    } else {
      PeasantBvStep(0x20, 0x00, 0); PeasantBvStep(0x10, 0x00, 1); PeasantBvStep(0x08, 0x00, 2); PeasantBvStep(0x04, 0x00, 3); PeasantBvStep(0x02, 0x00, 4); PeasantBvStep(0x01, 0x01, 5); PeasantBvStep(0x8D, 0x02, 6); PeasantBvStep(0xCB, 0x04, 7);
      Entry(a, 0xCB, 0x04);
    }
  }

  lemma EntriesCC(a: byte)
    requires 0xCC <= a < 0xD0
    ensures Mul(a, InverseTable[a]) == 1
  {
    if a < 0xCE { PairCC(a); } else { PairCE(a); }
  }

  lemma PairCC(a: byte)
    requires 0xCC <= a < 0xCE
    ensures Mul(a, InverseTable[a]) == 1
  {
    if a == 0xCC {
      PeasantBvStep(0x8D, 0x00, 0); PeasantBvStep(0xCB, 0x00, 1); PeasantBvStep(0xE8, 0x00, 2); PeasantBvStep(0x74, 0x01, 3); PeasantBvStep(0x3A, 0x03, 4); PeasantBvStep(0x1D, 0x06, 5); PeasantBvStep(0x83, 0x0D, 6); PeasantBvStep(0xCC, 0x1B, 7);
      Entry(a, 0xCC, 0x1B);
    } else {
      PeasantBvStep(0x0D, 0x01, 0); PeasantBvStep(0x8B, 0x03, 1); PeasantBvStep(0xC8, 0x07, 2); PeasantBvStep(0x64, 0x0F, 3); PeasantBvStep(0x32, 0x1F, 4); PeasantBvStep(0x19, 0x3F, 5); PeasantBvStep(0x81, 0x7E, 6); PeasantBvStep(0xCD, 0xFC, 7);
      Entry(a, 0xCD, 0xFC);
    }
  }

  lemma PairCE(a: byte)
    requires 0xCE <= a < 0xD0
    ensures Mul(a, InverseTable[a]) == 1
  {
    if a == 0xCE {
      PeasantBvStep(0x96, 0x01, 0); PeasantBvStep(0x4B, 0x02, 1); PeasantBvStep(0xA8, 0x05, 2); PeasantBvStep(0x54, 0x0A, 3); PeasantBvStep(0x2A, 0x15, 4); PeasantBvStep(0x15, 0x2B, 5); PeasantBvStep(0x87, 0x56, 6); PeasantBvStep(0xCE, 0xAC, 7);
      Entry(a, 0xCE, 0xAC);
    } else {
      PeasantBvStep(0x16, 0x01, 0); PeasantBvStep(0x0B, 0x03, 1); PeasantBvStep(0x88, 0x07, 2); PeasantBvStep(0x44, 0x0E, 3); PeasantBvStep(0x22, 0x1C, 4); PeasantBvStep(0x11, 0x39, 5); PeasantBvStep(0x85, 0x73, 6); PeasantBvStep(0xCF, 0xE6, 7);
      Entry(a, 0xCF, 0xE6);
    }
  }

  lemma EntriesD0(a: byte)
    requires 0xD0 <= a < 0xD4
    ensures Mul(a, InverseTable[a]) == 1
  {
    if a < 0xD2 { PairD0(a); } else { PairD2(a); }
  }

  lemma PairD0(a: byte)
    requires 0xD0 <= a < 0xD2
    ensures Mul(a, InverseTable[a]) == 1
  {
    if a == 0xD0 {
      PeasantBvStep(0x0F, 0x00, 0); PeasantBvStep(0x8A, 0x01, 1); PeasantBvStep(0x45, 0x03, 2); PeasantBvStep(0xAF, 0x07, 3); PeasantBvStep(0xDA, 0x0F, 4); PeasantBvStep(0x6D, 0x1E, 5); PeasantBvStep(0xBB, 0x3D, 6); PeasantBvStep(0xD0, 0x7A, 7);
      Entry(a, 0xD0, 0x7A);
    } else {
      PeasantBvStep(0x8F, 0x00, 0); PeasantBvStep(0xCA, 0x00, 1); PeasantBvStep(0x65, 0x00, 2); PeasantBvStep(0xBF, 0x00, 3); PeasantBvStep(0xD2, 0x00, 4); PeasantBvStep(0x69, 0x01, 5); PeasantBvStep(0xB9, 0x03, 6); PeasantBvStep(0xD1, 0x07, 7);
      Entry(a, 0xD1, 0x07);
    }
  }

  lemma PairD2(a: byte)
    requires 0xD2 <= a < 0xD4
    ensures Mul(a, InverseTable[a]) == 1
  {
    if a == 0xD2 {
      PeasantBvStep(0x14, 0x01, 0); PeasantBvStep(0x0A, 0x02, 1); PeasantBvStep(0x05, 0x05, 2); PeasantBvStep(0x8F, 0x0A, 3); PeasantBvStep(0xCA, 0x15, 4); PeasantBvStep(0x65, 0x2B, 5); PeasantBvStep(0xBF, 0x57, 6); PeasantBvStep(0xD2, 0xAE, 7);
      Entry(a, 0xD2, 0xAE);
    } else {
      PeasantBvStep(0x94, 0x00, 0); PeasantBvStep(0x4A, 0x01, 1); PeasantBvStep(0x25, 0x03, 2); PeasantBvStep(0x9F, 0x06, 3); PeasantBvStep(0xC2, 0x0C, 4); PeasantBvStep(0x61, 0x18, 5); PeasantBvStep(0xBD, 0x31, 6); PeasantBvStep(0xD3, 0x63, 7);
      Entry(a, 0xD3, 0x63);
    }
  }

  lemma EntriesD4(a: byte)
    requires 0xD4 <= a < 0xD8
    ensures Mul(a, InverseTable[a]) == 1
  {
    if a < 0xD6 { PairD4(a); } else { PairD6(a); }
  }

  lemma PairD4(a: byte)
    requires 0xD4 <= a < 0xD6
    ensures Mul(a, InverseTable[a]) == 1
  {
    if a == 0xD4 {
      PeasantBvStep(0x39, 0x01, 0); PeasantBvStep(0x91, 0x03, 1); PeasantBvStep(0xC5, 0x06, 2); PeasantBvStep(0xEF, 0x0C, 3); PeasantBvStep(0xFA, 0x18, 4); PeasantBvStep(0x7D, 0x31, 5); PeasantBvStep(0xB3, 0x62, 6); PeasantBvStep(0xD4, 0xC5, 7);
      Entry(a, 0xD4, 0xC5);
    } else {
      PeasantBvStep(0xB9, 0x01, 0); PeasantBvStep(0xD1, 0x03, 1); PeasantBvStep(0xE5, 0x06, 2); PeasantBvStep(0xFF, 0x0D, 3); PeasantBvStep(0xF2, 0x1B, 4); PeasantBvStep(0x79, 0x36, 5); PeasantBvStep(0xB1, 0x6D, 6); PeasantBvStep(0xD5, 0xDB, 7);
      Entry(a, 0xD5, 0xDB);
    }
  }

  lemma PairD6(a: byte)
    requires 0xD6 <= a < 0xD8
    ensures Mul(a, InverseTable[a]) == 1
  {
    if a == 0xD6 {
      PeasantBvStep(0x22, 0x01, 0); PeasantBvStep(0x11, 0x03, 1); PeasantBvStep(0x85, 0x07, 2); PeasantBvStep(0xCF, 0x0E, 3); PeasantBvStep(0xEA, 0x1C, 4); PeasantBvStep(0x75, 0x38, 5); PeasantBvStep(0xB7, 0x71, 6); PeasantBvStep(0xD6, 0xE2, 7);
      Entry(a, 0xD6, 0xE2);
    } else {
      PeasantBvStep(0xA2, 0x01, 0); PeasantBvStep(0x51, 0x03, 1); PeasantBvStep(0xA5, 0x07, 2); PeasantBvStep(0xDF, 0x0E, 3); PeasantBvStep(0xE2, 0x1D, 4); PeasantBvStep(0x71, 0x3A, 5); PeasantBvStep(0xB5, 0x75, 6); PeasantBvStep(0xD7, 0xEA, 7);
      Entry(a, 0xD7, 0xEA);
    }
  }

  lemma EntriesD8(a: byte)
    requires 0xD8 <= a < 0xDC
    ensures Mul(a, InverseTable[a]) == 1
  {
    if a < 0xDA { PairD8(a); } else { PairDA(a); }
  }

  lemma PairD8(a: byte)
    requires 0xD8 <= a < 0xDA
    ensures Mul(a, InverseTable[a]) == 1
  {
    if a == 0xD8 {
      PeasantBvStep(0x63, 0x01, 0); PeasantBvStep(0xBC, 0x02, 1); PeasantBvStep(0x5E, 0x04, 2); PeasantBvStep(0x2F, 0x09, 3); PeasantBvStep(0x9A, 0x12, 4); PeasantBvStep(0x4D, 0x25, 5); PeasantBvStep(0xAB, 0x4A, 6); PeasantBvStep(0xD8, 0x94, 7);
      Entry(a, 0xD8, 0x94);
    } else {
      PeasantBvStep(0xE3, 0x01, 0); PeasantBvStep(0xFC, 0x02, 1); PeasantBvStep(0x7E, 0x04, 2); PeasantBvStep(0x3F, 0x08, 3); PeasantBvStep(0x92, 0x11, 4); PeasantBvStep(0x49, 0x22, 5); PeasantBvStep(0xA9, 0x45, 6); PeasantBvStep(0xD9, 0x8B, 7);
      Entry(a, 0xD9, 0x8B);
    }
  }

  lemma PairDA(a: byte)
    requires 0xDA <= a < 0xDC
    ensures Mul(a, InverseTable[a]) == 1
  {
    if a == 0xDA {
      PeasantBvStep(0x78, 0x01, 0); PeasantBvStep(0x3C, 0x03, 1); PeasantBvStep(0x1E, 0x06, 2); PeasantBvStep(0x0F, 0x0C, 3); PeasantBvStep(0x8A, 0x18, 4); PeasantBvStep(0x45, 0x31, 5); PeasantBvStep(0xAF, 0x62, 6); PeasantBvStep(0xDA, 0xC4, 7);
      Entry(a, 0xDA, 0xC4);
    } else {
      PeasantBvStep(0xF8, 0x01, 0); PeasantBvStep(0x7C, 0x03, 1); PeasantBvStep(0x3E, 0x06, 2); PeasantBvStep(0x1F, 0x0D, 3); PeasantBvStep(0x82, 0x1A, 4); PeasantBvStep(0x41, 0x35, 5); PeasantBvStep(0xAD, 0x6A, 6); PeasantBvStep(0xDB, 0xD5, 7);
      Entry(a, 0xDB, 0xD5);
    }
  }

  lemma EntriesDC(a: byte)
    requires 0xDC <= a < 0xE0
    ensures Mul(a, InverseTable[a]) == 1
  {
    if a < 0xDE { PairDC(a); } else { PairDE(a); }
  }

  lemma PairDC(a: byte)
    requires 0xDC <= a < 0xDE
    ensures Mul(a, InverseTable[a]) == 1
  {
    if a == 0xDC {
      PeasantBvStep(0x55, 0x01, 0); PeasantBvStep(0xA7, 0x02, 1); PeasantBvStep(0xDE, 0x04, 2); PeasantBvStep(0x6F, 0x09, 3); PeasantBvStep(0xBA, 0x13, 4); PeasantBvStep(0x5D, 0x27, 5); PeasantBvStep(0xA3, 0x4E, 6); PeasantBvStep(0xDC, 0x9D, 7);
      Entry(a, 0xDC, 0x9D);
    } else {
      PeasantBvStep(0xD5, 0x01, 0); PeasantBvStep(0xE7, 0x03, 1); PeasantBvStep(0xFE, 0x07, 2); PeasantBvStep(0x7F, 0x0F, 3); PeasantBvStep(0xB2, 0x1F, 4); PeasantBvStep(0x59, 0x3E, 5); PeasantBvStep(0xA1, 0x7C, 6); PeasantBvStep(0xDD, 0xF8, 7);
      Entry(a, 0xDD, 0xF8);
    }
  }

  lemma PairDE(a: byte)
    requires 0xDE <= a < 0xE0
    ensures Mul(a, InverseTable[a]) == 1
  {
    if a == 0xDE {
      PeasantBvStep(0x4E, 0x01, 0); PeasantBvStep(0x27, 0x02, 1); PeasantBvStep(0x9E, 0x04, 2); PeasantBvStep(0x4F, 0x09, 3); PeasantBvStep(0xAA, 0x12, 4); PeasantBvStep(0x55, 0x24, 5); PeasantBvStep(0xA7, 0x48, 6); PeasantBvStep(0xDE, 0x90, 7);
      Entry(a, 0xDE, 0x90);
    } else {
      PeasantBvStep(0xCE, 0x00, 0); PeasantBvStep(0x67, 0x01, 1); PeasantBvStep(0xBE, 0x03, 2); PeasantBvStep(0x5F, 0x06, 3); PeasantBvStep(0xA2, 0x0D, 4); PeasantBvStep(0x51, 0x1A, 5); PeasantBvStep(0xA5, 0x35, 6); PeasantBvStep(0xDF, 0x6B, 7);
      Entry(a, 0xDF, 0x6B);
    }
  }

  lemma EntriesE0(a: byte)
    requires 0xE0 <= a < 0xE4
    ensures Mul(a, InverseTable[a]) == 1
  {
    if a < 0xE2 { PairE0(a); } else { PairE2(a); }
  }

  lemma PairE0(a: byte)
    requires 0xE0 <= a < 0xE2
    ensures Mul(a, InverseTable[a]) == 1
  {
    if a == 0xE0 {
      PeasantBvStep(0x7C, 0x01, 0); PeasantBvStep(0x3E, 0x02, 1); PeasantBvStep(0x1F, 0x05, 2); PeasantBvStep(0x82, 0x0B, 3); PeasantBvStep(0x41, 0x16, 4); PeasantBvStep(0xAD, 0x2C, 5); PeasantBvStep(0xDB, 0x58, 6); PeasantBvStep(0xE0, 0xB1, 7);
      Entry(a, 0xE0, 0xB1);
    } else {
      PeasantBvStep(0xFC, 0x00, 0); PeasantBvStep(0x7E, 0x00, 1); PeasantBvStep(0x3F, 0x00, 2); PeasantBvStep(0x92, 0x00, 3); PeasantBvStep(0x49, 0x01, 4); PeasantBvStep(0xA9, 0x03, 5); PeasantBvStep(0xD9, 0x06, 6); PeasantBvStep(0xE1, 0x0D, 7);
      Entry(a, 0xE1, 0x0D);
    }
  }

  lemma PairE2(a: byte)
    requires 0xE2 <= a < 0xE4
    ensures Mul(a, InverseTable[a]) == 1
  {
    if a == 0xE2 {
      PeasantBvStep(0x67, 0x01, 0); PeasantBvStep(0xBE, 0x03, 1); PeasantBvStep(0x5F, 0x06, 2); PeasantBvStep(0xA2, 0x0D, 3); PeasantBvStep(0x51, 0x1A, 4); PeasantBvStep(0xA5, 0x35, 5); PeasantBvStep(0xDF, 0x6B, 6); PeasantBvStep(0xE2, 0xD6, 7);
      Entry(a, 0xE2, 0xD6);
    } else {
      PeasantBvStep(0xE7, 0x01, 0); PeasantBvStep(0xFE, 0x03, 1); PeasantBvStep(0x7F, 0x07, 2); PeasantBvStep(0xB2, 0x0E, 3); PeasantBvStep(0x59, 0x1D, 4); PeasantBvStep(0xA1, 0x3A, 5); PeasantBvStep(0xDD, 0x75, 6); PeasantBvStep(0xE3, 0xEB, 7);
      Entry(a, 0xE3, 0xEB);
    }
  }

  lemma EntriesE4(a: byte)
    requires 0xE4 <= a < 0xE8
    ensures Mul(a, InverseTable[a]) == 1
  {
    if a < 0xE6 { PairE4(a); } else { PairE6(a); }
  }

  lemma PairE4(a: byte)
    requires 0xE4 <= a < 0xE6
    ensures Mul(a, InverseTable[a]) == 1
  {
    if a == 0xE4 {
      PeasantBvStep(0x4A, 0x01, 0); PeasantBvStep(0x25, 0x03, 1); PeasantBvStep(0x9F, 0x06, 2); PeasantBvStep(0xC2, 0x0C, 3); PeasantBvStep(0x61, 0x18, 4); PeasantBvStep(0xBD, 0x31, 5); PeasantBvStep(0xD3, 0x63, 6); PeasantBvStep(0xE4, 0xC6, 7);
      Entry(a, 0xE4, 0xC6);
    } else {
      PeasantBvStep(0xCA, 0x00, 0); PeasantBvStep(0x65, 0x00, 1); PeasantBvStep(0xBF, 0x00, 2); PeasantBvStep(0xD2, 0x00, 3); PeasantBvStep(0x69, 0x01, 4); PeasantBvStep(0xB9, 0x03, 5); PeasantBvStep(0xD1, 0x07, 6); PeasantBvStep(0xE5, 0x0E, 7);
      Entry(a, 0xE5, 0x0E);
    }
  }

  lemma PairE6(a: byte)
    requires 0xE6 <= a < 0xE8
    ensures Mul(a, InverseTable[a]) == 1
  {
    if a == 0xE6 {
      PeasantBvStep(0x51, 0x01, 0); PeasantBvStep(0xA5, 0x03, 1); PeasantBvStep(0xDF, 0x06, 2); PeasantBvStep(0xE2, 0x0C, 3); PeasantBvStep(0x71, 0x19, 4); PeasantBvStep(0xB5, 0x33, 5); PeasantBvStep(0xD7, 0x67, 6); PeasantBvStep(0xE6, 0xCF, 7);
      Entry(a, 0xE6, 0xCF);
    } else {
      PeasantBvStep(0xD1, 0x01, 0); PeasantBvStep(0xE5, 0x02, 1); PeasantBvStep(0xFF, 0x05, 2); PeasantBvStep(0xF2, 0x0A, 3); PeasantBvStep(0x79, 0x15, 4); PeasantBvStep(0xB1, 0x2B, 5); PeasantBvStep(0xD5, 0x56, 6); PeasantBvStep(0xE7, 0xAD, 7);
      Entry(a, 0xE7, 0xAD);
    }
  }

  lemma EntriesE8(a: byte)
    requires 0xE8 <= a < 0xEC
    ensures Mul(a, InverseTable[a]) == 1
  {
    if a < 0xEA { PairE8(a); } else { PairEA(a); }
  }

  lemma PairE8(a: byte)
    requires 0xE8 <= a < 0xEA
    ensures Mul(a, InverseTable[a]) == 1
  {
    if a == 0xE8 {
      PeasantBvStep(0x10, 0x00, 0); PeasantBvStep(0x08, 0x00, 1); PeasantBvStep(0x04, 0x00, 2); PeasantBvStep(0x02, 0x00, 3); PeasantBvStep(0x01, 0x01, 4); PeasantBvStep(0x8D, 0x02, 5); PeasantBvStep(0xCB, 0x04, 6); PeasantBvStep(0xE8, 0x08, 7);
      Entry(a, 0xE8, 0x08);
    } else {
      PeasantBvStep(0x90, 0x00, 0); PeasantBvStep(0x48, 0x01, 1); PeasantBvStep(0x24, 0x02, 2); PeasantBvStep(0x12, 0x04, 3); PeasantBvStep(0x09, 0x09, 4); PeasantBvStep(0x89, 0x13, 5); PeasantBvStep(0xC9, 0x27, 6); PeasantBvStep(0xE9, 0x4E, 7);
      Entry(a, 0xE9, 0x4E);
    }
  }

  lemma PairEA(a: byte)
    requires 0xEA <= a < 0xEC
    ensures Mul(a, InverseTable[a]) == 1
  {
    if a == 0xEA {
      PeasantBvStep(0x0B, 0x01, 0); PeasantBvStep(0x88, 0x03, 1); PeasantBvStep(0x44, 0x06, 2); PeasantBvStep(0x22, 0x0D, 3); PeasantBvStep(0x11, 0x1A, 4); PeasantBvStep(0x85, 0x35, 5); PeasantBvStep(0xCF, 0x6B, 6); PeasantBvStep(0xEA, 0xD7, 7);
      Entry(a, 0xEA, 0xD7);
    } else {
      PeasantBvStep(0x8B, 0x01, 0); PeasantBvStep(0xC8, 0x03, 1); PeasantBvStep(0x64, 0x07, 2); PeasantBvStep(0x32, 0x0E, 3); PeasantBvStep(0x19, 0x1C, 4); PeasantBvStep(0x81, 0x38, 5); PeasantBvStep(0xCD, 0x71, 6); PeasantBvStep(0xEB, 0xE3, 7);
      Entry(a, 0xEB, 0xE3);
    }
  }

  lemma EntriesEC(a: byte)
    requires 0xEC <= a < 0xF0
    ensures Mul(a, InverseTable[a]) == 1
  {
    if a < 0xEE { PairEC(a); } else { PairEE(a); }
  }

  lemma PairEC(a: byte)
    requires 0xEC <= a < 0xEE
    ensures Mul(a, InverseTable[a]) == 1
  {
    if a == 0xEC {
      PeasantBvStep(0x26, 0x00, 0); PeasantBvStep(0x13, 0x01, 1); PeasantBvStep(0x84, 0x02, 2); PeasantBvStep(0x42, 0x05, 3); PeasantBvStep(0x21, 0x0B, 4); PeasantBvStep(0x9D, 0x17, 5); PeasantBvStep(0xC3, 0x2E, 6); PeasantBvStep(0xEC, 0x5D, 7);
      Entry(a, 0xEC, 0x5D);
    } else {
      PeasantBvStep(0xA6, 0x00, 0); PeasantBvStep(0x53, 0x01, 1); PeasantBvStep(0xA4, 0x02, 2); PeasantBvStep(0x52, 0x05, 3); PeasantBvStep(0x29, 0x0A, 4); PeasantBvStep(0x99, 0x14, 5); PeasantBvStep(0xC1, 0x28, 6); PeasantBvStep(0xED, 0x50, 7);
      Entry(a, 0xED, 0x50);
    }
  }

  lemma PairEE(a: byte)
    requires 0xEE <= a < 0xF0
    ensures Mul(a, InverseTable[a]) == 1
  {
    if a == 0xEE {
      PeasantBvStep(0x3D, 0x00, 0); PeasantBvStep(0x93, 0x00, 1); PeasantBvStep(0xC4, 0x00, 2); PeasantBvStep(0x62, 0x01, 3); PeasantBvStep(0x31, 0x03, 4); PeasantBvStep(0x95, 0x07, 5); PeasantBvStep(0xC7, 0x0F, 6); PeasantBvStep(0xEE, 0x1E, 7);
      Entry(a, 0xEE, 0x1E);
    } else {
      PeasantBvStep(0xBD, 0x01, 0); PeasantBvStep(0xD3, 0x02, 1); PeasantBvStep(0xE4, 0x05, 2); PeasantBvStep(0x72, 0x0B, 3); PeasantBvStep(0x39, 0x16, 4); PeasantBvStep(0x91, 0x2C, 5); PeasantBvStep(0xC5, 0x59, 6); PeasantBvStep(0xEF, 0xB3, 7);
      Entry(a, 0xEF, 0xB3);
    }
  }

  lemma EntriesF0(a: byte)
    requires 0xF0 <= a < 0xF4
    ensures Mul(a, InverseTable[a]) == 1
  {
    if a < 0xF2 { PairF0(a); } else { PairF2(a); }
  }

  lemma PairF0(a: byte)
    requires 0xF0 <= a < 0xF2
    ensures Mul(a, InverseTable[a]) == 1
  {
    if a == 0xF0 {
      PeasantBvStep(0xA4, 0x00, 0); PeasantBvStep(0x52, 0x01, 1); PeasantBvStep(0x29, 0x02, 2); PeasantBvStep(0x99, 0x05, 3); PeasantBvStep(0xC1, 0x0B, 4); PeasantBvStep(0xED, 0x16, 5); PeasantBvStep(0xFB, 0x2D, 6); PeasantBvStep(0xF0, 0x5B, 7);
      Entry(a, 0xF0, 0x5B);
    } else {
      PeasantBvStep(0x24, 0x00, 0); PeasantBvStep(0x12, 0x00, 1); PeasantBvStep(0x09, 0x01, 2); PeasantBvStep(0x89, 0x02, 3); PeasantBvStep(0xC9, 0x04, 4); PeasantBvStep(0xE9, 0x08, 5); PeasantBvStep(0xF9, 0x11, 6); PeasantBvStep(0xF1, 0x23, 7);
      Entry(a, 0xF1, 0x23);
    }
  }

  lemma PairF2(a: byte)
    requires 0xF2 <= a < 0xF4
    ensures Mul(a, InverseTable[a]) == 1
  {
    if a == 0xF2 {
      PeasantBvStep(0xBF, 0x00, 0); PeasantBvStep(0xD2, 0x00, 1); PeasantBvStep(0x69, 0x01, 2); PeasantBvStep(0xB9, 0x03, 3); PeasantBvStep(0xD1, 0x07, 4); PeasantBvStep(0xE5, 0x0E, 5); PeasantBvStep(0xFF, 0x1C, 6); PeasantBvStep(0xF2, 0x38, 7);
      Entry(a, 0xF2, 0x38);
    } else {
      PeasantBvStep(0x3F, 0x00, 0); PeasantBvStep(0x92, 0x00, 1); PeasantBvStep(0x49, 0x01, 2); PeasantBvStep(0xA9, 0x03, 3); PeasantBvStep(0xD9, 0x06, 4); PeasantBvStep(0xE1, 0x0D, 5); PeasantBvStep(0xFD, 0x1A, 6); PeasantBvStep(0xF3, 0x34, 7);
      Entry(a, 0xF3, 0x34);
    }
  }

  lemma EntriesF4(a: byte)
    requires 0xF4 <= a < 0xF8
    ensures Mul(a, InverseTable[a]) == 1
  {
    if a < 0xF6 { PairF4(a); } else { PairF6(a); }
  }

  lemma PairF4(a: byte)
    requires 0xF4 <= a < 0xF6
    ensures Mul(a, InverseTable[a]) == 1
  {
    if a == 0xF4 {
      PeasantBvStep(0x92, 0x00, 0); PeasantBvStep(0x49, 0x01, 1); PeasantBvStep(0xA9, 0x03, 2); PeasantBvStep(0xD9, 0x06, 3); PeasantBvStep(0xE1, 0x0D, 4); PeasantBvStep(0xFD, 0x1A, 5); PeasantBvStep(0xF3, 0x34, 6); PeasantBvStep(0xF4, 0x68, 7);
      Entry(a, 0xF4, 0x68);
    } else {
      PeasantBvStep(0x12, 0x00, 0); PeasantBvStep(0x09, 0x01, 1); PeasantBvStep(0x89, 0x02, 2); PeasantBvStep(0xC9, 0x04, 3); PeasantBvStep(0xE9, 0x08, 4); PeasantBvStep(0xF9, 0x11, 5); PeasantBvStep(0xF1, 0x23, 6); PeasantBvStep(0xF5, 0x46, 7);
      Entry(a, 0xF5, 0x46);
    }
  }

  lemma PairF6(a: byte)
    requires 0xF6 <= a < 0xF8
    ensures Mul(a, InverseTable[a]) == 1
  {
    if a == 0xF6 {
      PeasantBvStep(0x89, 0x00, 0); PeasantBvStep(0xC9, 0x00, 1); PeasantBvStep(0xE9, 0x00, 2); PeasantBvStep(0xF9, 0x00, 3); PeasantBvStep(0xF1, 0x00, 4); PeasantBvStep(0xF5, 0x00, 5); PeasantBvStep(0xF7, 0x01, 6); PeasantBvStep(0xF6, 0x03, 7);
      Entry(a, 0xF6, 0x03);
    } else {
      PeasantBvStep(0x09, 0x01, 0); PeasantBvStep(0x89, 0x02, 1); PeasantBvStep(0xC9, 0x04, 2); PeasantBvStep(0xE9, 0x08, 3); PeasantBvStep(0xF9, 0x11, 4); PeasantBvStep(0xF1, 0x23, 5); PeasantBvStep(0xF5, 0x46, 6); PeasantBvStep(0xF7, 0x8C, 7);
      Entry(a, 0xF7, 0x8C);
    }
  }

  lemma EntriesF8(a: byte)
    requires 0xF8 <= a < 0xFC
    ensures Mul(a, InverseTable[a]) == 1
  {
    if a < 0xFA { PairF8(a); } else { PairFA(a); }
  }

  lemma PairF8(a: byte)
    requires 0xF8 <= a < 0xFA
    ensures Mul(a, InverseTable[a]) == 1
  {
    if a == 0xF8 {
      PeasantBvStep(0xC8, 0x01, 0); PeasantBvStep(0x64, 0x03, 1); PeasantBvStep(0x32, 0x06, 2); PeasantBvStep(0x19, 0x0D, 3); PeasantBvStep(0x81, 0x1B, 4); PeasantBvStep(0xCD, 0x37, 5); PeasantBvStep(0xEB, 0x6E, 6); PeasantBvStep(0xF8, 0xDD, 7);
      Entry(a, 0xF8, 0xDD);
    } else {
      PeasantBvStep(0x48, 0x01, 0); PeasantBvStep(0x24, 0x02, 1); PeasantBvStep(0x12, 0x04, 2); PeasantBvStep(0x09, 0x09, 3); PeasantBvStep(0x89, 0x13, 4); PeasantBvStep(0xC9, 0x27, 5); PeasantBvStep(0xE9, 0x4E, 6); PeasantBvStep(0xF9, 0x9C, 7);
      Entry(a, 0xF9, 0x9C);
    }
  }

  lemma PairFA(a: byte)
    requires 0xFA <= a < 0xFC
    ensures Mul(a, InverseTable[a]) == 1
  {
    if a == 0xFA {
      PeasantBvStep(0xD3, 0x00, 0); PeasantBvStep(0xE4, 0x01, 1); PeasantBvStep(0x72, 0x03, 2); PeasantBvStep(0x39, 0x07, 3); PeasantBvStep(0x91, 0x0F, 4); PeasantBvStep(0xC5, 0x1F, 5); PeasantBvStep(0xEF, 0x3E, 6); PeasantBvStep(0xFA, 0x7D, 7);
      Entry(a, 0xFA, 0x7D);
    } else {
      PeasantBvStep(0x53, 0x01, 0); PeasantBvStep(0xA4, 0x02, 1); PeasantBvStep(0x52, 0x05, 2); PeasantBvStep(0x29, 0x0A, 3); PeasantBvStep(0x99, 0x14, 4); PeasantBvStep(0xC1, 0x28, 5); PeasantBvStep(0xED, 0x50, 6); PeasantBvStep(0xFB, 0xA0, 7);
      Entry(a, 0xFB, 0xA0);
    }
  }

  lemma EntriesFC(a: byte)
    requires 0xFC <= a < 0x100
    ensures Mul(a, InverseTable[a]) == 1
  {
    if a < 0xFE { PairFC(a); } else { PairFE(a); }
  }

  lemma PairFC(a: byte)
    requires 0xFC <= a < 0xFE
    ensures Mul(a, InverseTable[a]) == 1
  {
    if a == 0xFC {
      PeasantBvStep(0xFE, 0x01, 0); PeasantBvStep(0x7F, 0x03, 1); PeasantBvStep(0xB2, 0x06, 2); PeasantBvStep(0x59, 0x0C, 3); PeasantBvStep(0xA1, 0x19, 4); PeasantBvStep(0xDD, 0x33, 5); PeasantBvStep(0xE3, 0x66, 6); PeasantBvStep(0xFC, 0xCD, 7);
      Entry(a, 0xFC, 0xCD);
    } else {
      PeasantBvStep(0x7E, 0x00, 0); PeasantBvStep(0x3F, 0x00, 1); PeasantBvStep(0x92, 0x00, 2); PeasantBvStep(0x49, 0x01, 3); PeasantBvStep(0xA9, 0x03, 4); PeasantBvStep(0xD9, 0x06, 5); PeasantBvStep(0xE1, 0x0D, 6); PeasantBvStep(0xFD, 0x1A, 7);
      Entry(a, 0xFD, 0x1A);
    }
  }

  lemma PairFE(a: byte)
    requires 0xFE <= a < 0x100
    ensures Mul(a, InverseTable[a]) == 1
  {
    if a == 0xFE {
      PeasantBvStep(0xE5, 0x00, 0); PeasantBvStep(0xFF, 0x01, 1); PeasantBvStep(0xF2, 0x02, 2); PeasantBvStep(0x79, 0x04, 3); PeasantBvStep(0xB1, 0x08, 4); PeasantBvStep(0xD5, 0x10, 5); PeasantBvStep(0xE7, 0x20, 6); PeasantBvStep(0xFE, 0x41, 7);
      Entry(a, 0xFE, 0x41);
    } else {
      PeasantBvStep(0x65, 0x00, 0); PeasantBvStep(0xBF, 0x00, 1); PeasantBvStep(0xD2, 0x00, 2); PeasantBvStep(0x69, 0x01, 3); PeasantBvStep(0xB9, 0x03, 4); PeasantBvStep(0xD1, 0x07, 5); PeasantBvStep(0xE5, 0x0E, 6); PeasantBvStep(0xFF, 0x1C, 7);
      Entry(a, 0xFF, 0x1C);
    }
  }
}
