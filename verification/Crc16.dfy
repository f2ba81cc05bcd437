/** The CCITT checksum: by a table built bit by bit, and bit by bit over the data. */
module Crc16 {
  const POLY: bv16 := 0x1021

  function Xor(a: bv16, b: bv16): bv16 {
    a ^ b
  }

  function Up(a: bv16): bv16 {
    a << 1
  }

  predicate Top(a: bv16) {
    a & 0x8000 != 0
  }

  predicate Has(ch: bv8, mask: bv8) {
    ch & mask != 0
  }

  // The table

  /** One step of building a table entry: data and remainder move together. */
  function TableBit(poly: bv16, data: bv16, accum: bv16): bv16 {
    if Top(Xor(data, accum)) then Xor(Up(accum), poly) else Up(accum)
  }

  function Ups(data: bv16, j: nat): bv16 {
    if j == 0 then data else Up(Ups(data, j - 1))
  }

  /** The remainder after j steps. */
  function TableBits(poly: bv16, data: bv16, j: nat): bv16 {
    if j == 0 then 0 else TableBit(poly, Ups(data, j - 1), TableBits(poly, data, j - 1))
  }

  function HighByte(b: bv8): bv16 {
    b as bv16 << 8
  }

  function Entry(poly: bv16, b: bv8): bv16 {
    TableBits(poly, HighByte(b), 8)
  }

  method BuildTable16(poly: bv16, table: array<bv16>)
    requires table.Length == 256
    modifies table
    ensures forall b: bv8 :: table[b as int] == Entry(poly, b)
  {
    hide Xor, Up, Top, HighByte;
    for i := 0 to 256
      invariant forall b: bv8 :: b as int < i ==> table[b as int] == Entry(poly, b)
    {
      var data := HighByte(i as bv8);
      var accum: bv16 := 0;
      ghost var start := data;
      for j := 0 to 8
        invariant data == Ups(start, j) && accum == TableBits(poly, start, j)
      {
        if Top(Xor(data, accum)) {
          accum := Xor(Up(accum), poly);
        } else {
          accum := Up(accum);
        }
        data := Up(data);
      }
      table[i] := accum;
    }
  }

  // Bit by bit

  /** The remainder moves, then a bit of the data comes in. */
  function DataBit(crc: bv16, ch: bv8, mask: bv8): bv16 {
    var moved := if Top(crc) then Xor(Up(crc), POLY) else Up(crc);
    if Has(ch, mask) then Xor(moved, POLY) else moved
  }

  function Mask(j: nat): bv8 {
    if j == 0 then 0x80 else Mask(j - 1) >> 1
  }

  function DataBits(crc: bv16, ch: bv8, j: nat): bv16 {
    if j == 0 then crc else DataBit(DataBits(crc, ch, j - 1), ch, Mask(j - 1))
  }

  lemma Masks()
    ensures Mask(1) == 0x40 && Mask(2) == 0x20 && Mask(3) == 0x10 && Mask(4) == 8
    ensures Mask(5) == 4 && Mask(6) == 2 && Mask(7) == 1 && Mask(8) == 0
  {
    assert Mask(1) == 0x40;
    assert Mask(2) == 0x20;
    assert Mask(3) == 0x10;
    assert Mask(4) == 8;
    assert Mask(5) == 4;
    assert Mask(6) == 2;
    assert Mask(7) == 1;
  }

  method CrcCalculate(crc: bv16, ch: bv8) returns (r: bv16)
    ensures r == DataBits(crc, ch, 8)
  {
    hide Xor, Up, Top, Has;
    r := crc;
    var i: bv8 := 0x80;
    ghost var j := 0;
    Masks();
    while i != 0
      invariant 0 <= j <= 8 && i == Mask(j) && (i == 0 <==> j == 8) && r == DataBits(crc, ch, j)
      decreases 8 - j
    {
      if Top(r) {
        r := Xor(Up(r), POLY);
      } else {
        r := Up(r);
      }
      if Has(ch, i) { r := Xor(r, POLY); }
      i := i >> 1;
      j := j + 1;
    }
  }

  // The two agree

  function Index(crc: bv16, ch: bv8): bv8 {
    (crc >> 8) as bv8 ^ ch
  }

  /** Is the top bit of the data that the table would use the one that remainder and data byte give together? */
  ghost predicate SameBit(crc: bv16, ch: bv8, j: nat) {
    Top(Ups(HighByte(Index(crc, ch)), j)) <==> (Top(Ups(crc, j)) != Has(ch, Mask(j)))
  }

  lemma UpShift(a: bv16)
    ensures Up(a) == a << 1 && Up(a << 1) == a << 2 && Up(a << 2) == a << 3 && Up(a << 3) == a << 4
    ensures Up(a << 4) == a << 5 && Up(a << 5) == a << 6 && Up(a << 6) == a << 7 && Up(a << 7) == a << 8
  {
  }

  lemma UpsAre(a: bv16)
    ensures Ups(a, 1) == a << 1 && Ups(a, 2) == a << 2 && Ups(a, 3) == a << 3 && Ups(a, 4) == a << 4
    ensures Ups(a, 5) == a << 5 && Ups(a, 6) == a << 6 && Ups(a, 7) == a << 7 && Ups(a, 8) == a << 8
  {
    hide Up;
    UpShift(a);
    assert Ups(a, 1) == Up(Ups(a, 0));
    assert Ups(a, 3) == Up(Up(Ups(a, 1)));
    assert Ups(a, 5) == Up(Up(Ups(a, 3)));
    assert Ups(a, 7) == Up(Up(Ups(a, 5)));
  }

  lemma SameBits(crc: bv16, ch: bv8, j: nat)
    requires j < 8
    ensures SameBit(crc, ch, j)
  {
    if j < 4 { SameFront(crc, ch, j); } else { SameBack(crc, ch, j); }
  }

  lemma SameFront(crc: bv16, ch: bv8, j: nat)
    requires j < 4
    ensures SameBit(crc, ch, j)
  {
    hide Ups, Mask;
    UpsAre(crc);
    UpsAre(HighByte(Index(crc, ch)));
    Masks();
    assert Ups(crc, 0) == crc && Ups(HighByte(Index(crc, ch)), 0) == HighByte(Index(crc, ch)) && Mask(0) == 0x80 by {
      StartsAre(crc, HighByte(Index(crc, ch)));
    }
    if j == 0 {} else if j == 1 {} else if j == 2 {}
  }

  lemma SameBack(crc: bv16, ch: bv8, j: nat)
    requires 4 <= j < 8
    ensures SameBit(crc, ch, j)
  {
    hide Ups, Mask;
    UpsAre(crc);
    UpsAre(HighByte(Index(crc, ch)));
    Masks();
    if j == 4 {} else if j == 5 {} else if j == 6 {}
  }

  lemma StartsAre(a: bv16, b: bv16)
    ensures Ups(a, 0) == a && Ups(b, 0) == b && Mask(0) == 0x80
  {
  }

  /** One step keeps the two forms apart by the shifted remainder. */
  lemma BitStep(a: bv16, c: bv16, d: bv16, ch: bv8, mask: bv8)
    requires Top(d) <==> (Top(c) != Has(ch, mask))
    ensures DataBit(Xor(a, c), ch, mask) == Xor(TableBit(POLY, d, a), Up(c))
  {
    hide Has, Xor, Up, Top;
    TopXor(a, c);
    TopXor(d, a);
    UpXor(a, c);
    Shuffle(Up(a), Up(c));
    Twice(Xor(Up(a), Up(c)));
  }

  lemma TopXor(a: bv16, b: bv16)
    ensures Top(Xor(a, b)) <==> (Top(a) != Top(b))
  {
  }

  lemma UpXor(a: bv16, b: bv16)
    ensures Up(Xor(a, b)) == Xor(Up(a), Up(b))
  {
  }

  lemma Shuffle(a: bv16, b: bv16)
    ensures Xor(Xor(a, b), POLY) == Xor(Xor(a, POLY), b)
  {
  }

  lemma Twice(a: bv16)
    ensures Xor(Xor(a, POLY), POLY) == a
  {
  }

  lemma {:induction false} BitsAgree(crc: bv16, ch: bv8, j: nat)
    requires j <= 8
    ensures DataBits(crc, ch, j) == Xor(TableBits(POLY, HighByte(Index(crc, ch)), j), Ups(crc, j))
  {
    hide Xor, Up, Top, Has, HighByte, Index, DataBit, TableBit, Mask;
    if j == 0 {
      XorZero(crc);
    } else {
      BitsAgree(crc, ch, j - 1);
      SameBits(crc, ch, j - 1);
      var d := HighByte(Index(crc, ch));
      BitStep(TableBits(POLY, d, j - 1), Ups(crc, j - 1), Ups(d, j - 1), ch, Mask(j - 1));
    }
  }

  lemma XorZero(a: bv16)
    ensures Xor(0, a) == a
  {
  }

  /** Taking in a byte by the table. */
  function ByTable(crc: bv16, ch: bv8): bv16 {
    Xor(crc << 8, Entry(POLY, Index(crc, ch)))
  }

  /** Taking in a byte by the table is taking in its bits. */
  lemma ByteAgrees(crc: bv16, ch: bv8)
    ensures ByTable(crc, ch) == DataBits(crc, ch, 8)
  {
    hide Xor, Ups, TableBits, HighByte, Index, DataBits;
    BitsAgree(crc, ch, 8);
    UpsAre(crc);
    XorCommutes(crc << 8, Entry(POLY, Index(crc, ch)));
  }

  lemma XorCommutes(a: bv16, b: bv16)
    ensures Xor(a, b) == Xor(b, a)
  {
  }

  // Whole messages

  function Fold(crc: bv16, data: seq<bv8>): bv16 {
    if data == [] then crc else DataBits(Fold(crc, data[..|data| - 1]), data[|data| - 1], 8)
  }

  lemma FoldMore(crc: bv16, data: seq<bv8>, i: nat)
    requires i < |data|
    ensures Fold(crc, data[..i + 1]) == DataBits(Fold(crc, data[..i]), data[i], 8) && Fold(crc, data[..0]) == crc
  {
    hide DataBits;
    assert data[..i + 1][..i] == data[..i];
  }

  /** By the table, from 0: the same as every bit on its own. */
  method Crc16(data: seq<bv8>) returns (accum: bv16)
    ensures accum == Fold(0, data)
  {
    hide Xor, Index, DataBits, Entry;
    accum := 0;
    var table := new bv16[256](_ => 0);
    BuildTable16(POLY, table);
    for i := 0 to |data|
      invariant accum == Fold(0, data[..i])
      invariant forall b: bv8 :: table[b as int] == Entry(POLY, b)
    {
      FoldMore(0, data, i);
      ByteAgrees(accum, data[i]);
      accum := Xor(accum << 8, table[Index(accum, data[i]) as int]);
    }
    assert data[..|data|] == data;
  }

  /** Bit by bit, from all ones. */
  method CrcCcitt(data: seq<bv8>) returns (crc: bv16)
    ensures crc == Fold(0xffff, data)
  {
    hide DataBits;
    crc := 0xffff;
    for i := 0 to |data|
      invariant crc == Fold(0xffff, data[..i])
    {
      FoldMore(0xffff, data, i);
      crc := CrcCalculate(crc, data[i]);
    }
    assert data[..|data|] == data;
  }

  // What the generator is

  const DIGITS: seq<bv8> := [0x31, 0x32, 0x33, 0x34, 0x35, 0x36, 0x37, 0x38, 0x39]  // "123456789"

  /** Eight steps as one expression. */
  lemma ByteSteps(crc: bv16, ch: bv8)
    ensures DataBits(crc, ch, 8) ==
      DataBit(DataBit(DataBit(DataBit(DataBit(DataBit(DataBit(DataBit(crc, ch, 0x80), ch, 0x40), ch, 0x20), ch, 0x10), ch, 8), ch, 4), ch, 2), ch, 1)
  {
    hide DataBit;
    Masks();
    assert Mask(0) == 0x80;
    hide Mask;
    assert DataBits(crc, ch, 2) == DataBit(DataBit(crc, ch, 0x80), ch, 0x40) by {
      assert DataBits(crc, ch, 1) == DataBit(DataBits(crc, ch, 0), ch, Mask(0));
    }
    assert DataBits(crc, ch, 4) == DataBit(DataBit(DataBits(crc, ch, 2), ch, 0x20), ch, 0x10) by {
      assert DataBits(crc, ch, 3) == DataBit(DataBits(crc, ch, 2), ch, Mask(2));
    }
    assert DataBits(crc, ch, 6) == DataBit(DataBit(DataBits(crc, ch, 4), ch, 8), ch, 4) by {
      assert DataBits(crc, ch, 5) == DataBit(DataBits(crc, ch, 4), ch, Mask(4));
    }
    assert DataBits(crc, ch, 7) == DataBit(DataBits(crc, ch, 6), ch, Mask(6));
  }

  lemma FromZero()
    ensures DataBits(0x0, 0x31, 8) == 0x2672
    ensures DataBits(0x2672, 0x32, 8) == 0x20b5
    ensures DataBits(0x20b5, 0x33, 8) == 0x9752
    ensures DataBits(0x9752, 0x34, 8) == 0xd789
    ensures DataBits(0xd789, 0x35, 8) == 0x546c
    ensures DataBits(0x546c, 0x36, 8) == 0x20e4
    ensures DataBits(0x20e4, 0x37, 8) == 0x86d6
    ensures DataBits(0x86d6, 0x38, 8) == 0x9015
    ensures DataBits(0x9015, 0x39, 8) == 0x31c3
  {
    ByteSteps(0x0, 0x31);
    ByteSteps(0x2672, 0x32);
    ByteSteps(0x20b5, 0x33);
    ByteSteps(0x9752, 0x34);
    ByteSteps(0xd789, 0x35);
    ByteSteps(0x546c, 0x36);
    ByteSteps(0x20e4, 0x37);
    ByteSteps(0x86d6, 0x38);
    ByteSteps(0x9015, 0x39);
    hide DataBits;
  }

  lemma FromOnes()
    ensures DataBits(0xffff, 0x31, 8) == 0xc782
    ensures DataBits(0xc782, 0x32, 8) == 0x3dba
    ensures DataBits(0x3dba, 0x33, 8) == 0x5bce
    ensures DataBits(0x5bce, 0x34, 8) == 0x5349
    ensures DataBits(0x5349, 0x35, 8) == 0x4560
    ensures DataBits(0x4560, 0x36, 8) == 0x2ef4
    ensures DataBits(0x2ef4, 0x37, 8) == 0x7718
    ensures DataBits(0x7718, 0x38, 8) == 0xa12b
    ensures DataBits(0xa12b, 0x39, 8) == 0x29b1
  {
    ByteSteps(0xffff, 0x31);
    ByteSteps(0xc782, 0x32);
    ByteSteps(0x3dba, 0x33);
    ByteSteps(0x5bce, 0x34);
    ByteSteps(0x5349, 0x35);
    ByteSteps(0x4560, 0x36);
    ByteSteps(0x2ef4, 0x37);
    ByteSteps(0x7718, 0x38);
    ByteSteps(0xa12b, 0x39);
    hide DataBits;
  }

  lemma FoldDigits(crc: bv16)
    ensures Fold(crc, DIGITS) == DataBits(DataBits(DataBits(DataBits(DataBits(DataBits(DataBits(DataBits(DataBits(crc,
      0x31, 8), 0x32, 8), 0x33, 8), 0x34, 8), 0x35, 8), 0x36, 8), 0x37, 8), 0x38, 8), 0x39, 8)
  {
    hide DataBits, Fold;
    FoldMore(crc, DIGITS, 0);
    FoldMore(crc, DIGITS, 1);
    FoldMore(crc, DIGITS, 2);
    FoldMore(crc, DIGITS, 3);
    FoldMore(crc, DIGITS, 4);
    FoldMore(crc, DIGITS, 5);
    FoldMore(crc, DIGITS, 6);
    FoldMore(crc, DIGITS, 7);
    FoldMore(crc, DIGITS, 8);
    assert DIGITS[..9] == DIGITS;
  }

  /** The check values published for the generator x^16 + x^12 + x^5 + 1: those of "123456789", from 0 and from all ones. */
  lemma CheckValues()
    ensures Fold(0, DIGITS) == 0x31c3 && Fold(0xffff, DIGITS) == 0x29b1
  {
    hide DataBits, Fold;
    FoldDigits(0);
    FoldDigits(0xffff);
    FromZero();
    FromOnes();
  }
}
