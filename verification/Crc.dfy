/** The checksum engines: each fast form against the plain one. */
module Crc {

  // CRC-32

  /** One bit of the CRC of section 8 of RFC 1952. */
  function Bit32(c: bv32): bv32 {
    if c & 1 == 1 then 0xedb88320 ^ (c >> 1) else c >> 1
  }

  function Bits32(c: bv32): bv32 {
    Bit32(Bit32(Bit32(Bit32(Bit32(Bit32(Bit32(Bit32(c))))))))
  }

  function Low(c: bv32): bv8 {
    (c & 0xff) as bv8
  }

  function Xor(a: bv32, b: bv32): bv32 {
    a ^ b
  }

  function Down(c: bv32): bv32 {
    c >> 8
  }

  function Mix(c: bv32, b: bv8): bv32 {
    c ^ b as bv32
  }

  /** Takes in one byte by a table of 256 words. */
  function Update(tab: bv8 -> bv32, crc: bv32, b: bv8): bv32 {
    Xor(tab(Low(Mix(crc, b))), Down(crc))
  }

  function Updates(tab: bv8 -> bv32, crc: bv32, data: seq<bv8>): bv32 {
    if data == [] then crc else Update(tab, Updates(tab, crc, data[..|data| - 1]), data[|data| - 1])
  }

  /** The checksum without a table: every bit of the data on its own. */
  function BitwiseUpdates(crc: bv32, data: seq<bv8>): bv32 {
    if data == [] then crc else Bits32(Mix(BitwiseUpdates(crc, data[..|data| - 1]), data[|data| - 1]))
  }

  /** The table holds what eight bit steps make of each byte. */
  ghost predicate Tabled(tab: bv8 -> bv32) {
    forall b: bv8 :: tab(b) == Bits32(b as bv32)
  }

  lemma ShiftXor(a: bv32, b: bv32)
    ensures (a ^ b) >> 1 == (a >> 1) ^ (b >> 1)
    ensures ((a ^ b) & 1 == 1) == ((a & 1 == 1) != (b & 1 == 1))
  {
  }

  lemma XorCommutes(a: bv32, b: bv32)
    ensures Xor(a, b) == Xor(b, a)
  {
  }

  predicate Odd(c: bv32) {
    c & 1 == 1
  }

  lemma BothOdd(a: bv32, b: bv32)
    requires Odd(a) && Odd(b)
    ensures Bit32(Xor(a, b)) == Xor(Bit32(a), Bit32(b))
  {
    ShiftXor(a, b);
  }

  lemma OneOdd(a: bv32, b: bv32)
    requires Odd(a) && !Odd(b)
    ensures Bit32(Xor(a, b)) == Xor(Bit32(a), Bit32(b))
  {
    ShiftXor(a, b);
  }

  lemma BothEven(a: bv32, b: bv32)
    requires !Odd(a) && !Odd(b)
    ensures Bit32(Xor(a, b)) == Xor(Bit32(a), Bit32(b))
  {
    ShiftXor(a, b);
  }

  lemma BitLinear(a: bv32, b: bv32)
    ensures Bit32(Xor(a, b)) == Xor(Bit32(a), Bit32(b))
  {
    hide Bit32, Xor, Odd;
    if Odd(a) && Odd(b) {
      BothOdd(a, b);
    } else if Odd(a) {
      OneOdd(a, b);
    } else if Odd(b) {
      OneOdd(b, a);
      XorCommutes(a, b);
      XorCommutes(Bit32(a), Bit32(b));
    } else {
      BothEven(a, b);
    }
  }

  function Steps32(c: bv32, n: nat): bv32 {
    if n == 0 then c else Bit32(Steps32(c, n - 1))
  }

  lemma StepsEight(c: bv32)
    ensures Steps32(c, 8) == Bits32(c)
  {
    hide Bit32;
    assert Steps32(c, 1) == Bit32(Steps32(c, 0));
    assert Steps32(c, 3) == Bit32(Bit32(Steps32(c, 1)));
    assert Steps32(c, 5) == Bit32(Bit32(Steps32(c, 3)));
    assert Steps32(c, 7) == Bit32(Bit32(Steps32(c, 5)));
  }

  lemma {:induction false} StepsLinear(a: bv32, b: bv32, n: nat)
    ensures Steps32(Xor(a, b), n) == Xor(Steps32(a, n), Steps32(b, n))
  {
    hide Bit32, Xor;
    if n > 0 {
      StepsLinear(a, b, n - 1);
      BitLinear(Steps32(a, n - 1), Steps32(b, n - 1));
    }
  }

  lemma Halves(c: bv32)
    ensures c == Xor(c & 0xff, c & 0xffffff00) && Low(c) as bv32 == c & 0xff
  {
  }

  lemma HighMoves(c: bv32)
    ensures Bits32(c & 0xffffff00) == Down(c)
  {
    assert Bits32(c & 0xffffff00) == c >> 8;
  }

  /** Eight bit steps act on the low byte and merely move the others. */
  lemma BitsSplit(c: bv32)
    ensures Bits32(c) == Xor(Bits32(Low(c) as bv32), Down(c))
  {
    hide Bits32, Low, Xor, Down, Steps32;
    Halves(c);
    HighMoves(c);
    StepsLinear(c & 0xff, c & 0xffffff00, 8);
    StepsEight(c);
    StepsEight(c & 0xff);
    StepsEight(c & 0xffffff00);
  }

  /** A table filled as section 8 of RFC 1952 says takes in a byte as its eight bits would be. */
  lemma UpdateIsBits(tab: bv8 -> bv32, crc: bv32, b: bv8)
    requires Tabled(tab)
    ensures Update(tab, crc, b) == Bits32(Mix(crc, b))
  {
    hide Bits32, Low, Xor, Down, Mix;
    BitsSplit(Mix(crc, b));
    MixDown(crc, b);
  }

  lemma MixDown(c: bv32, b: bv8)
    ensures Down(Mix(c, b)) == Down(c)
  {
  }

  /** So the bytewise form is the bitwise checksum. */
  lemma {:induction false} TableIsBitwise(tab: bv8 -> bv32, crc: bv32, data: seq<bv8>)
    requires Tabled(tab)
    ensures Updates(tab, crc, data) == BitwiseUpdates(crc, data)
  {
    hide Bits32, Update, Mix, Tabled;
    if data != [] {
      TableIsBitwise(tab, crc, data[..|data| - 1]);
      UpdateIsBits(tab, BitwiseUpdates(crc, data[..|data| - 1]), data[|data| - 1]);
    }
  }

  // A word at a time

  /** The word that four bytes are on a little-endian machine. */
  function Word(b0: bv8, b1: bv8, b2: bv8, b3: bv8): bv32 {
    b0 as bv32 | (b1 as bv32 << 8) | (b2 as bv32 << 16) | (b3 as bv32 << 24)
  }

  /** Takes in a zero byte. */
  function Zero(tab: bv8 -> bv32, crc: bv32): bv32 {
    Xor(tab(Low(crc)), Down(crc))
  }

  lemma LowXor(c: bv32, w: bv32)
    ensures Low(Xor(c, w)) == Low(Mix(c, Low(w)))
  {
  }

  lemma DownXor(c: bv32, w: bv32)
    ensures Down(Xor(c, w)) == Xor(Down(c), Down(w))
  {
  }

  lemma XorAssociates(a: bv32, b: bv32, c: bv32)
    ensures Xor(a, Xor(b, c)) == Xor(Xor(a, b), c)
  {
  }

  /** With a word mixed in beforehand, a zero byte does what its low byte does, and the rest of the word moves down. */
  lemma ZeroStep(tab: bv8 -> bv32, c: bv32, w: bv32)
    ensures Zero(tab, Xor(c, w)) == Xor(Update(tab, c, Low(w)), Down(w))
  {
    hide Xor, Low, Down, Mix;
    LowXor(c, w);
    DownXor(c, w);
    XorAssociates(tab(Low(Xor(c, w))), Down(c), Down(w));
  }

  lemma WordBytes(b0: bv8, b1: bv8, b2: bv8, b3: bv8)
    ensures var w := Word(b0, b1, b2, b3);
      && Low(w) == b0 && Low(Down(w)) == b1 && Low(Down(Down(w))) == b2 && Low(Down(Down(Down(w)))) == b3
      && Down(Down(Down(Down(w)))) == 0
  {
  }

  function Zeros(tab: bv8 -> bv32, c: bv32): bv32 {
    Zero(tab, Zero(tab, Zero(tab, Zero(tab, c))))
  }

  function Four(tab: bv8 -> bv32, c: bv32, b0: bv8, b1: bv8, b2: bv8, b3: bv8): bv32 {
    Update(tab, Update(tab, Update(tab, Update(tab, c, b0), b1), b2), b3)
  }

  /** Mixing in a word and taking in four zero bytes is taking in the word's four bytes. */
  lemma WordStep(tab: bv8 -> bv32, c: bv32, b0: bv8, b1: bv8, b2: bv8, b3: bv8)
    ensures Zeros(tab, Xor(c, Word(b0, b1, b2, b3))) == Four(tab, c, b0, b1, b2, b3)
  {
    hide Zero, Update, Word, Low, Xor, Down;
    var w := Word(b0, b1, b2, b3);
    WordBytes(b0, b1, b2, b3);
    var c1 := Update(tab, c, b0);
    var c2 := Update(tab, c1, b1);
    var c3 := Update(tab, c2, b2);
    ZeroStep(tab, c, w);
    ZeroStep(tab, c1, Down(w));
    ZeroStep(tab, c2, Down(Down(w)));
    ZeroStep(tab, c3, Down(Down(Down(w))));
    XorZero(Update(tab, c3, b3));
  }

  lemma XorZero(c: bv32)
    ensures Xor(c, 0) == c
  {
  }

  /** The checksum proper, both ends inverted. */
  function Checksum(tab: bv8 -> bv32, crc: bv32, data: seq<bv8>): bv32 {
    Xor(Updates(tab, Xor(crc, 0xffffffff), data), 0xffffffff)
  }

  method IavbCrc32(tab: bv8 -> bv32, crcIn: bv32, buf: seq<bv8>) returns (crc: bv32)
    ensures crc == Checksum(tab, crcIn, buf)
  {
    hide Xor, Update, Updates;
    crc := Xor(crcIn, 0xffffffff);
    UpdatesNone(tab, crc, buf);
    var p := 0;
    while p < |buf|
      invariant p <= |buf| && crc == Updates(tab, Xor(crcIn, 0xffffffff), buf[..p])
    {
      UpdatesMore(tab, Xor(crcIn, 0xffffffff), buf, p);
      crc := Update(tab, crc, buf[p]);
      p := p + 1;
    }
    assert buf[..p] == buf;
    crc := Xor(crc, 0xffffffff);
  }

  lemma UpdatesMore(tab: bv8 -> bv32, crc: bv32, data: seq<bv8>, p: nat)
    requires p < |data|
    ensures Updates(tab, crc, data[..p + 1]) == Update(tab, Updates(tab, crc, data[..p]), data[p])
  {
    hide Update;
    assert data[..p + 1][..p] == data[..p];
  }

  lemma UpdatesFour(tab: bv8 -> bv32, crc: bv32, data: seq<bv8>, p: nat)
    requires p + 4 <= |data|
    ensures Updates(tab, crc, data[..p + 4]) == Four(tab, Updates(tab, crc, data[..p]), data[p], data[p + 1], data[p + 2], data[p + 3])
  {
    hide Update, Updates;
    UpdatesMore(tab, crc, data, p);
    UpdatesMore(tab, crc, data, p + 1);
    UpdatesMore(tab, crc, data, p + 2);
    UpdatesMore(tab, crc, data, p + 3);
  }

  /** Bytes until the address is a multiple of four, then whole words, then the bytes behind them;
      base is the address of the first byte. */
  method Crc32Le(tab: bv8 -> bv32, crcIn: bv32, buf: seq<bv8>, base: nat) returns (crc: bv32)
    ensures crc == Checksum(tab, crcIn, buf)
  {
    hide Xor, Update, Updates, Zero, Zeros, Four, Word;
    crc := Xor(crcIn, 0xffffffff);
    ghost var start := crc;
    UpdatesNone(tab, start, buf);
    var b: nat, len: nat := 0, |buf|;
    while (base + b) % 4 != 0 && len != 0
      invariant b + len == |buf| && crc == Updates(tab, start, buf[..b])
      decreases len
    {
      UpdatesMore(tab, start, buf, b);
      crc := Update(tab, crc, buf[b]);
      b := b + 1;
      len := len - 1;
    }
    if len >= 4 {
      var saveLen := len % 4;
      len := len / 4;
      while len != 0
        invariant b + 4 * len + saveLen == |buf| && crc == Updates(tab, start, buf[..b])
        decreases len
      {
        UpdatesFour(tab, start, buf, b);
        WordStep(tab, crc, buf[b], buf[b + 1], buf[b + 2], buf[b + 3]);
        crc := Xor(crc, Word(buf[b], buf[b + 1], buf[b + 2], buf[b + 3]));
        crc := Zeros(tab, crc);
        b := b + 4;
        len := len - 1;
      }
      len := saveLen;
    }
    while len != 0
      invariant b + len == |buf| && crc == Updates(tab, start, buf[..b])
      decreases len
    {
      UpdatesMore(tab, start, buf, b);
      crc := Update(tab, crc, buf[b]);
      b := b + 1;
      len := len - 1;
    }
    assert buf[..b] == buf;
    crc := Xor(crc, 0xffffffff);
  }

  lemma UpdatesNone(tab: bv8 -> bv32, crc: bv32, data: seq<bv8>)
    ensures Updates(tab, crc, data[..0]) == crc
  {
  }
}
