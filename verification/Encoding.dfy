/** Little-endian integers: the sign-magnitude form of the binary patch and the two's complement form of the image patch. */
module Encoding {
  import opened Bytes
  import opened LittleEndian

  const TWO31: int := 0x8000_0000
  const TWO32: int := 0x1_0000_0000
  const TWO63: int := 0x8000_0000_0000_0000
  const TWO64: int := 0x1_0000_0000_0000_0000

  lemma Powers()
    ensures Pow256(4) == TWO32 && Pow256(7) == 0x100_0000_0000_0000 && Pow256(8) == TWO64
  {
    assert Pow256(2) == 0x1_0000;
    assert Pow256(4) == 256 * Pow256(3);
    assert Pow256(6) == 256 * Pow256(5);
  }

  /** Eight bytes: the magnitude, with the sign in the top bit. */
  function OfftOut(x: int): (b: seq<byte>)
    ensures |b| == 8
  {
    var b := ToLe(if x < 0 then -x else x, 8);
    if x < 0 && b[7] < 128 then b[7 := (b[7] as int) + 128] else b
  }

  function OfftIn(b: seq<byte>): (x: int)
    requires |b| == 8
    ensures -TWO63 < x < TWO63
  {
    Powers();
    LeTop(b, b[7] as int % 128);
    LeHalf(b[7 := b[7] as int % 128]);
    var y := FromLe(b[7 := b[7] as int % 128]);
    if b[7] >= 128 then -(y as int) else y
  }

  /** The sign-magnitude form brings back exactly the numbers whose magnitude fits 63 bits. */
  lemma OfftRoundTrip(x: int)
    ensures OfftIn(OfftOut(x)) == x <==> -TWO63 < x < TWO63
  {
    if -TWO63 < x < TWO63 {
      Powers();
      var y := if x < 0 then -x else x;
      var b := ToLe(y, 8);
      LeLast(y, 8);
      LeRoundTrip(y, 8);
      assert b[7 := b[7]] == b;
      if x < 0 {
        assert OfftOut(x)[7 := b[7]] == b;
      }
    }
  }

  /** Four and eight bytes, two's complement. */
  function Write4(value: int): (b: seq<byte>)
    ensures |b| == 4
  {
    ToLe(value % TWO32, 4)
  }

  function Write8(value: int): (b: seq<byte>)
    ensures |b| == 8
  {
    ToLe(value % TWO64, 8)
  }

  function Read4(b: seq<byte>): (x: int)
    requires |b| == 4
    ensures -TWO31 <= x < TWO31
  {
    Powers();
    var y := FromLe(b);
    if y >= TWO31 then y - TWO32 else y
  }

  function Read8(b: seq<byte>): (x: int)
    requires |b| == 8
    ensures -TWO63 <= x < TWO63
  {
    Powers();
    var y := FromLe(b);
    if y >= TWO63 then y - TWO64 else y
  }

  lemma Write4Read4(value: int)
    ensures Read4(Write4(value)) == value <==> -TWO31 <= value < TWO31
  {
    Powers();
    LeRoundTrip(value % TWO32, 4);
  }

  lemma Write8Read8(value: int)
    ensures Read8(Write8(value)) == value <==> -TWO63 <= value < TWO63
  {
    Powers();
    LeRoundTrip(value % TWO64, 8);
  }

  /** Only the four bytes written for a number are read as it. */
  lemma Read4Exactly(b: seq<byte>, value: int)
    requires |b| == 4 && 0 <= value < TWO31
    ensures Read4(b) == value <==> b == Write4(value)
  {
    Powers();
    LeBytes(b);
    Write4Read4(value);
  }

  lemma OfftSmall(x: int)
    requires 0 < x < 128
    ensures OfftOut(x) == [x, 0, 0, 0, 0, 0, 0, 0] && OfftOut(-x) == [x, 0, 0, 0, 0, 0, 0, 0x80] && OfftOut(0) == [0, 0, 0, 0, 0, 0, 0, 0]
  {
    LeSmall(x, 8);
    LeZero(8);
  }

  lemma WriteSmall(x: byte)
    ensures Write4(x) == [x, 0, 0, 0] && Write8(x) == [x, 0, 0, 0, 0, 0, 0, 0]
  {
    LeSmall(x, 4);
    LeSmall(x, 8);
    hide ToLe;
    assert x % TWO32 == x && x % TWO64 == x;
    assert [x] + seq(3, i => 0) == [x, 0, 0, 0];
    assert [x] + seq(7, i => 0) == [x, 0, 0, 0, 0, 0, 0, 0];
  }
}
