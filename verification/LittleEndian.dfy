/** Numbers as bytes, the lowest first. */
module LittleEndian {
  import opened Bytes

  function Pow256(n: nat): (r: nat)
    ensures r > 0
  {
    if n == 0 then 1 else 256 * Pow256(n - 1)
  }

  function ToLe(y: nat, n: nat): (r: seq<byte>)
    ensures |r| == n
    decreases n
  {
    if n == 0 then [] else [y % 256] + ToLe(y / 256, n - 1)
  }

  function FromLe(b: seq<byte>): (r: nat)
    ensures r < Pow256(|b|)
    decreases |b|
  {
    if |b| == 0 then 0 else b[0] as nat + 256 * FromLe(b[1..])
  }

  lemma {:induction false} LeRoundTrip(y: nat, n: nat)
    requires y < Pow256(n)
    ensures FromLe(ToLe(y, n)) == y
    decreases n
  {
    if n > 0 {
      LeRoundTrip(y / 256, n - 1);
      assert ToLe(y, n)[1..] == ToLe(y / 256, n - 1);
    }
  }

  lemma {:induction false} LeLast(y: nat, n: nat)
    requires 0 < n && 2 * y < Pow256(n)
    ensures ToLe(y, n)[n - 1] < 128
    decreases n
  {
    if n > 1 { LeLast(y / 256, n - 1); }
  }

  lemma Regrouped(d: int, p: int)
    ensures 256 * (d * p) == d * (256 * p)
  {
  }

  /** FromLe with its top byte changed. */
  lemma {:induction false} LeTop(b: seq<byte>, c: byte)
    requires 0 < |b|
    ensures FromLe(b[|b| - 1 := c]) == FromLe(b) + (c as int - b[|b| - 1] as int) * Pow256(|b| - 1)
    decreases |b|
  {
    var n := |b| - 1;
    if n > 0 {
      LeTop(b[1..], c);
      assert b[n := c][1..] == b[1..][n - 1 := c];
      Regrouped(c as int - b[n] as int, Pow256(n - 1));
    } else {
      assert b[n := c][1..] == b[1..];
    }
  }

  lemma {:induction false} LeHalf(b: seq<byte>)
    requires 0 < |b| && b[|b| - 1] < 128
    ensures 2 * FromLe(b) < Pow256(|b|)
    decreases |b|
  {
    if |b| > 1 {
      var rest := b[1..];
      assert rest[|rest| - 1] == b[|b| - 1] && |rest| == |b| - 1;
      LeHalf(rest);
      assert FromLe(b) == b[0] + 256 * FromLe(rest) && Pow256(|b|) == 256 * Pow256(|rest|);
      hide *;
    }
  }

  /** And bytes are those of the number they are read as. */
  lemma {:induction false} LeBytes(b: seq<byte>)
    ensures ToLe(FromLe(b), |b|) == b
    decreases |b|
  {
    if b != [] {
      LeBytes(b[1..]);
      var low, rest := b[0] as nat, FromLe(b[1..]);
      assert FromLe(b) % 256 == low && FromLe(b) / 256 == rest by { SplitByte(low, rest); }
      assert b == [b[0]] + b[1..];
    }
  }

  lemma SplitByte(low: nat, rest: nat)
    requires low < 256
    ensures (low + 256 * rest) % 256 == low && (low + 256 * rest) / 256 == rest
  {
  }

  lemma {:induction false} LeZero(n: nat)
    ensures ToLe(0, n) == seq(n, i => 0)
  {
    if n > 0 { LeZero(n - 1); }
  }

  /** A number of one byte. */
  lemma LeSmall(y: byte, n: nat)
    requires n > 0
    ensures ToLe(y, n) == [y] + seq(n - 1, i => 0)
  {
    LeZero(n - 1);
  }

  /** The lowest byte comes first, whatever the number. */
  lemma LeFour(a: byte, b: byte, c: byte, d: byte)
    ensures FromLe([a, b, c, d]) == a + 0x100 * b + 0x1_0000 * c + 0x100_0000 * d
  {
    assert [a, b, c, d][1..] == [b, c, d] && [b, c, d][1..] == [c, d] && [c, d][1..] == [d] && [d][1..] == [];
    assert FromLe([d]) == d;
    assert FromLe([c, d]) == c + 256 * d;
    assert FromLe([b, c, d]) == b + 256 * FromLe([c, d]);
  }
}
