/** The laws asked of the codecs can be met: a code that does meet them all. */
module CodecWitness {
  import opened Bytes
  import opened BsPatch
  import opened ImageFormat
  import Encoding
  import ImageDiff
  import ImageRead

  /** Every byte with a 1 in front, and a 0 behind the last. */
  function Pack(d: seq<byte>): seq<byte> {
    if d == [] then [0] else [1, d[0]] + Pack(d[1..])
  }

  /** What was packed at the front of some bytes, and how many bytes that took. */
  function Unpack(x: seq<byte>): Option<(seq<byte>, nat)> {
    if x == [] then None
    else if x[0] == 0 then Some(([], 1))
    else if |x| == 1 then None
    else match Unpack(x[2..])
      case None => None
      case Some(r) => Some(([x[1]] + r.0, 2 + r.1))
  }

  lemma {:induction false} PackLength(d: seq<byte>)
    ensures |Pack(d)| == 2 * |d| + 1
  {
    if d != [] { PackLength(d[1..]); }
  }

  lemma UnpackNone(rest: seq<byte>)
    ensures Unpack(Pack([]) + rest) == Some(([], 1)) && |Pack([])| == 1
  {
  }

  lemma UnpackOne(b: byte, x: seq<byte>)
    requires Unpack(x).Some?
    ensures Unpack([1, b] + x) == Some(([b] + Unpack(x).value.0, 2 + Unpack(x).value.1))
  {
    assert ([1, b] + x)[2..] == x;
  }

  lemma {:induction false} UnpackPacked(d: seq<byte>, rest: seq<byte>)
    ensures Unpack(Pack(d) + rest) == Some((d, |Pack(d)|))
  {
    hide Unpack;
    if d == [] {
      UnpackNone(rest);
    } else {
      UnpackPacked(d[1..], rest);
      UnpackOne(d[0], Pack(d[1..]) + rest);
      assert Pack(d) + rest == [1, d[0]] + (Pack(d[1..]) + rest);
      assert [d[0]] + d[1..] == d;
    }
  }

  lemma {:induction false} UnpackEnds(x: seq<byte>)
    requires Unpack(x).Some?
    ensures Unpack(x).value.1 <= |x| && Unpack(x[..Unpack(x).value.1]) == Unpack(x)
  {
    if x[0] != 0 {
      UnpackEnds(x[2..]);
      assert x[..Unpack(x).value.1][2..] == x[2..][..Unpack(x[2..]).value.1];
    }
  }

  const BZIP := Bzip(Pack, x => match Unpack(x) case None => Stream([], true) case Some(r) => Stream(r.0, false))
  const ZLIB := Zlib(Unpack, (p: Params, d) => Pack(d))

  lemma LawsCanBeMet()
    ensures SelfDelimiting(BZIP) && ImageDiff.Modest(BZIP) && ImageRead.StreamEnds(ZLIB)
  {
    forall d, rest ensures BZIP.expand(BZIP.compress(d) + rest) == Stream(d, false) { UnpackPacked(d, rest); }
    forall d: seq<byte> | |d| < 64 * ImageDiff.TWO50 ensures |BZIP.compress(d)| < Encoding.TWO63 { PackLength(d); }
    forall x | ZLIB.inflate(x).Some?
      ensures ZLIB.inflate(x).value.1 <= |x| && ZLIB.inflate(x[..ZLIB.inflate(x).value.1]) == ZLIB.inflate(x)
    {
      UnpackEnds(x);
    }
  }
}
