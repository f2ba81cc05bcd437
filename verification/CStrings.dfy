/** C strings in character arrays: bounded copy, bounded append, and cutting into lines. */
module CStrings {
  import opened Bytes
  import opened Slices

  const NUL: char := '\0'

  /** Where the string in a buffer ends: at its first NUL, or at its end. */
  function Length(buf: seq<char>): (n: nat)
    ensures n <= |buf| && NUL !in buf[..n] && (n < |buf| ==> buf[n] == NUL)
  {
    if buf == [] || buf[0] == NUL then 0
    else
      var n := Length(buf[1..]);
      assert buf[..n + 1] == [buf[0]] + buf[1..][..n];
      n + 1
  }

  function Text(buf: seq<char>): (s: seq<char>)
    ensures NUL !in s
  {
    buf[..Length(buf)]
  }

  lemma {:induction false} LengthIs(buf: seq<char>, n: nat)
    requires n <= |buf| && NUL !in buf[..n] && (n < |buf| ==> buf[n] == NUL)
    ensures Length(buf) == n
  {
    if n > 0 {
      assert buf[..n][0] == buf[0];
      assert buf[1..][..n - 1] == buf[..n][1..];
      LengthIs(buf[1..], n - 1);
    }
  }

  /** The character that a pointer into a string sees. */
  function At(src: seq<char>, i: nat): char {
    if i < |src| then src[i] else NUL
  }

  /** What bounded copying puts into a buffer with room for so many characters. */
  function Clipped(src: seq<char>, room: nat): (s: seq<char>)
    requires room > 0
    ensures 0 < |s| <= room
  {
    src[..Min(|src|, room - 1)] + [NUL]
  }

  lemma TakeOne(src: seq<char>, i: nat)
    requires i < |src|
    ensures src[..i] + [src[i]] == src[..i + 1]
  {
  }

  /** Copies at most dsize - 1 characters and a NUL, and returns the length of the whole source. */
  method Strlcpy(dst: array<char>, src: seq<char>, dsize: nat) returns (n: nat)
    requires NUL !in src && dsize <= dst.Length
    modifies dst
    ensures n == |src|
    ensures dst[..] == if dsize == 0 then old(dst[..]) else Overlay(old(dst[..]), 0, Clipped(src, dsize))
  {
    hide Overlay;
    var nleft: nat, i: nat := dsize, 0;
    ghost var was := dst[..];
    OverlayNothing(was, 0);
    if nleft != 0 {
      while true
        invariant 0 < nleft && i + nleft == dsize && i <= |src|
        invariant dst[..] == Overlay(was, 0, src[..i])
        decreases nleft
      {
        nleft := nleft - 1;
        if nleft == 0 { break; }
        ghost var now := dst[..];
        OverlayOne(was, 0, src[..i], At(src, i));
        dst[i] := At(src, i);
        assert dst[..] == now[i := At(src, i)];
        i := i + 1;
        if dst[i - 1] == NUL {
          assert src[..i - 1] == src[..Min(|src|, dsize - 1)];
          return i - 1;
        }
        TakeOne(src, i - 1);
      }
    }
    if dsize != 0 {
      ghost var now := dst[..];
      OverlayOne(was, 0, src[..i], NUL);
      dst[i] := NUL;
      assert dst[..] == now[i := NUL];
    }
    while At(src, i) != NUL
      invariant i <= |src|
      decreases |src| - i
    {
      i := i + 1;
    }
    i := i + 1;
    return i - 1;
  }

  lemma OverlayNothing(s: seq<char>, at: nat)
    requires at <= |s|
    ensures Overlay(s, at, []) == s
  {
  }

  /** Appends to the string in the buffer as far as it fits, and returns the length that was tried for. */
  method Strlcat(dst: array<char>, src: seq<char>, dsize: nat) returns (n: nat)
    requires NUL !in src && dsize <= dst.Length
    modifies dst
    ensures var dlen := Length(old(dst[..])[..dsize]);
      && n == dlen + |src|
      && dst[..] == if dlen == dsize then old(dst[..]) else Overlay(old(dst[..]), dlen, Clipped(src, dsize - dlen))
  {
    hide Overlay;
    ghost var was := dst[..];
    var left: nat, d: nat := dsize, 0;
    while left != 0 && dst[d] != NUL
      invariant d + left == dsize && NUL !in was[..dsize][..d] && dst[..] == was
      decreases left
    {
      assert was[..dsize][..d + 1] == was[..dsize][..d] + [was[d]];
      d := d + 1;
      left := left - 1;
    }
    var dlen := d;
    LengthIs(was[..dsize], dlen);
    left := dsize - dlen;
    if left == 0 { return dlen + |src|; }
    left := left - 1;
    var i: nat := 0;
    OverlayNothing(was, dlen);
    while At(src, i) != NUL
      invariant i <= |src| && d == dlen + Min(i, dsize - dlen - 1) && left == dsize - d - 1
      invariant dst[..] == Overlay(was, dlen, src[..d - dlen])
      decreases |src| - i
    {
      if left != 0 {
        ghost var now := dst[..];
        OverlayOne(was, dlen, src[..d - dlen], src[i]);
        TakeOne(src, i);
        dst[d] := src[i];
        assert dst[..] == now[d := src[i]];
        d := d + 1;
        left := left - 1;
      }
      i := i + 1;
    }
    ghost var now := dst[..];
    OverlayOne(was, dlen, src[..d - dlen], NUL);
    dst[d] := NUL;
    assert dst[..] == now[d := NUL];
    return dlen + i;
  }

  /** The string that copying leaves in a buffer. */
  lemma CopiedText(buf: seq<char>, src: seq<char>, room: nat)
    requires NUL !in src && 0 < room <= |buf|
    ensures Text(Overlay(buf, 0, Clipped(src, room))) == src[..Min(|src|, room - 1)]
  {
    var k := Min(|src|, room - 1);
    var now := Overlay(buf, 0, Clipped(src, room));
    assert now[..k] == src[..k];
    LengthIs(now, k);
  }

  lemma TakeBoth(a: seq<char>, b: seq<char>, m: nat)
    requires |a| <= m
    ensures (a + b)[..Min(|a + b|, m)] == a + b[..Min(|b|, m - |a|)]
  {
  }

  /** The string that appending leaves in a full-sized buffer. */
  lemma AppendedText(buf: seq<char>, src: seq<char>)
    requires NUL !in src && Length(buf) < |buf|
    ensures var now := Overlay(buf, Length(buf), Clipped(src, |buf| - Length(buf)));
      Text(now) == (Text(buf) + src)[..Min(|Text(buf) + src|, |buf| - 1)]
  {
    hide Length;
    var n := Length(buf);
    var k := Min(|src|, |buf| - n - 1);
    var now := Overlay(buf, n, Clipped(src, |buf| - n));
    assert |Clipped(src, |buf| - n)| == k + 1;
    assert now[..n + k] == buf[..n] + src[..k];
    LengthIs(now, n + k);
    TakeBoth(buf[..n], src, |buf| - 1);
  }
}
