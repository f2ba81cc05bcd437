/** The chunks an image is cut into, and the in-place merging of adjacent normal ones. */
module ImageChunks {
  import opened Bytes
  import opened Slices
  import opened Encoding
  import opened ImageFormat

  /** A normal chunk's data is the image from at on; a deflate chunk's is what its bytes inflate to. */
  datatype Chunk =
    | Normal(start: nat, len: nat, at: nat)
    | Deflate(start: nat, packedLen: nat, data: seq<byte>, name: Option<string>, params: Params)

  datatype Kind = KNormal | KDeflate

  function KindOf(c: Chunk): Kind {
    if c.Normal? then KNormal else KDeflate
  }

  function Kinds(cs: seq<Chunk>): seq<Kind> {
    seq(|cs|, i requires 0 <= i < |cs| => KindOf(cs[i]))
  }

  function Extent(c: Chunk): nat {
    if c.Normal? then c.len else c.packedLen
  }

  /** The chunk's own bytes in the image. */
  function RawBytes(img: seq<byte>, c: Chunk): seq<byte>
    requires c.start + Extent(c) <= |img|
  {
    img[c.start..c.start + Extent(c)]
  }

  ghost predicate WellFormed(zlib: Zlib, img: seq<byte>, c: Chunk) {
    && c.start + Extent(c) <= |img|
    && match c
       case Normal(start, _, at) => at == start
       case Deflate(_, _, data, _, _) =>
         |data| < TWO31 && zlib.inflate(RawBytes(img, c)).Some? && zlib.inflate(RawBytes(img, c)).value.0 == data
  }

  ghost predicate AllWellFormed(zlib: Zlib, img: seq<byte>, cs: seq<Chunk>) {
    forall c :: c in cs ==> WellFormed(zlib, img, c)
  }

  /** The chunks cover [pos, end) one behind the other. */
  ghost predicate Tiles(cs: seq<Chunk>, pos: nat, end: nat) {
    if |cs| == 0 then pos == end else cs[0].start == pos && Tiles(cs[1..], pos + Extent(cs[0]), end)
  }

  /** Does b's block of data begin where a's ends? */
  predicate Solid(a: Chunk, b: Chunk) {
    a.Normal? && b.Normal? && b.start == a.start + a.len && b.at == a.at + a.len
  }

  /** The end of the run of solid normal chunks that e - 1 belongs to. */
  function RunEnd(cs: seq<Chunk>, e: nat): (r: nat)
    requires 0 < e <= |cs|
    ensures e <= r <= |cs| && (cs[e - 1].Normal? ==> cs[r - 1].Normal?)
    ensures forall k :: e <= k < r ==> Solid(cs[k - 1], cs[k])
    ensures r < |cs| ==> !Solid(cs[r - 1], cs[r])
    decreases |cs| - e
  {
    if e < |cs| && Solid(cs[e - 1], cs[e]) then RunEnd(cs, e + 1) else e
  }

  /** One chunk for the run from first to last. */
  function Fuse(first: Chunk, last: Chunk): Chunk
    requires first.Normal? && last.Normal? && first.start <= last.start + last.len
  {
    Normal(first.start, last.len + last.start - first.start, first.at)
  }

  lemma {:induction false} SolidRun(cs: seq<Chunk>, e: nat)
    requires 0 < e <= |cs| && cs[0].Normal? && forall k :: 1 <= k < e ==> Solid(cs[k - 1], cs[k])
    ensures cs[e - 1].Normal? && cs[0].start <= cs[e - 1].start
  {
    if e > 1 { SolidRun(cs, e - 1); }
  }

  /** What merging makes of a list of chunks. */
  function Merged(cs: seq<Chunk>): (r: seq<Chunk>)
    ensures |r| <= |cs|
    decreases |cs|
  {
    if |cs| == 0 then []
    else if cs[0].Deflate? then [cs[0]] + Merged(cs[1..])
    else
      var e := RunEnd(cs, 1);
      SolidRun(cs, e);
      [Fuse(cs[0], cs[e - 1])] + Merged(cs[e..])
  }

  /** Between two rounds: what is unread is untouched, and what is written plus what is to come is the merged list. */
  ghost predicate Merging(cs: seq<Chunk>, now: seq<Chunk>, out: nat, inStart: nat) {
    && out <= inStart <= |cs| <= |now|
    && now[inStart..|cs|] == cs[inStart..]
    && now[..out] + Merged(cs[inStart..]) == Merged(cs)
  }

  lemma MergingStep(cs: seq<Chunk>, now: seq<Chunk>, out: nat, inStart: nat)
    requires Merging(cs, now, out, inStart) && inStart < |cs|
    ensures Merging(cs, now[out := MergedHead(cs[inStart..])], out + 1, inStart + MergedLen(cs[inStart..]))
  {
    hide *;
    var rest := cs[inStart..];
    var head, n := MergedHead(rest), MergedLen(rest);
    MergedUnfolds(rest);
    MergingParts(cs, now, out, inStart, head, n, Merged(rest[n..]));
  }

  /** The bookkeeping of one round. */
  lemma MergingParts(cs: seq<Chunk>, now: seq<Chunk>, out: nat, inStart: nat, head: Chunk, n: nat, more: seq<Chunk>)
    requires Merging(cs, now, out, inStart) && 0 < n && inStart + n <= |cs|
    requires Merged(cs[inStart..]) == [head] + more && more == Merged(cs[inStart..][n..])
    ensures Merging(cs, now[out := head], out + 1, inStart + n)
  {
    hide Merged;
    var next := now[out := head];
    assert cs[inStart..][n..] == cs[inStart + n..];
    assert next[..out + 1] == now[..out] + [head];
    assert now[..out] + [head] + more == now[..out] + ([head] + more);
    assert next[inStart + n..|cs|] == cs[inStart + n..] by {
      SliceSlice(now, inStart, |cs|, n, |cs| - inStart);
      assert next[inStart + n..|cs|] == now[inStart + n..|cs|];
      assert cs[inStart..][n..|cs| - inStart] == cs[inStart + n..];
    }
  }

  /** Merging in place: reading runs ahead of writing. */
  method MergeAdjacentNormalChunks(chunks: array<Chunk>, num: nat) returns (count: nat)
    requires num <= chunks.Length
    modifies chunks
    ensures count <= num && chunks[..count] == Merged(old(chunks[..num]))
  {
    hide *;
    ghost var cs := chunks[..num];
    var out, inStart := 0, 0;
    MergingStart(cs, chunks[..]);
    while inStart < num
      invariant out <= inStart <= num == |cs| && Merging(cs, chunks[..], out, inStart)
    {
      ghost var rest := cs[inStart..];
      MergingStep(cs, chunks[..], out, inStart);
      MergingRest(cs, chunks[..], out, inStart);
      assert chunks[inStart..num] == rest;
      var inEnd := FindRunEnd(chunks, num, inStart, rest);
      ghost var was := chunks[..];
      var head := chunks[inStart];
      if inEnd != inStart + 1 {
        HeadFuses(rest);
        assert chunks[inEnd - 1] == rest[inEnd - 1 - inStart];
        head := Fuse(chunks[inStart], chunks[inEnd - 1]);
      } else {
        HeadAlone(rest);
      }
      chunks[out] := head;
      assert chunks[..] == was[out := MergedHead(rest)];
      out := out + 1;
      inStart := inEnd;
    }
    MergingEnd(cs, chunks[..], out);
    return out;
  }

  lemma MergingStart(cs: seq<Chunk>, now: seq<Chunk>)
    requires cs <= now
    ensures Merging(cs, now, 0, 0)
  {
    assert cs[0..] == cs && now[0..|cs|] == cs;
    assert now[..0] + Merged(cs) == Merged(cs);
  }

  lemma MergingRest(cs: seq<Chunk>, now: seq<Chunk>, out: nat, inStart: nat)
    requires Merging(cs, now, out, inStart)
    ensures inStart <= |cs| <= |now| && now[inStart..|cs|] == cs[inStart..]
    ensures inStart < |cs| ==> now[inStart] == cs[inStart..][0]
  {
    if inStart < |cs| { assert now[inStart] == now[inStart..|cs|][0]; }
  }

  lemma MergingEnd(cs: seq<Chunk>, now: seq<Chunk>, out: nat)
    requires Merging(cs, now, out, |cs|)
    ensures out <= |cs| <= |now| && now[..out] == Merged(cs)
  {
    assert now[..out] + [] == now[..out];
  }

  lemma HeadAlone(cs: seq<Chunk>)
    requires |cs| > 0 && MergedLen(cs) == 1
    ensures MergedHead(cs) == cs[0]
  {
  }

  lemma HeadFuses(cs: seq<Chunk>)
    requires |cs| > 0 && MergedLen(cs) != 1
    ensures var e := MergedLen(cs);
      1 < e <= |cs| && cs[0].Normal? && cs[e - 1].Normal? && cs[0].start <= cs[e - 1].start && MergedHead(cs) == Fuse(cs[0], cs[e - 1])
  {
    SolidRun(cs, MergedLen(cs));
  }

  /** How many chunks the first merged one takes up, and that chunk. */
  function MergedLen(cs: seq<Chunk>): (n: nat)
    requires |cs| > 0
    ensures 0 < n <= |cs|
  {
    if cs[0].Deflate? then 1 else RunEnd(cs, 1)
  }

  function MergedHead(cs: seq<Chunk>): Chunk
    requires |cs| > 0
  {
    if cs[0].Deflate? then cs[0]
    else
      SolidRun(cs, RunEnd(cs, 1));
      Fuse(cs[0], cs[RunEnd(cs, 1) - 1])
  }

  lemma MergedUnfolds(cs: seq<Chunk>)
    requires |cs| > 0
    ensures Merged(cs) == [MergedHead(cs)] + Merged(cs[MergedLen(cs)..])
  {
  }

  /** The inner loop that looks for the end of a run. */
  method FindRunEnd(chunks: array<Chunk>, num: nat, inStart: nat, ghost rest: seq<Chunk>) returns (inEnd: nat)
    requires inStart < num <= chunks.Length && chunks[inStart..num] == rest
    ensures inEnd == inStart + MergedLen(rest)
  {
    hide RunEnd;
    inEnd := inStart + 1;
    assert |rest| == num - inStart && forall p :: inStart <= p < num ==> chunks[p] == rest[p - inStart];
    if chunks[inStart].Normal? {
      while inEnd < num && chunks[inEnd].Normal?
          && chunks[inEnd].start == chunks[inEnd - 1].start + chunks[inEnd - 1].len
          && chunks[inEnd].at == chunks[inEnd - 1].at + chunks[inEnd - 1].len
        invariant inStart < inEnd <= num && chunks[inEnd - 1].Normal?
        invariant RunEnd(rest, inEnd - inStart) == RunEnd(rest, 1)
        invariant chunks[inEnd - 1] == rest[inEnd - 1 - inStart]
      {
        RunEndStep(rest, inEnd - inStart);
        inEnd := inEnd + 1;
      }
      RunEndStop(rest, inEnd - inStart);
    }
  }

  lemma RunEndStep(cs: seq<Chunk>, e: nat)
    requires 0 < e < |cs| && Solid(cs[e - 1], cs[e])
    ensures RunEnd(cs, e) == RunEnd(cs, e + 1)
  {
  }

  lemma RunEndStop(cs: seq<Chunk>, e: nat)
    requires 0 < e <= |cs| && (e < |cs| ==> !Solid(cs[e - 1], cs[e]))
    ensures RunEnd(cs, e) == e
  {
  }

  // What merging preserves

  function Deflates(cs: seq<Chunk>): seq<Chunk> {
    if |cs| == 0 then [] else (if cs[0].Deflate? then [cs[0]] else []) + Deflates(cs[1..])
  }

  /** Runs of normal chunks squeezed to one. */
  function Squeezed(ks: seq<Kind>): seq<Kind> {
    if |ks| == 0 then []
    else if |ks| > 1 && ks[0] == KNormal && ks[1] == KNormal then Squeezed(ks[1..])
    else [ks[0]] + Squeezed(ks[1..])
  }

  lemma {:induction false} SolidTiles(cs: seq<Chunk>, n: nat, pos: nat, end: nat)
    requires 0 < n <= |cs| && cs[0].Normal? && Tiles(cs, pos, end)
    requires forall k :: 1 <= k < n ==> Solid(cs[k - 1], cs[k])
    ensures cs[n - 1].Normal? && pos == cs[0].start <= cs[n - 1].start
    ensures Tiles(cs[n..], cs[n - 1].start + cs[n - 1].len, end)
    decreases n
  {
    if n > 1 {
      var t := cs[1..];
      assert Solid(cs[0], cs[1]);
      assert forall k :: 1 <= k < n - 1 ==> Solid(t[k - 1], t[k]) by {
        forall k | 1 <= k < n - 1 ensures Solid(t[k - 1], t[k]) { assert Solid(cs[k], cs[k + 1]); }
      }
      SolidTiles(t, n - 1, pos + Extent(cs[0]), end);
      assert t[n - 1..] == cs[n..];
    }
  }

  /** The merged chunks tile the same stretch of the image. */
  lemma {:induction false} MergedTiles(cs: seq<Chunk>, pos: nat, end: nat)
    requires Tiles(cs, pos, end)
    ensures Tiles(Merged(cs), pos, end)
    decreases |cs|
  {
    if |cs| > 0 {
      MergedUnfolds(cs);
      var e := MergedLen(cs);
      if cs[0].Normal? { SolidTiles(cs, e, pos, end); }
      MergedTiles(cs[e..], pos + Extent(MergedHead(cs)), end);
      assert Merged(cs)[1..] == Merged(cs[e..]);
    }
  }

  lemma {:induction false} DeflatesSkip(cs: seq<Chunk>, n: nat)
    requires n <= |cs| && forall k :: 0 <= k < n ==> cs[k].Normal?
    ensures Deflates(cs) == Deflates(cs[n..])
    decreases n
  {
    if n > 0 {
      DeflatesSkip(cs[1..], n - 1);
      assert cs[1..][n - 1..] == cs[n..];
    }
  }

  /** The deflate chunks stay, in their order. */
  lemma {:induction false} MergedDeflates(cs: seq<Chunk>)
    ensures Deflates(Merged(cs)) == Deflates(cs)
    decreases |cs|
  {
    if |cs| > 0 {
      MergedUnfolds(cs);
      var e := MergedLen(cs);
      MergedDeflates(cs[e..]);
      assert Merged(cs)[1..] == Merged(cs[e..]);
      if cs[0].Normal? {
        forall k | 0 <= k < e ensures cs[k].Normal? { if k > 0 { assert Solid(cs[k - 1], cs[k]); } }
        DeflatesSkip(cs, e);
      }
    }
  }

  lemma {:induction false} SqueezedRun(ks: seq<Kind>, n: nat)
    requires 0 < n <= |ks| && (forall k :: 0 <= k < n ==> ks[k] == KNormal) && (n < |ks| ==> ks[n] != KNormal)
    ensures Squeezed(ks) == [KNormal] + Squeezed(ks[n..])
    decreases n
  {
    if n > 1 {
      SqueezedRun(ks[1..], n - 1);
      assert ks[1..][n - 1..] == ks[n..];
    }
  }

  /** In a tiled image every run of normal chunks is solid, so merging depends on the kinds alone. */
  lemma {:induction false} MergedKinds(zlib: Zlib, img: seq<byte>, cs: seq<Chunk>, pos: nat, end: nat)
    requires Tiles(cs, pos, end) && AllWellFormed(zlib, img, cs)
    ensures Kinds(Merged(cs)) == Squeezed(Kinds(cs))
    decreases |cs|
  {
    hide Merged, MergedHead;
    if |cs| > 0 {
      MergedUnfolds(cs);
      var e := MergedLen(cs);
      HeadRun(zlib, img, cs, pos, end);
      MergedKinds(zlib, img, cs[e..], pos + Extent(MergedHead(cs)), end);
      assert Kinds(cs)[e..] == Kinds(cs[e..]);
      assert Kinds(Merged(cs)) == [KindOf(MergedHead(cs))] + Kinds(Merged(cs[e..]));
    } else {
      MergedEmpty();
    }
  }

  lemma MergedEmpty()
    ensures Merged([]) == []
  {
  }

  /** The first merged chunk squeezes a whole run of kinds, and the rest tiles on behind it. */
  lemma HeadRun(zlib: Zlib, img: seq<byte>, cs: seq<Chunk>, pos: nat, end: nat)
    requires 0 < |cs| && Tiles(cs, pos, end) && AllWellFormed(zlib, img, cs)
    ensures Tiles(cs[MergedLen(cs)..], pos + Extent(MergedHead(cs)), end)
    ensures AllWellFormed(zlib, img, cs[MergedLen(cs)..])
    ensures Squeezed(Kinds(cs)) == [KindOf(MergedHead(cs))] + Squeezed(Kinds(cs)[MergedLen(cs)..])
  {
    hide WellFormed;
    var e := MergedLen(cs);
    if cs[0].Normal? {
      SolidTiles(cs, e, pos, end);
      forall k | 0 <= k < e ensures Kinds(cs)[k] == KNormal { if k > 0 { assert Solid(cs[k - 1], cs[k]); } }
      if e < |cs| { RunBroken(zlib, img, cs, e, end); }
      SqueezedRun(Kinds(cs), e);
    }
  }

  lemma RunBroken(zlib: Zlib, img: seq<byte>, cs: seq<Chunk>, e: nat, end: nat)
    requires 0 < e < |cs| && AllWellFormed(zlib, img, cs) && cs[e - 1].Normal? && !Solid(cs[e - 1], cs[e])
    requires Tiles(cs[e..], cs[e - 1].start + cs[e - 1].len, end)
    ensures cs[e].Deflate?
  {
    assert cs[e - 1] in cs && cs[e] in cs;
    assert WellFormed(zlib, img, cs[e - 1]) && WellFormed(zlib, img, cs[e]);
    assert cs[e..][0] == cs[e];
  }

  lemma {:induction false} SqueezedApart(ks: seq<Kind>, k: nat)
    requires k + 1 < |Squeezed(ks)|
    ensures !(Squeezed(ks)[k] == KNormal && Squeezed(ks)[k + 1] == KNormal)
    decreases |ks|
  {
    if |ks| > 1 && ks[0] == KNormal && ks[1] == KNormal {
      SqueezedApart(ks[1..], k);
    } else if k > 0 {
      SqueezedApart(ks[1..], k - 1);
    } else if ks[0] == KNormal {
      SqueezedFirst(ks[1..]);
    }
  }

  lemma {:induction false} SqueezedFirst(ks: seq<Kind>)
    requires 0 < |ks|
    ensures 0 < |Squeezed(ks)| && Squeezed(ks)[0] == ks[0]
    decreases |ks|
  {
    if |ks| > 1 && ks[0] == KNormal && ks[1] == KNormal { SqueezedFirst(ks[1..]); }
  }

  /** No two adjacent normal chunks are left. */
  lemma MergedApart(zlib: Zlib, img: seq<byte>, cs: seq<Chunk>, end: nat)
    requires Tiles(cs, 0, end) && AllWellFormed(zlib, img, cs)
    ensures forall k :: 0 <= k < |Merged(cs)| - 1 ==> !(Merged(cs)[k].Normal? && Merged(cs)[k + 1].Normal?)
  {
    MergedKinds(zlib, img, cs, 0, end);
    forall k | 0 <= k < |Merged(cs)| - 1 ensures !(Merged(cs)[k].Normal? && Merged(cs)[k + 1].Normal?) {
      assert Kinds(Merged(cs))[k] == KindOf(Merged(cs)[k]) && Kinds(Merged(cs))[k + 1] == KindOf(Merged(cs)[k + 1]);
      SqueezedApart(Kinds(cs), k);
    }
  }

  /** Lists of the same kinds merge to lists of the same kinds: "went awry" cannot happen. */
  lemma MergedParallel(zlib: Zlib, img: seq<byte>, cs: seq<Chunk>, end: nat, img': seq<byte>, cs': seq<Chunk>, end': nat)
    requires Tiles(cs, 0, end) && AllWellFormed(zlib, img, cs) && Tiles(cs', 0, end') && AllWellFormed(zlib, img', cs')
    requires Kinds(cs) == Kinds(cs')
    ensures Kinds(Merged(cs)) == Kinds(Merged(cs')) && |Merged(cs)| == |Merged(cs')|
  {
    MergedKinds(zlib, img, cs, 0, end);
    MergedKinds(zlib, img', cs', 0, end');
    assert |Kinds(Merged(cs))| == |Merged(cs)|;
  }

  lemma {:induction false} TilesForward(cs: seq<Chunk>, pos: nat, end: nat)
    requires Tiles(cs, pos, end)
    ensures pos <= end
    decreases |cs|
  {
    if |cs| > 0 { TilesForward(cs[1..], pos + Extent(cs[0]), end); }
  }

  /** Merged chunks are well formed, and their deflate chunks are the old ones. */
  lemma {:induction false} MergedWellFormed(zlib: Zlib, img: seq<byte>, cs: seq<Chunk>)
    requires AllWellFormed(zlib, img, cs)
    ensures AllWellFormed(zlib, img, Merged(cs))
    ensures forall c :: c in Merged(cs) && c.Deflate? ==> c in cs
    decreases |cs|
  {
    if |cs| > 0 {
      MergedUnfolds(cs);
      var e := MergedLen(cs);
      MergedWellFormed(zlib, img, cs[e..]);
      assert forall c :: c in cs[e..] ==> c in cs;
      var head := MergedHead(cs);
      assert WellFormed(zlib, img, head) by {
        assert cs[0] in cs && cs[e - 1] in cs;
        if cs[0].Normal? { SolidRun(cs, e); }
      }
      assert forall c :: c in Merged(cs) ==> c == head || c in Merged(cs[e..]);
      assert head.Deflate? ==> head == cs[0];
    }
  }

  /** A tiled image is the chunks' bytes in order. */
  lemma {:induction false} TilesSpell(img: seq<byte>, cs: seq<Chunk>, pos: nat, pieces: seq<seq<byte>>, k: nat)
    requires Tiles(cs, pos, |img|) && |pieces| == |cs| && k <= |cs|
    requires forall i :: 0 <= i < |cs| ==> cs[i].start + Extent(cs[i]) <= |img| && pieces[i] == RawBytes(img, cs[i])
    ensures pos <= |img|
    ensures k < |cs| ==> cs[k].start <= |img| && pos <= cs[k].start && Join(pieces, k) == img[pos..cs[k].start]
    ensures k == |cs| ==> Join(pieces, k) == img[pos..]
  {
    hide Tiles, Join, RawBytes;
    TilesForward(cs, pos, |img|);
    TilesStep(cs, pos, |img|, k);
    if k == 0 {
      JoinNone(img, pos, pieces);
    } else {
      TilesStep(cs, pos, |img|, k - 1);
      TilesSpell(img, cs, pos, pieces, k - 1);
      JoinNext(img, pos, cs[k - 1], pieces, k);
    }
  }

  lemma JoinNone(img: seq<byte>, pos: nat, pieces: seq<seq<byte>>)
    requires pos <= |img|
    ensures Join(pieces, 0) == img[pos..pos] && img[|img|..] == img[|img|..|img|]
  {
  }

  lemma JoinNext(img: seq<byte>, pos: nat, c: Chunk, pieces: seq<seq<byte>>, k: nat)
    requires 0 < k <= |pieces| && pos <= c.start && c.start + Extent(c) <= |img|
    requires Join(pieces, k - 1) == img[pos..c.start] && pieces[k - 1] == RawBytes(img, c)
    ensures Join(pieces, k) == img[pos..c.start + Extent(c)]
    ensures img[pos..|img|] == img[pos..]
  {
    assert img[pos..c.start] + img[c.start..c.start + Extent(c)] == img[pos..c.start + Extent(c)];
  }

  lemma {:induction false} TilesStep(cs: seq<Chunk>, pos: nat, end: nat, k: nat)
    requires Tiles(cs, pos, end) && k <= |cs|
    ensures pos <= (if k < |cs| then cs[k].start else end)
    ensures (if k < |cs| then cs[k].start else end) == if k == 0 then pos else cs[k - 1].start + Extent(cs[k - 1])
    decreases k
  {
    if k > 0 {
      TilesStep(cs[1..], pos + Extent(cs[0]), end, k - 1);
    }
  }
}
