/** Planning an image patch: which chunks can be rebuilt, which are patched as plain bytes, and from what. */
module ImageDiff {
  import opened Bytes
  import opened Slices
  import opened Encoding
  import opened PatchStream
  import opened BsPatch
  import opened ImageFormat
  import opened ImagePatch
  import opened ImageChunks

  const TWO50: int := 0x4_0000_0000_0000

  /** Compressing does not blow up files of ordinary size beyond what a header field holds. */
  ghost predicate Modest(bz: Bzip) {
    forall d :: |d| < 64 * TWO50 ==> |bz.compress(d)| < TWO63
  }

  lemma PatchTurns(bz: Bzip, text: seq<byte>, target: seq<byte>, ctrl: seq<Triple>, diff: seq<byte>, extra: seq<byte>)
    requires SelfDelimiting(bz) && Modest(bz) && Spells(text, target, ctrl, diff, extra)
    requires |text| < TWO50 && |target| < TWO50 && |ctrl| <= |target| + 1
    ensures Turns(bz, text, target, PatchFile(bz, ctrl, diff, extra, |target|))
  {
    hide Spells, Decode, Placed, ControlBytes, PatchFile;
    SpelledBounds(text, target, ctrl, diff, extra, |ctrl|);
    DiffFits(text, target, ctrl, diff, extra);
    assert |ControlBytes(ctrl)| == 24 * |ctrl|;
    forall before, behind
      ensures Placed(before + PatchFile(bz, ctrl, diff, extra, |target|) + behind, |before|)
      ensures Decode(bz, text, before + PatchFile(bz, ctrl, diff, extra, |target|) + behind, |before|) == Done(target)
    {
      PatchRoundTrip(bz, text, target, ctrl, diff, extra, before, behind);
    }
  }

  lemma DiffFits(text: seq<byte>, target: seq<byte>, ctrl: seq<Triple>, diff: seq<byte>, extra: seq<byte>)
    requires Spells(text, target, ctrl, diff, extra)
    ensures |diff| <= |target|
  {
    assert |Output(text, ctrl, diff, extra, |ctrl|)| == |target|;
  }

  const BUFFER_SIZE := 32768

  /** Compresses the chunk's data again, buffer by buffer, and compares with the bytes it came from. */
  method TryReconstruction(zlib: Zlib, img: seq<byte>, c: Chunk) returns (same: bool)
    requires c.Deflate? && c.start + c.packedLen <= |img|
    ensures same <==> zlib.deflate(c.params, c.data) == RawBytes(img, c)
  {
    var stream := zlib.deflate(c.params, c.data);
    var p := 0;
    while p < |stream|
      invariant p <= |stream| && p <= c.packedLen && stream[..p] == RawBytes(img, c)[..p]
    {
      var have := if |stream| - p < BUFFER_SIZE then |stream| - p else BUFFER_SIZE;
      if p + have <= c.packedLen { SliceSlice(img, c.start, c.start + c.packedLen, p, p + have); }
      if p + have > c.packedLen || stream[p..p + have] != img[c.start + p..c.start + p + have] {
        DifferAt(stream, RawBytes(img, c), p, have);
        return false;
      }
      assert stream[..p + have] == stream[..p] + stream[p..p + have];
      assert RawBytes(img, c)[..p + have] == RawBytes(img, c)[..p] + RawBytes(img, c)[p..p + have];
      p := p + have;
    }
    assert stream[..p] == stream;
    same := p == c.packedLen;
    if same { assert RawBytes(img, c)[..p] == RawBytes(img, c); }
  }

  lemma DifferAt(s: seq<byte>, t: seq<byte>, p: nat, have: nat)
    requires p + have <= |s| && (p + have > |t| || s[p..p + have] != t[p..p + have])
    ensures s != t
  {
  }

  function AtLevel(level: int): Params {
    Params(level, 8, -15, 8, 0)
  }

  /** Can the chunk be rebuilt by deflating its data? */
  ghost predicate Rebuildable(zlib: Zlib, img: seq<byte>, c: Chunk) {
    && c.Deflate? && c.start + c.packedLen <= |img|
    && (c.params == AtLevel(6) || c.params == AtLevel(9))
    && zlib.deflate(c.params, c.data) == RawBytes(img, c)
  }

  /** Tries levels 6 and 9 and leaves the parameters that work in the chunk. */
  method ReconstructDeflateChunk(zlib: Zlib, img: seq<byte>, c: Chunk) returns (ok: bool, r: Chunk)
    requires c.Deflate? && c.start + c.packedLen <= |img|
    ensures r.Deflate? && r == c.(params := r.params)
    ensures ok ==> Rebuildable(zlib, img, r)
    ensures !ok ==> !Rebuildable(zlib, img, c.(params := AtLevel(6))) && !Rebuildable(zlib, img, c.(params := AtLevel(9)))
  {
    r := c;
    var level := 6;
    while level <= 9
      invariant level == 6 || level == 9 || level == 12
      invariant r.Deflate? && r == c.(params := r.params)
      invariant level > 6 ==> !Rebuildable(zlib, img, c.(params := AtLevel(6)))
      invariant level > 9 ==> !Rebuildable(zlib, img, c.(params := AtLevel(9)))
      decreases 12 - level
    {
      r := c.(params := AtLevel(level));
      var same := TryReconstruction(zlib, img, r);
      if same { return true, r; }
      level := level + 3;
    }
    return false, r;
  }

  /** Treats a deflate chunk as plain bytes. */
  function ToNormal(c: Chunk): (r: Chunk)
    ensures r.Normal? && Extent(r) == Extent(c) && r.start == c.start
  {
    match c
    case Normal(_, _, _) => c
    case Deflate(start, packedLen, _, _, _) => Normal(start, packedLen, start)
  }

  predicate ChunksEqual(imgA: seq<byte>, a: Chunk, imgB: seq<byte>, b: Chunk)
    requires a.start + Extent(a) <= |imgA| && b.start + Extent(b) <= |imgB|
  {
    KindOf(a) == KindOf(b) && Extent(a) == Extent(b) && RawBytes(imgA, a) == RawBytes(imgB, b)
  }

  /** The first deflate chunk of that name. */
  function FindByName(name: string, cs: seq<Chunk>): (r: Option<nat>)
    ensures r.Some? ==> r.value < |cs| && cs[r.value].Deflate? && cs[r.value].name == Some(name)
    ensures forall k :: 0 <= k < (if r.Some? then r.value else |cs|) && cs[k].Deflate? ==> cs[k].name != Some(name)
  {
    if |cs| == 0 then None
    else if cs[0].Deflate? && cs[0].name == Some(name) then Some(0)
    else match FindByName(name, cs[1..])
      case None => None
      case Some(i) => Some(i + 1)
  }

  /** A chunk after the fixing loop: unchanged but for its parameters, or made normal. */
  ghost predicate Softened(was: Chunk, now: Chunk) {
    now == ToNormal(was) || (was.Deflate? && now.Deflate? && now == was.(params := now.params))
  }

  ghost predicate AllSoftened(was: seq<Chunk>, now: seq<Chunk>) {
    |was| == |now| && forall i :: 0 <= i < |was| ==> Softened(was[i], now[i])
  }

  lemma SoftenedWellFormed(zlib: Zlib, img: seq<byte>, was: Chunk, now: Chunk)
    requires WellFormed(zlib, img, was) && Softened(was, now)
    ensures WellFormed(zlib, img, now) && Extent(now) == Extent(was) && now.start == was.start
    ensures RawBytes(img, now) == RawBytes(img, was)
  {
  }

  lemma {:induction false} SoftenedTiles(was: seq<Chunk>, now: seq<Chunk>, pos: nat, end: nat)
    requires AllSoftened(was, now) && Tiles(was, pos, end)
    ensures Tiles(now, pos, end)
    decreases |was|
  {
    if |was| > 0 {
      assert Softened(was[0], now[0]);
      SoftenedTiles(was[1..], now[1..], pos + Extent(was[0]), end);
    }
  }

  ghost predicate Named(cs: seq<Chunk>) {
    forall i :: 0 <= i < |cs| && cs[i].Deflate? ==> cs[i].name.Some?
  }

  ghost predicate DistinctNames(cs: seq<Chunk>) {
    && Named(cs)
    && (forall i, j :: 0 <= i < j < |cs| && cs[i].Deflate? && cs[j].Deflate? ==> cs[i].name != cs[j].name)
  }

  /** A deflate chunk of the target is ready when it can be rebuilt. */
  ghost predicate Ready(zlib: Zlib, tgtImg: seq<byte>, c: Chunk) {
    c.Deflate? ==> Rebuildable(zlib, tgtImg, c)
  }

  /** The fixing loop before target chunk i. */
  ghost predicate Fixing(zlib: Zlib, tgtImg: seq<byte>, src0: seq<Chunk>, tgt0: seq<Chunk>,
                         src: seq<Chunk>, tgt: seq<Chunk>, i: nat, zipMode: bool)
  {
    && AllSoftened(src0, src) && AllSoftened(tgt0, tgt) && i <= |tgt|
    && (!zipMode ==> Kinds(src) == Kinds(tgt))
    && (zipMode ==> Named(tgt))
    && (forall k :: i <= k < |tgt| ==> tgt[k] == tgt0[k])
    && (forall k :: 0 <= k < i ==> Ready(zlib, tgtImg, tgt[k]))
  }

  /** The source chunk that belongs to target chunk i. */
  function SourceOf(src: seq<Chunk>, c: Chunk, i: nat, zipMode: bool): (j: Option<nat>)
    requires zipMode ==> c.Deflate? && c.name.Some?
    requires !zipMode ==> i < |src|
    ensures j.Some? ==> j.value < |src|
  {
    if zipMode then FindByName(c.name.value, src) else Some(i)
  }

  /** Does the fixing loop leave this chunk of the target as deflated data: can it be rebuilt, and is there a chunk
      of the source that belongs to it and differs? */
  ghost predicate Keeps(zlib: Zlib, srcImg: seq<byte>, tgtImg: seq<byte>, src: seq<Chunk>, c: Chunk, i: nat,
                        zipMode: bool) {
    && c.Deflate? && (if zipMode then c.name.Some? else i < |src|)
    && c.start + c.packedLen <= |tgtImg|
    && (zlib.deflate(Params(6, 8, -15, 8, 0), c.data) == RawBytes(tgtImg, c) || zlib.deflate(Params(9, 8, -15, 8, 0), c.data) == RawBytes(tgtImg, c))
    && var j := SourceOf(src, c, i, zipMode);
       j.Some? && src[j.value].start + Extent(src[j.value]) <= |srcImg|
       && !(src[j.value].Deflate? && RawBytes(srcImg, src[j.value]) == RawBytes(tgtImg, c))
  }

  /** The source once the chunk that belongs to a target chunk of this name is treated as plain bytes. */
  function Without(src: seq<Chunk>, name: string): (r: seq<Chunk>)
    ensures |r| == |src|
  {
    match FindByName(name, src)
    case None => src
    case Some(j) => src[j := ToNormal(src[j])]
  }

  lemma {:induction false} FindOther(name: string, cs: seq<Chunk>, j: nat)
    requires j < |cs| && cs[j].Deflate? && cs[j].name != Some(name)
    ensures FindByName(name, cs[j := ToNormal(cs[j])]) == FindByName(name, cs)
    decreases |cs|
  {
    var ds := cs[j := ToNormal(cs[j])];
    if j > 0 {
      assert ds[1..] == cs[1..][j - 1 := ToNormal(cs[1..][j - 1])];
      FindOther(name, cs[1..], j - 1);
    } else {
      assert ds[1..] == cs[1..];
    }
  }

  /** Target chunk i is already normal. */
  lemma FixSkip(zlib: Zlib, tgtImg: seq<byte>, src0: seq<Chunk>, tgt0: seq<Chunk>, src: seq<Chunk>,
                tgt: seq<Chunk>, i: nat, zipMode: bool)
    requires Fixing(zlib, tgtImg, src0, tgt0, src, tgt, i, zipMode) && i < |tgt| && tgt[i].Normal?
    ensures Fixing(zlib, tgtImg, src0, tgt0, src, tgt, i + 1, zipMode)
  {
  }

  /** Target chunk i and its source become normal. */
  lemma FixDrop(zlib: Zlib, tgtImg: seq<byte>, src0: seq<Chunk>, tgt0: seq<Chunk>, src: seq<Chunk>,
                tgt: seq<Chunk>, i: nat, zipMode: bool)
    requires Fixing(zlib, tgtImg, src0, tgt0, src, tgt, i, zipMode) && i < |tgt| && tgt[i].Deflate?
    requires zipMode ==> tgt[i].name.Some?
    requires !zipMode ==> i < |src|
    ensures var j := SourceOf(src, tgt[i], i, zipMode);
      var src' := if j.Some? then src[j.value := ToNormal(src[j.value])] else src;
      Fixing(zlib, tgtImg, src0, tgt0, src', tgt[i := ToNormal(tgt[i])], i + 1, zipMode)
  {
    hide Rebuildable;
    var j := SourceOf(src, tgt[i], i, zipMode);
    var src' := if j.Some? then src[j.value := ToNormal(src[j.value])] else src;
    var tgt' := tgt[i := ToNormal(tgt[i])];
    assert AllSoftened(src0, src') && AllSoftened(tgt0, tgt');
    if !zipMode {
      forall k | 0 <= k < |tgt| ensures KindOf(src'[k]) == KindOf(tgt'[k]) {
        assert Kinds(src)[k] == Kinds(tgt)[k];
      }
      assert Kinds(src') == Kinds(tgt');
    }
    forall k | 0 <= k <= i ensures Ready(zlib, tgtImg, tgt'[k]) {
      if k < i { assert Ready(zlib, tgtImg, tgt[k]); }
    }
  }

  /** Target chunk i keeps its kind, with parameters that rebuild it. */
  lemma FixKeep(zlib: Zlib, tgtImg: seq<byte>, src0: seq<Chunk>, tgt0: seq<Chunk>, src: seq<Chunk>,
                tgt: seq<Chunk>, i: nat, zipMode: bool, r: Chunk)
    requires Fixing(zlib, tgtImg, src0, tgt0, src, tgt, i, zipMode) && i < |tgt| && tgt[i].Deflate? && r.Deflate?
    requires r == tgt[i].(params := r.params) && Rebuildable(zlib, tgtImg, r)
    ensures Fixing(zlib, tgtImg, src0, tgt0, src, tgt[i := r], i + 1, zipMode)
  {
    hide Rebuildable;
    var tgt' := tgt[i := r];
    assert Kinds(tgt') == Kinds(tgt);
    assert Ready(zlib, tgtImg, r);
    assert AllSoftened(tgt0, tgt');
  }

  lemma FixingFacts(zlib: Zlib, srcImg: seq<byte>, tgtImg: seq<byte>, src0: seq<Chunk>, tgt0: seq<Chunk>,
                    src: seq<Chunk>, tgt: seq<Chunk>, i: nat, zipMode: bool)
    requires Fixing(zlib, tgtImg, src0, tgt0, src, tgt, i, zipMode) && i < |tgt|
    requires AllWellFormed(zlib, srcImg, src0) && AllWellFormed(zlib, tgtImg, tgt0)
    ensures tgt[i].start + Extent(tgt[i]) <= |tgtImg| && (tgt[i].Deflate? && zipMode ==> tgt[i].name.Some?)
    ensures !zipMode ==> |src| == |tgt|
    ensures forall j :: 0 <= j < |src| ==> src[j].start + Extent(src[j]) <= |srcImg|
  {
    assert tgt[i] in tgt0;
    if !zipMode { assert |Kinds(src)| == |Kinds(tgt)|; }
    forall j | 0 <= j < |src| ensures src[j].start + Extent(src[j]) <= |srcImg| {
      assert src0[j] in src0 && Softened(src0[j], src[j]);
    }
  }

  lemma EqualMeans(imgA: seq<byte>, a: Chunk, imgB: seq<byte>, b: Chunk)
    requires a.Deflate? && a.start + Extent(a) <= |imgA| && b.start + Extent(b) <= |imgB|
    ensures ChunksEqual(imgA, a, imgB, b) <==> b.Deflate? && RawBytes(imgB, b) == RawBytes(imgA, a)
  {
  }

  lemma LevelsTried(zlib: Zlib, img: seq<byte>, c: Chunk, ok: bool, r: Chunk)
    requires c.Deflate? && r.Deflate? && r == c.(params := r.params) && c.start + c.packedLen <= |img|
    requires ok ==> Rebuildable(zlib, img, r)
    requires !ok ==> !Rebuildable(zlib, img, c.(params := AtLevel(6))) && !Rebuildable(zlib, img, c.(params := AtLevel(9)))
    ensures ok <==>
      zlib.deflate(Params(6, 8, -15, 8, 0), c.data) == RawBytes(img, c) || zlib.deflate(Params(9, 8, -15, 8, 0), c.data) == RawBytes(img, c)
  {
    assert forall p :: RawBytes(img, c.(params := p)) == RawBytes(img, c);
  }

  /** One round of the loop over the target chunks. */
  method FixChunk(zlib: Zlib, srcImg: seq<byte>, tgtImg: seq<byte>, src: array<Chunk>, ns: nat, tgt: array<Chunk>, nt: nat,
                  i: nat, zipMode: bool, ghost src0: seq<Chunk>, ghost tgt0: seq<Chunk>)
    requires src != tgt && ns <= src.Length && i < nt <= tgt.Length
    requires Fixing(zlib, tgtImg, src0, tgt0, src[..ns], tgt[..nt], i, zipMode)
    requires AllWellFormed(zlib, srcImg, src0) && AllWellFormed(zlib, tgtImg, tgt0)
    modifies src, tgt
    ensures Fixing(zlib, tgtImg, src0, tgt0, src[..ns], tgt[..nt], i + 1, zipMode)
    ensures tgt[..nt] == old(tgt[..nt])[i := tgt[i]]
    ensures tgt[i].Deflate? <==> Keeps(zlib, srcImg, tgtImg, old(src[..ns]), old(tgt[i]), i, zipMode)
    ensures tgt[i].Deflate? ==> src[..ns] == old(src[..ns]) && tgt[i].name == old(tgt[i].name)
    ensures zipMode && old(tgt[i]).Deflate? && tgt[i].Normal? ==>
      old(tgt[i]).name.Some? && src[..ns] == Without(old(src[..ns]), old(tgt[i]).name.value)
    ensures old(tgt[i]).Normal? ==> tgt[i].Normal? && src[..ns] == old(src[..ns])
  {
    hide Fixing, AllWellFormed, FindByName, ChunksEqual, RawBytes;
    ghost var S, T := src[..ns], tgt[..nt];
    FixingFacts(zlib, srcImg, tgtImg, src0, tgt0, S, T, i, zipMode);
    if tgt[i].Normal? {
      FixSkip(zlib, tgtImg, src0, tgt0, S, T, i, zipMode);
      return;
    }
    var ok, r := ReconstructDeflateChunk(zlib, tgtImg, tgt[i]);
    var j := SourceOf(src[..ns], tgt[i], i, zipMode);
    LevelsTried(zlib, tgtImg, tgt[i], ok, r);
    if j.Some? { EqualMeans(tgtImg, tgt[i], srcImg, src[j.value]); }
    if ok && j.Some? && !ChunksEqual(tgtImg, tgt[i], srcImg, src[j.value]) {
      FixKeep(zlib, tgtImg, src0, tgt0, S, T, i, zipMode, r);
      tgt[i] := r;
      assert tgt[..nt] == T[i := r];
    } else {
      FixDrop(zlib, tgtImg, src0, tgt0, S, T, i, zipMode);
      tgt[i] := ToNormal(tgt[i]);
      assert tgt[..nt] == T[i := ToNormal(T[i])];
      if j.Some? {
        src[j.value] := ToNormal(src[j.value]);
        assert src[..ns] == S[j.value := ToNormal(S[j.value])];
      }
    }
  }

  lemma FixStart(zlib: Zlib, tgtImg: seq<byte>, src: seq<Chunk>, tgt: seq<Chunk>, zipMode: bool)
    requires if zipMode then Named(tgt) else Kinds(src) == Kinds(tgt)
    ensures Fixing(zlib, tgtImg, src, tgt, src, tgt, 0, zipMode)
  {
  }

  /** Every chunk left deflated finds a deflated chunk of its name. */
  predicate Partnered(src: seq<Chunk>, tgt: seq<Chunk>) {
    forall c :: c in tgt ==> c.Deflate? ==> c.name.Some? && FindByName(c.name.value, src).Some?
  }

  /** What the patches are made from. */
  ghost predicate Fixed(zlib: Zlib, srcImg: seq<byte>, tgtImg: seq<byte>, src: seq<Chunk>, tgt: seq<Chunk>, zipMode: bool) {
    && AllWellFormed(zlib, srcImg, src) && AllWellFormed(zlib, tgtImg, tgt)
    && (!zipMode ==> Kinds(src) == Kinds(tgt))
    && (zipMode ==> 0 < |src| && src[0] == Normal(0, |srcImg|, 0) && Partnered(src, tgt))
    && forall c :: c in tgt ==> Ready(zlib, tgtImg, c)
  }

  lemma FixEnd(zlib: Zlib, srcImg: seq<byte>, tgtImg: seq<byte>, src0: seq<Chunk>, tgt0: seq<Chunk>,
               src: seq<Chunk>, tgt: seq<Chunk>, zipMode: bool)
    requires Fixing(zlib, tgtImg, src0, tgt0, src, tgt, |tgt|, zipMode)
    requires AllWellFormed(zlib, srcImg, src0) && AllWellFormed(zlib, tgtImg, tgt0)
    requires zipMode ==> 0 < |src0| && src0[0] == Normal(0, |srcImg|, 0)
    ensures (zipMode ==> Partnered(src, tgt)) ==> Fixed(zlib, srcImg, tgtImg, src, tgt, zipMode)
  {
    hide Ready, Partnered;
    AllSoftenedWellFormed(zlib, srcImg, src0, src);
    AllSoftenedWellFormed(zlib, tgtImg, tgt0, tgt);
    if zipMode { assert Softened(src0[0], src[0]); }
  }

  lemma AllSoftenedWellFormed(zlib: Zlib, img: seq<byte>, was: seq<Chunk>, now: seq<Chunk>)
    requires AllSoftened(was, now) && AllWellFormed(zlib, img, was)
    ensures AllWellFormed(zlib, img, now)
  {
    forall c | c in now ensures WellFormed(zlib, img, c) {
      var i :| 0 <= i < |now| && now[i] == c;
      assert was[i] in was;
      SoftenedWellFormed(zlib, img, was[i], now[i]);
    }
  }

  method FixChunks(zlib: Zlib, srcImg: seq<byte>, tgtImg: seq<byte>, src: array<Chunk>, ns: nat,
                   tgt: array<Chunk>, nt: nat, zipMode: bool)
    requires src != tgt && ns <= src.Length && nt <= tgt.Length
    requires AllWellFormed(zlib, srcImg, src[..ns]) && AllWellFormed(zlib, tgtImg, tgt[..nt])
    requires if zipMode then Named(tgt[..nt]) else Kinds(src[..ns]) == Kinds(tgt[..nt])
    requires zipMode ==> 0 < ns && src[0] == Normal(0, |srcImg|, 0)
    modifies src, tgt
    ensures (zipMode ==> Partnered(src[..ns], tgt[..nt])) ==> Fixed(zlib, srcImg, tgtImg, src[..ns], tgt[..nt], zipMode)
    ensures AllSoftened(old(src[..ns]), src[..ns]) && AllSoftened(old(tgt[..nt]), tgt[..nt])
    ensures zipMode ==>
      (Partnered(src[..ns], tgt[..nt]) <==> NoneSpent(zlib, srcImg, tgtImg, old(src[..ns]), old(tgt[..nt])))
  {
    hide Fixing, AllWellFormed, Named, Kinds, Ready, Softened, Partnered, Keeps, Without, Sofar, NoneSpent;
    ghost var src0, tgt0 := src[..ns], tgt[..nt];
    FixStart(zlib, tgtImg, src0, tgt0, zipMode);
    SofarStart(zlib, srcImg, tgtImg, src0, tgt0);
    for i := 0 to nt
      invariant Fixing(zlib, tgtImg, src0, tgt0, src[..ns], tgt[..nt], i, zipMode)
      invariant zipMode ==> Sofar(zlib, srcImg, tgtImg, src0, tgt0, src[..ns], tgt[..nt], i)
    {
      ghost var S, T := src[..ns], tgt[..nt];
      FixingNext(zlib, tgtImg, src0, tgt0, S, T, i, zipMode);
      FixChunk(zlib, srcImg, tgtImg, src, ns, tgt, nt, i, zipMode, src0, tgt0);
      if zipMode { SofarNext(zlib, srcImg, tgtImg, src0, tgt0, S, T, i, src[..ns], tgt[i]); }
    }
    FixEnd(zlib, srcImg, tgtImg, src0, tgt0, src[..ns], tgt[..nt], zipMode);
    FixingSoftened(zlib, tgtImg, src0, tgt0, src[..ns], tgt[..nt], nt, zipMode);
    if zipMode { SofarEnd(zlib, srcImg, tgtImg, src0, tgt0, src[..ns], tgt[..nt]); }
  }

  lemma FixingNext(zlib: Zlib, tgtImg: seq<byte>, src0: seq<Chunk>, tgt0: seq<Chunk>, src: seq<Chunk>, tgt: seq<Chunk>,
                   i: nat, zipMode: bool)
    requires Fixing(zlib, tgtImg, src0, tgt0, src, tgt, i, zipMode) && i < |tgt|
    ensures |tgt| == |tgt0| && tgt[i] == tgt0[i] && (zipMode && tgt[i].Deflate? ==> tgt[i].name.Some?)
  {
  }

  // Names that repeat

  /** Do the chunks of this name run out: one of them is left deflated, and later ones that are not take all its
      partners with them? The target's chunks from i on are ahead. */
  ghost predicate Spent(zlib: Zlib, srcImg: seq<byte>, tgtImg: seq<byte>, src: seq<Chunk>, tgt: seq<Chunk>, i: nat,
                        name: string, kept: bool)
    decreases |tgt| - i
  {
    if i >= |tgt| then kept && FindByName(name, src) == None
    else if !(tgt[i].Deflate? && tgt[i].name == Some(name)) then Spent(zlib, srcImg, tgtImg, src, tgt, i + 1, name, kept)
    else if Keeps(zlib, srcImg, tgtImg, src, tgt[i], i, true) then Spent(zlib, srcImg, tgtImg, src, tgt, i + 1, name, true)
    else Spent(zlib, srcImg, tgtImg, Without(src, name), tgt, i + 1, name, kept)
  }

  ghost predicate NoneSpent(zlib: Zlib, srcImg: seq<byte>, tgtImg: seq<byte>, src: seq<Chunk>, tgt: seq<Chunk>) {
    forall name: string :: !Spent(zlib, srcImg, tgtImg, src, tgt, 0, name, false)
  }

  /** Is one of the first i chunks of this name deflated? */
  ghost predicate KeptOne(tgt: seq<Chunk>, i: nat, name: string) {
    exists k :: 0 <= k < i && k < |tgt| && tgt[k].Deflate? && tgt[k].name == Some(name)
  }

  /** The loop before chunk i: no name's fate has changed. */
  ghost predicate Sofar(zlib: Zlib, srcImg: seq<byte>, tgtImg: seq<byte>, src0: seq<Chunk>, tgt0: seq<Chunk>,
                        src: seq<Chunk>, tgt: seq<Chunk>, i: nat) {
    && |tgt| == |tgt0|
    && forall name: string :: Spent(zlib, srcImg, tgtImg, src0, tgt0, 0, name, false)
         <==> Spent(zlib, srcImg, tgtImg, src, tgt0, i, name, KeptOne(tgt, i, name))
  }

  lemma SofarStart(zlib: Zlib, srcImg: seq<byte>, tgtImg: seq<byte>, src: seq<Chunk>, tgt: seq<Chunk>)
    ensures Sofar(zlib, srcImg, tgtImg, src, tgt, src, tgt, 0)
  {
    hide Spent;
    assert forall name: string :: !KeptOne(tgt, 0, name);
  }

  /** Treating a chunk as plain bytes does not concern other names. */
  lemma WithoutOther(src: seq<Chunk>, name: string, other: string)
    requires name != other
    ensures FindByName(name, Without(src, other)) == FindByName(name, src)
    ensures Without(Without(src, other), name) == Without(Without(src, name), other)
    ensures FindByName(name, src).Some? ==> Without(src, other)[FindByName(name, src).value] == src[FindByName(name, src).value]
  {
    var j, k := FindByName(name, src), FindByName(other, src);
    hide FindByName;
    if k.Some? { FindOther(name, src, k.value); }
    if j.Some? { FindOther(other, src, j.value); }
  }

  lemma KeepsOther(zlib: Zlib, srcImg: seq<byte>, tgtImg: seq<byte>, src: seq<Chunk>, c: Chunk, i: nat, other: string)
    requires c.Deflate? && c.name.Some? && c.name.value != other
    ensures Keeps(zlib, srcImg, tgtImg, Without(src, other), c, i, true) == Keeps(zlib, srcImg, tgtImg, src, c, i, true)
  {
    hide Rebuildable, Without, FindByName;
    WithoutOther(src, c.name.value, other);
  }

  lemma {:induction false} SpentOther(zlib: Zlib, srcImg: seq<byte>, tgtImg: seq<byte>, src: seq<Chunk>, tgt: seq<Chunk>,
                                      i: nat, name: string, kept: bool, other: string)
    requires name != other
    ensures Spent(zlib, srcImg, tgtImg, Without(src, other), tgt, i, name, kept)
      == Spent(zlib, srcImg, tgtImg, src, tgt, i, name, kept)
    decreases |tgt| - i
  {
    hide Keeps, Without, FindByName;
    WithoutOther(src, name, other);
    if i < |tgt| {
      if tgt[i].Deflate? && tgt[i].name == Some(name) { KeepsOther(zlib, srcImg, tgtImg, src, tgt[i], i, other); }
      SpentOther(zlib, srcImg, tgtImg, src, tgt, i + 1, name, kept, other);
      SpentOther(zlib, srcImg, tgtImg, src, tgt, i + 1, name, true, other);
      SpentOther(zlib, srcImg, tgtImg, Without(src, name), tgt, i + 1, name, kept, other);
    }
  }

  lemma KeptNext(tgt: seq<Chunk>, i: nat, c: Chunk, name: string)
    requires i < |tgt|
    ensures KeptOne(tgt[i := c], i + 1, name) <==> KeptOne(tgt, i, name) || (c.Deflate? && c.name == Some(name))
  {
    var now := tgt[i := c];
    if k :| 0 <= k < i && k < |tgt| && tgt[k].Deflate? && tgt[k].name == Some(name) { assert now[k] == tgt[k]; }
    if c.Deflate? && c.name == Some(name) { assert now[i] == c; }
  }

  /** One round: chunk i became c, and the source is what that leaves. */
  lemma SofarNext(zlib: Zlib, srcImg: seq<byte>, tgtImg: seq<byte>, src0: seq<Chunk>, tgt0: seq<Chunk>,
                  src: seq<Chunk>, tgt: seq<Chunk>, i: nat, src': seq<Chunk>, c: Chunk)
    requires Sofar(zlib, srcImg, tgtImg, src0, tgt0, src, tgt, i) && i < |tgt| && tgt[i] == tgt0[i]
    requires c.Deflate? <==> Keeps(zlib, srcImg, tgtImg, src, tgt0[i], i, true)
    requires c.Deflate? ==> src' == src && c.name == tgt0[i].name
    requires tgt0[i].Deflate? && c.Normal? ==> tgt0[i].name.Some? && src' == Without(src, tgt0[i].name.value)
    requires tgt0[i].Normal? ==> c.Normal? && src' == src
    ensures Sofar(zlib, srcImg, tgtImg, src0, tgt0, src', tgt[i := c], i + 1)
  {
    hide Keeps, Without, FindByName, KeptOne;
    forall name: string
      ensures Spent(zlib, srcImg, tgtImg, src, tgt0, i, name, KeptOne(tgt, i, name))
        == Spent(zlib, srcImg, tgtImg, src', tgt0, i + 1, name, KeptOne(tgt[i := c], i + 1, name))
    {
      KeptNext(tgt, i, c, name);
      if tgt0[i].Deflate? && c.Normal? && tgt0[i].name != Some(name) {
        SpentOther(zlib, srcImg, tgtImg, src, tgt0, i + 1, name, KeptOne(tgt, i, name), tgt0[i].name.value);
      }
    }
  }

  lemma SofarEnd(zlib: Zlib, srcImg: seq<byte>, tgtImg: seq<byte>, src0: seq<Chunk>, tgt0: seq<Chunk>,
                 src: seq<Chunk>, tgt: seq<Chunk>)
    requires Sofar(zlib, srcImg, tgtImg, src0, tgt0, src, tgt, |tgt|) && Named(tgt)
    ensures Partnered(src, tgt) <==> NoneSpent(zlib, srcImg, tgtImg, src0, tgt0)
  {
    hide FindByName;
    if Partnered(src, tgt) {
      forall name: string ensures !Spent(zlib, srcImg, tgtImg, src0, tgt0, 0, name, false) {
        if KeptOne(tgt, |tgt|, name) {
          var k :| 0 <= k < |tgt| && tgt[k].Deflate? && tgt[k].name == Some(name);
          assert tgt[k] in tgt;
        }
      }
    }
    if NoneSpent(zlib, srcImg, tgtImg, src0, tgt0) {
      forall c | c in tgt && c.Deflate? ensures c.name.Some? && FindByName(c.name.value, src).Some? {
        var k :| 0 <= k < |tgt| && tgt[k] == c;
        assert KeptOne(tgt, |tgt|, c.name.value);
        assert !Spent(zlib, srcImg, tgtImg, src0, tgt0, 0, c.name.value, false);
      }
    }
  }

  /** Without more chunks of the name nothing changes any more. */
  lemma {:induction false} SpentLast(zlib: Zlib, srcImg: seq<byte>, tgtImg: seq<byte>, src: seq<Chunk>, tgt: seq<Chunk>,
                                     i: nat, name: string, kept: bool)
    requires forall k :: i <= k < |tgt| && tgt[k].Deflate? ==> tgt[k].name != Some(name)
    ensures Spent(zlib, srcImg, tgtImg, src, tgt, i, name, kept) <==> kept && FindByName(name, src) == None
    decreases |tgt| - i
  {
    if i < |tgt| { SpentLast(zlib, srcImg, tgtImg, src, tgt, i + 1, name, kept); }
  }

  lemma {:induction false} OnceUnspent(zlib: Zlib, srcImg: seq<byte>, tgtImg: seq<byte>, src: seq<Chunk>, tgt: seq<Chunk>,
                                       i: nat, name: string)
    requires DistinctNames(tgt)
    ensures !Spent(zlib, srcImg, tgtImg, src, tgt, i, name, false)
    decreases |tgt| - i
  {
    hide Without, Rebuildable;
    if i < |tgt| {
      if tgt[i].Deflate? && tgt[i].name == Some(name) {
        SpentLast(zlib, srcImg, tgtImg, src, tgt, i + 1, name, true);
        SpentLast(zlib, srcImg, tgtImg, Without(src, name), tgt, i + 1, name, false);
      } else {
        OnceUnspent(zlib, srcImg, tgtImg, src, tgt, i + 1, name);
      }
    }
  }

  /** No name of the target is spent when none repeats. */
  lemma DistinctUnspent(zlib: Zlib, srcImg: seq<byte>, tgtImg: seq<byte>, src: seq<Chunk>, tgt: seq<Chunk>)
    requires DistinctNames(tgt)
    ensures NoneSpent(zlib, srcImg, tgtImg, src, tgt)
  {
    forall name: string ensures !Spent(zlib, srcImg, tgtImg, src, tgt, 0, name, false) {
      OnceUnspent(zlib, srcImg, tgtImg, src, tgt, 0, name);
    }
  }

  // An archive of two entries of one name: the first differs from its partner, the second cannot be rebuilt.
  const STORED: Zlib := Zlib(x => if x == [] then None else Some(([if x[0] == 6 then 9 else x[0]], 1)), (p: Params, d) => d)
  const TWICE: seq<Chunk> := [Deflate(0, 1, [5], Some("a"), AtLevel(6)), Deflate(1, 1, [9], Some("a"), AtLevel(6))]
  const SINGLE: seq<Chunk> := [Normal(0, 1, 0), Deflate(0, 1, [7], Some("a"), AtLevel(6))]

  lemma ExampleBytes()
    ensures RawBytes([5, 6], TWICE[0]) == [5] && RawBytes([5, 6], TWICE[1]) == [6] && RawBytes([7], SINGLE[1]) == [7]
    ensures RawBytes([5, 6], TWICE[1].(params := AtLevel(9))) == [6]
  {
  }

  lemma ExampleKinds()
    ensures AllWellFormed(STORED, [7], SINGLE) && AllWellFormed(STORED, [5, 6], TWICE) && Tiles(TWICE, 0, 2) && Named(TWICE)
  {
    ExampleBytes();
    hide RawBytes;
  }

  lemma ExampleNames()
    ensures FindByName("a", SINGLE) == Some(1) && FindByName("a", Without(SINGLE, "a")) == None
  {
    assert FindByName("a", SINGLE) == Some(1) by { assert FindByName("a", SINGLE[1..]) == Some(0); }
    var left := Without(SINGLE, "a");
    assert left[1..][1..] == [] && FindByName("a", left[1..]) == None;
  }

  lemma ExampleKeeps()
    ensures Keeps(STORED, [7], [5, 6], SINGLE, TWICE[0], 0, true)
    ensures !Keeps(STORED, [7], [5, 6], SINGLE, TWICE[1], 1, true)
  {
    ExampleBytes();
    ExampleNames();
    hide FindByName, Without, RawBytes;
    assert [9][0] != [6][0] && [5][0] != [7][0];
    assert Rebuildable(STORED, [5, 6], TWICE[0]) && TWICE[0].(params := AtLevel(6)) == TWICE[0];
    assert !Rebuildable(STORED, [5, 6], TWICE[1].(params := AtLevel(6))) && !Rebuildable(STORED, [5, 6], TWICE[1].(params := AtLevel(9)));
  }

  lemma SpentExample()
    ensures AllWellFormed(STORED, [7], SINGLE) && AllWellFormed(STORED, [5, 6], TWICE) && Tiles(TWICE, 0, 2) && Named(TWICE)
    ensures !NoneSpent(STORED, [7], [5, 6], SINGLE, TWICE)
  {
    ExampleKinds();
    ExampleNames();
    ExampleKeeps();
    hide Keeps, Without, FindByName, AllWellFormed, Tiles, Named;
    var left := Without(SINGLE, "a");
    assert Spent(STORED, [7], [5, 6], left, TWICE, 2, "a", true);
    assert Spent(STORED, [7], [5, 6], SINGLE, TWICE, 1, "a", true);
    assert Spent(STORED, [7], [5, 6], SINGLE, TWICE, 0, "a", false);
  }

  lemma FixingSoftened(zlib: Zlib, tgtImg: seq<byte>, src0: seq<Chunk>, tgt0: seq<Chunk>, src: seq<Chunk>,
                       tgt: seq<Chunk>, i: nat, zipMode: bool)
    requires Fixing(zlib, tgtImg, src0, tgt0, src, tgt, i, zipMode)
    ensures AllSoftened(src0, src) && AllSoftened(tgt0, tgt) && (zipMode ==> Named(tgt))
  {
  }

  /** The bytes a chunk is patched as. */
  function Body(img: seq<byte>, c: Chunk): seq<byte>
    requires c.Normal? ==> c.at + c.len <= |img|
  {
    if c.Normal? then img[c.at..c.at + c.len] else c.data
  }

  /** A target chunk becomes raw data when it is short or its patch is no shorter, and a patch record otherwise. */
  method MakePatch(bz: Bzip, zlib: Zlib, srcImg: seq<byte>, s: Chunk, tgtImg: seq<byte>, t: Chunk)
    returns (r: Record, ghost patch: seq<byte>)
    requires SelfDelimiting(bz) && Modest(bz) && |srcImg| < TWO31 && |tgtImg| < TWO31
    requires WellFormed(zlib, srcImg, s) && WellFormed(zlib, tgtImg, t) && KindOf(s) == KindOf(t)
    requires t.Deflate? ==> Rebuildable(zlib, tgtImg, t)
    ensures Yields(bz, zlib, srcImg, r, RawBytes(tgtImg, t))
    ensures r.RawRecord? <==> t.Normal? && (t.len <= 160 || t.len <= |patch|)
    ensures t.Deflate? || t.len > 160 ==> Turns(bz, Body(srcImg, s), Body(tgtImg, t), patch)
    ensures !r.RawRecord? ==> r.patch == patch
    ensures r.NormalRecord? ==> t.Normal? && s.Normal? && r.sourceStart == s.start && r.sourceLen == s.len
    ensures r.DeflateRecord? ==> t.Deflate? && s.Deflate? && r.params == t.params && r.sourceStart == s.start && r.sourceLen == s.packedLen
  {
    hide Spells, Turns, PatchFile, SelfDelimiting, Modest, Decode, Placed;
    var text, target := Body(srcImg, s), Body(tgtImg, t);
    if t.Normal? {
      if t.len <= 160 {
        return RawRecord(target), [];
      }
    }
    var file, ctrl, diff, extra := WritePatch(bz, text, target);
    PatchTurns(bz, text, target, ctrl, diff, extra);
    patch := file;
    if t.Normal? && t.len <= |file| {
      return RawRecord(target), file;
    }
    match t {
      case Normal(_, _, _) =>
        r := NormalRecord(s.start, s.len, file);
      case Deflate(_, _, data, _, params) =>
        r := DeflateRecord(s.start, s.packedLen, |s.data|, |data|, params, file);
        assert Turns(bz, text, data, file) && zlib.deflate(params, data) == RawBytes(tgtImg, t);
    }
  }

  /** Which source chunk a target chunk is patched from. */
  function PatchSource(src: seq<Chunk>, t: Chunk, i: nat, zipMode: bool): (j: nat)
    requires if zipMode then 0 < |src| && (t.Deflate? ==> t.name.Some?) else i < |src|
    ensures j < |src|
  {
    if zipMode then
      if t.Deflate? then (match FindByName(t.name.value, src) case Some(j) => j case None => 0) else 0
    else i
  }

  lemma SourceFits(zlib: Zlib, srcImg: seq<byte>, tgtImg: seq<byte>, src: seq<Chunk>, tgt: seq<Chunk>, i: nat,
                   zipMode: bool)
    requires Fixed(zlib, srcImg, tgtImg, src, tgt, zipMode) && i < |tgt|
    ensures if zipMode then 0 < |src| && (tgt[i].Deflate? ==> tgt[i].name.Some?) else i < |src|
    ensures var s := src[PatchSource(src, tgt[i], i, zipMode)];
      && WellFormed(zlib, srcImg, s) && WellFormed(zlib, tgtImg, tgt[i]) && KindOf(s) == KindOf(tgt[i])
      && (tgt[i].Deflate? ==> Rebuildable(zlib, tgtImg, tgt[i]))
      && (if !zipMode then s == src[i] else if tgt[i].Deflate? then s.name == tgt[i].name else s == Normal(0, |srcImg|, 0))
  {
    hide WellFormed, Rebuildable;
    assert tgt[i] in tgt && Ready(zlib, tgtImg, tgt[i]);
    if !zipMode {
      assert |Kinds(src)| == |Kinds(tgt)|;
      assert Kinds(src)[i] == Kinds(tgt)[i];
    }
    assert src[PatchSource(src, tgt[i], i, zipMode)] in src;
  }

  /** Patches for all chunks, and the file. */
  method PatchChunks(bz: Bzip, zlib: Zlib, srcImg: seq<byte>, tgtImg: seq<byte>, src: seq<Chunk>,
                     tgt: seq<Chunk>, zipMode: bool)
    returns (file: seq<byte>)
    requires SelfDelimiting(bz) && Modest(bz) && |srcImg| < TWO31 && |tgtImg| < TWO31 && |tgt| < TWO31
    requires Fixed(zlib, srcImg, tgtImg, src, tgt, zipMode) && Tiles(tgt, 0, |tgtImg|)
    ensures |file| < TWO63 ==> Apply(bz, zlib, srcImg, file) == Done(tgtImg)
  {
    hide SelfDelimiting, Modest, Fixed, WellFormed, Rebuildable, Yields, ImageFile, Tiles, PatchSource, Apply;
    var rs: seq<Record> := [];
    ghost var pieces: seq<seq<byte>> := [];
    for i := 0 to |tgt|
      invariant |rs| == |pieces| == i
      invariant forall k :: 0 <= k < i ==> tgt[k].start + Extent(tgt[k]) <= |tgtImg| && pieces[k] == RawBytes(tgtImg, tgt[k])
      invariant forall k :: 0 <= k < i ==> Yields(bz, zlib, srcImg, rs[k], pieces[k])
    {
      SourceFits(zlib, srcImg, tgtImg, src, tgt, i, zipMode);
      WellFormedInside(zlib, tgtImg, tgt[i]);
      var r, _ := MakePatch(bz, zlib, srcImg, src[PatchSource(src, tgt[i], i, zipMode)], tgtImg, tgt[i]);
      rs := rs + [r];
      pieces := pieces + [RawBytes(tgtImg, tgt[i])];
    }
    file := WriteImage(rs);
    if |file| < TWO63 {
      ImageRoundTrip(bz, zlib, srcImg, rs, pieces);
      TilesSpell(tgtImg, tgt, 0, pieces, |tgt|);
      assert tgtImg[0..] == tgtImg;
    }
  }

  lemma WellFormedInside(zlib: Zlib, img: seq<byte>, c: Chunk)
    requires WellFormed(zlib, img, c)
    ensures c.start + Extent(c) <= |img|
  {
  }

  /** Merging both lists of an image, or the target list of a zip, keeps what the fixing loop achieved. */
  lemma FixedMerged(zlib: Zlib, srcImg: seq<byte>, tgtImg: seq<byte>, src: seq<Chunk>, tgt: seq<Chunk>, zipMode: bool)
    requires Fixed(zlib, srcImg, tgtImg, src, tgt, zipMode) && Tiles(tgt, 0, |tgtImg|)
    requires !zipMode ==> Tiles(src, 0, |srcImg|)
    ensures Fixed(zlib, srcImg, tgtImg, if zipMode then src else Merged(src), Merged(tgt), zipMode)
    ensures Tiles(Merged(tgt), 0, |tgtImg|)
  {
    hide Tiles, WellFormed, Merged, Rebuildable;
    MergedTiles(tgt, 0, |tgtImg|);
    MergedWellFormed(zlib, tgtImg, tgt);
    MergedWellFormed(zlib, srcImg, src);
    if !zipMode { MergedParallel(zlib, srcImg, src, |srcImg|, tgtImg, tgt, |tgtImg|); }
    forall c | c in Merged(tgt) ensures Ready(zlib, tgtImg, c) {
      if c.Deflate? { assert c in tgt && Ready(zlib, tgtImg, c); }
    }
  }

  lemma SoftenedMerged(was: seq<Chunk>, now: seq<Chunk>, end: nat)
    requires AllSoftened(was, now) && Tiles(was, 0, end)
    ensures Tiles(now, 0, end)
  {
    SoftenedTiles(was, now, 0, end);
  }

  lemma ImageParallel(zlib: Zlib, srcImg: seq<byte>, tgtImg: seq<byte>, src: seq<Chunk>, tgt: seq<Chunk>)
    requires Fixed(zlib, srcImg, tgtImg, src, tgt, false) && Tiles(src, 0, |srcImg|) && Tiles(tgt, 0, |tgtImg|)
    ensures |Merged(src)| == |Merged(tgt)|
  {
    hide Tiles, WellFormed, Merged, Ready;
    MergedParallel(zlib, srcImg, src, |srcImg|, tgtImg, tgt, |tgtImg|);
  }

  /** The two chunk lists have the same kinds in the same order. */
  method SameStructure(src: array<Chunk>, ns: nat, tgt: array<Chunk>, nt: nat) returns (same: bool)
    requires ns <= src.Length && nt <= tgt.Length
    ensures same <==> Kinds(src[..ns]) == Kinds(tgt[..nt])
  {
    if ns != nt {
      assert |Kinds(src[..ns])| != |Kinds(tgt[..nt])|;
      return false;
    }
    for i := 0 to ns
      invariant forall k :: 0 <= k < i ==> KindOf(src[k]) == KindOf(tgt[k])
    {
      if KindOf(src[i]) != KindOf(tgt[i]) {
        assert Kinds(src[..ns])[i] != Kinds(tgt[..nt])[i];
        return false;
      }
    }
    return true;
  }

  lemma StillTiled(zlib: Zlib, img: seq<byte>, cs: seq<Chunk>)
    requires AllWellFormed(zlib, img, cs) && Tiles(cs, 0, |img|)
    ensures AllWellFormed(zlib, img, Merged(cs)) && Tiles(Merged(cs), 0, |img|)
  {
    MergedWellFormed(zlib, img, cs);
    MergedTiles(cs, 0, |img|);
  }

  /** The chunk lists of two plain images: rejected when their structure differs, and otherwise patched. */
  method DiffImages(bz: Bzip, zlib: Zlib, srcImg: seq<byte>, tgtImg: seq<byte>, src: array<Chunk>, tgt: array<Chunk>)
    returns (r: Option<seq<byte>>)
    requires SelfDelimiting(bz) && Modest(bz) && |srcImg| < TWO31 && |tgtImg| < TWO31 && tgt.Length < TWO31 && src != tgt
    requires AllWellFormed(zlib, srcImg, src[..]) && Tiles(src[..], 0, |srcImg|)
    requires AllWellFormed(zlib, tgtImg, tgt[..]) && Tiles(tgt[..], 0, |tgtImg|)
    modifies src, tgt
    ensures r == None <==> Kinds(Merged(old(src[..]))) != Kinds(Merged(old(tgt[..])))
    ensures r.Some? && |r.value| < TWO63 ==> Apply(bz, zlib, srcImg, r.value) == Done(tgtImg)
  {
    hide SelfDelimiting, Modest, Fixed, WellFormed, Tiles, Merged, Apply, AllSoftened, AllWellFormed, Kinds;
    assert src[..src.Length] == src[..] && tgt[..tgt.Length] == tgt[..];
    StillTiled(zlib, srcImg, src[..]);
    StillTiled(zlib, tgtImg, tgt[..]);
    var nt := MergeAdjacentNormalChunks(tgt, tgt.Length);
    var ns := MergeAdjacentNormalChunks(src, src.Length);
    var same := SameStructure(src, ns, tgt, nt);
    if !same { return None; }
    ghost var src0, tgt0 := src[..ns], tgt[..nt];
    FixChunks(zlib, srcImg, tgtImg, src, ns, tgt, nt, false);
    SoftenedMerged(src0, src[..ns], |srcImg|);
    SoftenedMerged(tgt0, tgt[..nt], |tgtImg|);
    FixedMerged(zlib, srcImg, tgtImg, src[..ns], tgt[..nt], false);
    ImageParallel(zlib, srcImg, tgtImg, src[..ns], tgt[..nt]);
    nt := MergeAdjacentNormalChunks(tgt, nt);
    ns := MergeAdjacentNormalChunks(src, ns);
    if ns != nt {
      assert false;  // "merging normal chunks went awry"
    }
    var file := PatchChunks(bz, zlib, srcImg, tgtImg, src[..ns], tgt[..nt], false);
    return Some(file);
  }

  /** The chunk lists of two zip files: entries are matched by name, the rest is patched from the whole source.
      None: a chunk left deflated has lost its partner, and its record would hold a length that was never set. */
  method DiffZips(bz: Bzip, zlib: Zlib, srcImg: seq<byte>, tgtImg: seq<byte>, src: array<Chunk>, tgt: array<Chunk>)
    returns (r: Option<seq<byte>>)
    requires SelfDelimiting(bz) && Modest(bz) && |srcImg| < TWO31 && |tgtImg| < TWO31 && tgt.Length < TWO31 && src != tgt
    requires AllWellFormed(zlib, srcImg, src[..]) && 0 < src.Length && src[0] == Normal(0, |srcImg|, 0)
    requires AllWellFormed(zlib, tgtImg, tgt[..]) && Tiles(tgt[..], 0, |tgtImg|) && Named(tgt[..])
    modifies src, tgt
    ensures r.Some? <==> NoneSpent(zlib, srcImg, tgtImg, old(src[..]), old(tgt[..]))
    ensures r.Some? && |r.value| < TWO63 ==> Apply(bz, zlib, srcImg, r.value) == Done(tgtImg)
  {
    hide SelfDelimiting, Modest, Fixed, WellFormed, Tiles, Merged, Apply, AllSoftened, AllWellFormed, Named, NoneSpent, Partnered;
    assert src[..src.Length] == src[..] && tgt[..tgt.Length] == tgt[..];
    ghost var tgt0 := tgt[..];
    FixChunks(zlib, srcImg, tgtImg, src, src.Length, tgt, tgt.Length, true);
    assert src[..src.Length] == src[..] && tgt[..tgt.Length] == tgt[..];
    if !Partnered(src[..], tgt[..]) { return None; }
    SoftenedMerged(tgt0, tgt[..tgt.Length], |tgtImg|);
    FixedMerged(zlib, srcImg, tgtImg, src[..src.Length], tgt[..tgt.Length], true);
    var nt := MergeAdjacentNormalChunks(tgt, tgt.Length);
    var file := PatchChunks(bz, zlib, srcImg, tgtImg, src[..src.Length], tgt[..nt], true);
    return Some(file);
  }
}
