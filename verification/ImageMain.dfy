/** The image differ from file to file. */
module ImageMain {
  import opened Bytes
  import opened Encoding
  import opened BsPatch
  import opened ImageFormat
  import opened ImagePatch
  import opened ImageChunks
  import opened ImageDiff
  import opened ImageRead

  /** Two images cut into the same kinds of chunks, once the gzip headers and footers are merged in. */
  ghost predicate SameShape(a: ReadResult, b: ReadResult) {
    a.Chunks? && b.Chunks? && Kinds(Merged(a.cs)) == Kinds(Merged(b.cs))
  }

  /** Plain images: a patch comes out exactly when both can be cut and have the same shape; it rebuilds the target. */
  method PatchForImage(bz: Bzip, zlib: Zlib, srcImg: seq<byte>, tgtImg: seq<byte>) returns (r: Option<seq<byte>>)
    requires SelfDelimiting(bz) && Modest(bz) && StreamEnds(zlib) && |srcImg| < TWO31 && |tgtImg| < TWO31
    ensures r.Some? <==> SameShape(ReadFrom(zlib, srcImg, 0), ReadFrom(zlib, tgtImg, 0))
    ensures r.Some? && |r.value| < TWO63 ==> Apply(bz, zlib, srcImg, r.value) == Done(tgtImg)
  {
    hide ReadFrom, Merged, Tiles, AllWellFormed, SelfDelimiting, Modest, StreamEnds, Apply;
    var a := ReadImage(zlib, srcImg);
    if !a.Chunks? { return None; }
    var b := ReadImage(zlib, tgtImg);
    if !b.Chunks? { return None; }
    ReadTiles(zlib, srcImg, 0);
    ReadTiles(zlib, tgtImg, 0);
    var src := new Chunk[|a.cs|](i requires 0 <= i < |a.cs| => a.cs[i]);
    var tgt := new Chunk[|b.cs|](i requires 0 <= i < |b.cs| => b.cs[i]);
    assert src[..] == a.cs && tgt[..] == b.cs;
    r := DiffImages(bz, zlib, srcImg, tgtImg, src, tgt);
  }

  /** Zip files with sorted directories. Whatever patch comes out rebuilds the target; with entries apart from each other
      and the target's of different names one does exactly when all entries of both inflate to their recorded sizes. */
  method PatchForZip(bz: Bzip, zlib: Zlib, srcImg: seq<byte>, srcEntries: seq<Entry>, tgtImg: seq<byte>,
                     tgtEntries: seq<Entry>)
    returns (r: Option<seq<byte>>)
    requires SelfDelimiting(bz) && Modest(bz) && |srcImg| < TWO31 && |tgtImg| < TWO31
    requires Sized(srcEntries) && Sized(tgtEntries) && |tgtEntries| < 0x1_0000
    ensures Apart(srcEntries, 0, |srcImg|) && Apart(tgtEntries, 0, |tgtImg|) && DistinctEntries(tgtEntries) ==> (r.Some? <==>
      && (forall e :: e in srcEntries ==> InflatingOf(zlib, srcImg, e) == Exact)
      && (forall e :: e in tgtEntries ==> InflatingOf(zlib, tgtImg, e) == Exact))
    ensures r.Some? && |r.value| < TWO63 ==> Apply(bz, zlib, srcImg, r.value) == Done(tgtImg)
  {
    hide Tiles, AllWellFormed, SelfDelimiting, Modest, Apply, Apart, Named, DistinctNames, InflatingOf, NoneSpent;
    var a := ReadZip(zlib, srcImg, srcEntries, true);
    if !a.Chunks? { return None; }
    var b := ReadZip(zlib, tgtImg, tgtEntries, false);
    if !b.Chunks? { return None; }
    var src := new Chunk[|a.cs|](i requires 0 <= i < |a.cs| => a.cs[i]);
    var tgt := new Chunk[|b.cs|](i requires 0 <= i < |b.cs| => b.cs[i]);
    assert src[..] == a.cs && tgt[..] == b.cs;
    if DistinctEntries(tgtEntries) { DistinctUnspent(zlib, srcImg, tgtImg, a.cs, b.cs); }
    r := DiffZips(bz, zlib, srcImg, tgtImg, src, tgt);
  }
}
