/** Cutting an image or a zip file into chunks. */
module ImageRead {
  import opened Bytes
  import opened Slices
  import opened Encoding
  import opened ImageFormat
  import opened ImageChunks
  import opened ImageDiff

  /** A stream says itself where it ends: what follows it does not matter. */
  ghost predicate StreamEnds(zlib: Zlib) {
    forall x :: zlib.inflate(x).Some? ==>
      && zlib.inflate(x).value.1 <= |x|
      && zlib.inflate(x[..zlib.inflate(x).value.1]) == zlib.inflate(x)
  }

  /** The chunks, a failure return, bytes past the end of the image or never written or a length below zero, or a loop
      that never ends. */
  datatype ReadResult = Chunks(cs: seq<Chunk>) | Refused | Malformed | Endless

  const HEADER_LEN := 10
  const FOOTER_LEN := 8
  const UNSET := Params(0, 0, 0, 0, 0)

  /** 1f 8b 08 00 at p, looking past the end of the image into four zero bytes. */
  predicate MagicAt(img: seq<byte>, p: nat)
    requires p <= |img|
  {
    (img + [0, 0, 0, 0])[p..p + 4] == [0x1f, 0x8b, 0x08, 0x00]
  }

  /** How long the normal chunk at pos is: up to the next magic, or to the end. */
  function NormalLen(img: seq<byte>, pos: nat, n: nat): (len: nat)
    requires pos + n <= |img|
    ensures n <= len <= |img| - pos
    ensures pos + len < |img| ==> MagicAt(img, pos + len)
    ensures forall q :: pos + n <= q < pos + len ==> !MagicAt(img, q)
    decreases |img| - pos - n
  {
    if pos + n == |img| || MagicAt(img, pos + n) then n else NormalLen(img, pos, n + 1)
  }

  /** The chunks that start at pos, with the position behind them, or what ends the reading. */
  datatype Piece = Piece(front: seq<Chunk>, next: nat) | Halt(r: ReadResult)

  /** Header, stream and footer of a gzip section; the stream is inflated to find its end. */
  function GzipPiece(zlib: Zlib, img: seq<byte>, pos: nat): (p: Piece)
    requires pos < |img|
    ensures p.Piece? ==> pos < p.next <= |img| && |p.front| <= p.next - pos
    ensures p.Halt? ==> !p.r.Chunks?
  {
    var at := pos + HEADER_LEN;
    if at > |img| then Halt(Malformed)
    else match zlib.inflate(img[at..])
      case None => Halt(Endless)
      case Some((data, n)) =>
        if at + n + FOOTER_LEN > |img| then Halt(Malformed)
        else if Read4(img[at + n + 4..at + n + 8]) != |data| then Halt(Refused)
        else Piece([Normal(pos, HEADER_LEN, pos), Deflate(at, n, data, None, UNSET), Normal(at + n, FOOTER_LEN, at + n)],
                   at + n + FOOTER_LEN)
  }

  /** A normal chunk; one of no length makes no progress. */
  function NormalPiece(img: seq<byte>, pos: nat): (p: Piece)
    requires pos < |img|
    ensures p.Piece? ==> pos < p.next <= |img| && |p.front| <= p.next - pos
    ensures p.Halt? ==> p.r == Endless
  {
    var len := NormalLen(img, pos, 0);
    if len == 0 then Halt(Endless) else Piece([Normal(pos, len, pos)], pos + len)
  }

  function PieceAt(zlib: Zlib, img: seq<byte>, pos: nat): (p: Piece)
    requires pos < |img|
    ensures p.Piece? ==> pos < p.next <= |img| && |p.front| <= p.next - pos
    ensures p.Halt? ==> !p.r.Chunks?
  {
    if |img| - pos >= 4 && MagicAt(img, pos) then GzipPiece(zlib, img, pos) else NormalPiece(img, pos)
  }

  function ReadFrom(zlib: Zlib, img: seq<byte>, pos: nat): ReadResult
    requires pos <= |img|
    decreases |img| - pos
  {
    if pos == |img| then Chunks([])
    else match PieceAt(zlib, img, pos)
      case Piece(front, next) => Behind(front, ReadFrom(zlib, img, next))
      case Halt(r) => r
  }

  function Behind(front: seq<Chunk>, r: ReadResult): ReadResult {
    match r
    case Chunks(cs) => Chunks(front + cs)
    case _ => r
  }

  lemma BehindBehind(a: seq<Chunk>, b: seq<Chunk>, r: ReadResult)
    ensures Behind(a, Behind(b, r)) == Behind(a + b, r)
  {
    if r.Chunks? { assert a + (b + r.cs) == a + b + r.cs; }
  }

  method ReadImage(zlib: Zlib, img: seq<byte>) returns (r: ReadResult)
    ensures r == ReadFrom(zlib, img, 0)
  {
    hide MagicAt, GzipPiece, NormalPiece, Behind;
    var pos := 0;
    var chunks: seq<Chunk> := [];
    BehindNone(ReadFrom(zlib, img, 0));
    while pos < |img|
      invariant 0 <= pos <= |img| && ReadFrom(zlib, img, 0) == Behind(chunks, ReadFrom(zlib, img, pos))
      decreases |img| - pos
    {
      var piece;
      if |img| - pos >= 4 && MagicAt(img, pos) {
        piece := GzipPiece(zlib, img, pos);
      } else {
        piece := ScanNormal(img, pos);
      }
      match piece {
        case Halt(o) =>
          BehindHalt(chunks, o);
          return o;
        case Piece(front, next) =>
          BehindBehind(chunks, front, ReadFrom(zlib, img, next));
          chunks, pos := chunks + front, next;
      }
    }
    BehindAll(chunks);
    return Chunks(chunks);
  }

  /** The scan for the next magic. */
  method ScanNormal(img: seq<byte>, pos: nat) returns (p: Piece)
    requires pos < |img|
    ensures p == NormalPiece(img, pos)
  {
    hide MagicAt;
    var len := 0;
    while len < |img| - pos && !MagicAt(img, pos + len)
      invariant len <= |img| - pos && NormalLen(img, pos, 0) == NormalLen(img, pos, len)
    {
      len := len + 1;
    }
    if len == 0 { return Halt(Endless); }
    return Piece([Normal(pos, len, pos)], pos + len);
  }

  lemma BehindHalt(chunks: seq<Chunk>, r: ReadResult)
    requires !r.Chunks?
    ensures Behind(chunks, r) == r
  {
  }

  lemma BehindAll(chunks: seq<Chunk>)
    ensures Behind(chunks, Chunks([])) == Chunks(chunks)
  {
    assert chunks + [] == chunks;
  }

  lemma BehindNone(r: ReadResult)
    ensures Behind([], r) == r
  {
    if r.Chunks? { assert [] + r.cs == r.cs; }
  }

  /** The chunks tile the image, and each is what it says. */
  lemma {:induction false} ReadTiles(zlib: Zlib, img: seq<byte>, pos: nat)
    requires StreamEnds(zlib) && pos <= |img| && ReadFrom(zlib, img, pos).Chunks?
    ensures Tiles(ReadFrom(zlib, img, pos).cs, pos, |img|)
    ensures AllWellFormed(zlib, img, ReadFrom(zlib, img, pos).cs)
    ensures |ReadFrom(zlib, img, pos).cs| <= |img| - pos
    decreases |img| - pos
  {
    hide PieceAt, StreamEnds, WellFormed;
    if pos < |img| {
      var piece := PieceAt(zlib, img, pos);
      ReadTiles(zlib, img, piece.next);
      PieceTiles(zlib, img, pos, ReadFrom(zlib, img, piece.next).cs);
    }
  }

  lemma PieceTiles(zlib: Zlib, img: seq<byte>, pos: nat, rest: seq<Chunk>)
    requires StreamEnds(zlib) && pos < |img| && PieceAt(zlib, img, pos).Piece?
    requires Tiles(rest, PieceAt(zlib, img, pos).next, |img|) && AllWellFormed(zlib, img, rest)
    ensures Tiles(PieceAt(zlib, img, pos).front + rest, pos, |img|)
    ensures AllWellFormed(zlib, img, PieceAt(zlib, img, pos).front + rest)
  {
    hide MagicAt, StreamEnds, Tiles;
    var front := PieceAt(zlib, img, pos).front;
    if |img| - pos >= 4 && MagicAt(img, pos) {
      var a, b, c := front[0], front[1], front[2];
      DeflateWellFormed(zlib, img, b);
      TilesBefore(c, rest, c.start + c.len, |img|);
      TilesBefore(b, [c] + rest, c.start, |img|);
      TilesBefore(a, [b] + ([c] + rest), b.start, |img|);
      assert front + rest == [a] + ([b] + ([c] + rest));
    } else {
      TilesBefore(front[0], rest, pos + front[0].len, |img|);
    }
  }

  lemma TilesBefore(c: Chunk, cs: seq<Chunk>, pos: nat, end: nat)
    requires Tiles(cs, pos, end) && c.start + Extent(c) == pos
    ensures Tiles([c] + cs, c.start, end)
  {
    assert ([c] + cs)[1..] == cs;
  }

  lemma DeflateWellFormed(zlib: Zlib, img: seq<byte>, c: Chunk)
    requires StreamEnds(zlib) && c.Deflate? && c.start <= |img| && |c.data| < TWO31
    requires zlib.inflate(img[c.start..]) == Some((c.data, c.packedLen))
    ensures WellFormed(zlib, img, c)
  {
    var x := img[c.start..];
    assert x[..c.packedLen] == RawBytes(img, c);
  }

  // What an image that is put together reads as

  ghost predicate Inflates(zlib: Zlib, s: seq<byte>, d: seq<byte>) {
    forall more :: zlib.inflate(s + more) == Some((d, |s|))
  }

  /** A gzip section, wherever it stands: ten bytes of header that begin with the magic, a stream, four bytes of checksum,
      and the length of what the stream holds. It is read as three chunks when that length is right, and refused
      when it is not. */
  lemma GzipReads(zlib: Zlib, before: seq<byte>, header: seq<byte>, s: seq<byte>, d: seq<byte>, crc: seq<byte>,
                  size: seq<byte>, rest: seq<byte>)
    requires |header| == 10 && header[..4] == [0x1f, 0x8b, 0x08, 0x00] && Inflates(zlib, s, d)
    requires |crc| == 4 && |size| == 4 && |d| < TWO31
    ensures var img, p := before + header + s + crc + size + rest, |before|;
      ReadFrom(zlib, img, p) ==
        if size == Write4(|d|) then
          Behind([Normal(p, 10, p), Deflate(p + 10, |s|, d, None, UNSET), Normal(p + 10 + |s|, 8, p + 10 + |s|)],
                 ReadFrom(zlib, img, p + 10 + |s| + 8))
        else Refused
  {
    hide Read4, Write4, ReadFrom;
    var img, p := before + header + s + crc + size + rest, |before|;
    GzipPlaces(before, header, s, crc, size, rest);
    Read4Exactly(size, |d|);
    assert zlib.inflate(img[p + 10..]) == Some((d, |s|)) by { assert img[p + 10..] == s + (crc + size + rest); }
    ReadPiece(zlib, img, p);
  }

  lemma GzipPlaces(before: seq<byte>, header: seq<byte>, s: seq<byte>, crc: seq<byte>, size: seq<byte>, rest: seq<byte>)
    requires |header| == 10 && |crc| == 4 && |size| == 4
    ensures var img, p := before + header + s + crc + size + rest, |before|;
      && img[p + 10..] == s + (crc + size + rest) && img[p + 10 + |s| + 4..p + 10 + |s| + 8] == size
      && (img + [0, 0, 0, 0])[p..p + 4] == header[..4] && |img| == p + 10 + |s| + 8 + |rest|
  {
  }

  lemma ReadPiece(zlib: Zlib, img: seq<byte>, pos: nat)
    requires pos < |img|
    ensures ReadFrom(zlib, img, pos) == match PieceAt(zlib, img, pos)
      case Piece(front, next) => Behind(front, ReadFrom(zlib, img, next))
      case Halt(r) => r
  {
  }

  /** The bytes 1f 8b 08 00. */
  predicate GzipStarts(img: seq<byte>, q: nat) {
    q + 4 <= |img| && img[q] == 0x1f && img[q + 1] == 0x8b && img[q + 2] == 0x08 && img[q + 3] == 0x00
  }

  /** Bytes in which no magic begins are read as one normal chunk, up to the next magic or the end of the image, which
      must not be half a magic. */
  lemma PlainReads(zlib: Zlib, img: seq<byte>, pos: nat, len: nat)
    requires 0 < len && pos + len <= |img|
    requires forall q :: pos <= q < pos + len ==> !GzipStarts(img, q)
    requires if pos + len < |img| then GzipStarts(img, pos + len)
             else pos + 3 <= |img| ==> img[|img| - 3..] != [0x1f, 0x8b, 0x08]
    ensures ReadFrom(zlib, img, pos) == Behind([Normal(pos, len, pos)], ReadFrom(zlib, img, pos + len))
  {
    hide ReadFrom, NormalLen;
    forall q | pos <= q < pos + len ensures !MagicAt(img, q) { NoMagicAt(img, q); }
    if pos + len < |img| { assert MagicAt(img, pos + len); }
    assert NormalLen(img, pos, 0) == len;
    ReadPiece(zlib, img, pos);
  }

  lemma NoMagicAt(img: seq<byte>, q: nat)
    requires q < |img| && !GzipStarts(img, q)
    requires q + 3 == |img| ==> img[|img| - 3..] != [0x1f, 0x8b, 0x08]
    ensures !MagicAt(img, q)
  {
    var w := (img + [0, 0, 0, 0])[q..q + 4];
    assert w != [0x1f, 0x8b, 0x08, 0x00] ==> !MagicAt(img, q);
    if q + 4 <= |img| {
      assert w == [img[q], img[q + 1], img[q + 2], img[q + 3]];
    } else if q + 3 == |img| {
      assert img[|img| - 3..] == [w[0], w[1], w[2]];
    } else {
      assert w[2] == 0;
    }
  }

  /** The image ends in 1f 8b 08, which the four zero bytes behind it complete to a magic. */
  predicate HalfMagic(img: seq<byte>) {
    |img| >= 3 && img[|img| - 3..] == [0x1f, 0x8b, 0x08]
  }

  lemma NoProgress(img: seq<byte>, pos: nat)
    requires pos < |img|
    ensures !(|img| - pos >= 4) && NormalLen(img, pos, 0) == 0 <==> pos == |img| - 3 && HalfMagic(img)
  {
    var w := (img + [0, 0, 0, 0])[pos..pos + 4];
    if |img| - pos < 4 {
      assert w == img[pos..] + [0, 0, 0, 0][..4 - (|img| - pos)];
      assert NormalLen(img, pos, 0) == 0 <==> MagicAt(img, pos);
      if pos == |img| - 3 {
        assert w == img[|img| - 3..] + [0];
        if HalfMagic(img) { assert w == [0x1f, 0x8b, 0x08, 0x00]; }
        if MagicAt(img, pos) { assert img[|img| - 3..] == w[..3]; }
      } else {
        assert w[2] == 0;
      }
    }
  }

  /** Does the reading hang at p: in front of half a magic, where a normal chunk gets no length,
      or at a gzip header behind which inflating never comes to the end of a stream? */
  predicate HangsAt(zlib: Zlib, img: seq<byte>, p: nat) {
    && p < |img|
    && (|| (p == |img| - 3 && HalfMagic(img))
        || (|img| - p >= 4 && MagicAt(img, p) && p + HEADER_LEN <= |img| && zlib.inflate(img[p + HEADER_LEN..]) == None))
  }

  /** The scan from pos on comes to stand at p. */
  predicate Visits(zlib: Zlib, img: seq<byte>, pos: nat, p: nat)
    requires pos <= |img|
    decreases |img| - pos
  {
    p == pos || (pos < |img| && PieceAt(zlib, img, pos).Piece? && Visits(zlib, img, PieceAt(zlib, img, pos).next, p))
  }

  lemma HaltExactly(zlib: Zlib, img: seq<byte>, pos: nat)
    requires pos < |img|
    ensures PieceAt(zlib, img, pos) == Halt(Endless) <==> HangsAt(zlib, img, pos)
  {
    hide MagicAt, NormalLen, HalfMagic;
    NoProgress(img, pos);
    FullMagic(img, pos);
  }

  lemma FullMagic(img: seq<byte>, pos: nat)
    requires pos < |img|
    ensures |img| - pos >= 4 && !MagicAt(img, pos) ==> NormalLen(img, pos, 0) > 0
  {
  }

  /** Reading never ends exactly when the scan comes to a place where it hangs. */
  lemma {:induction false} EndlessExactly(zlib: Zlib, img: seq<byte>, pos: nat)
    requires pos <= |img|
    ensures ReadFrom(zlib, img, pos) == Endless <==> exists p: nat :: Visits(zlib, img, pos, p) && HangsAt(zlib, img, p)
    decreases |img| - pos
  {
    hide PieceAt, HangsAt;
    if pos == |img| {
      NothingHangs(zlib, img);
    } else {
      HaltExactly(zlib, img, pos);
      if PieceAt(zlib, img, pos).Piece? {
        var next := PieceAt(zlib, img, pos).next;
        EndlessExactly(zlib, img, next);
        if p: nat :| Visits(zlib, img, next, p) && HangsAt(zlib, img, p) { assert Visits(zlib, img, pos, p); }
        if p: nat :| Visits(zlib, img, pos, p) && HangsAt(zlib, img, p) { assert p != pos && Visits(zlib, img, next, p); }
      } else if PieceAt(zlib, img, pos) == Halt(Endless) {
        assert Visits(zlib, img, pos, pos);
      }
    }
  }

  lemma NothingHangs(zlib: Zlib, img: seq<byte>)
    ensures !HangsAt(zlib, img, |img|)
  {
  }

  /** Three bytes are enough. */
  lemma EndlessExample(zlib: Zlib)
    ensures ReadFrom(zlib, [0x1f, 0x8b, 0x08], 0) == Endless
  {
    NoProgress([0x1f, 0x8b, 0x08], 0);
  }

  /** So is a gzip header with nothing behind it, if no stream is empty; it does not end in half a magic. */
  lemma CutOffExample(zlib: Zlib)
    requires zlib.inflate([]) == None
    ensures ReadFrom(zlib, [0x1f, 0x8b, 0x08, 0, 0, 0, 0, 0, 0, 0], 0) == Endless
    ensures !HalfMagic([0x1f, 0x8b, 0x08, 0, 0, 0, 0, 0, 0, 0])
  {
    var img: seq<byte> := [0x1f, 0x8b, 0x08, 0, 0, 0, 0, 0, 0, 0];
    assert (img + [0, 0, 0, 0])[0..4] == [0x1f, 0x8b, 0x08, 0x00];
    assert img[10..] == [];
    assert img[7..] == [0, 0, 0];
  }

  // Zip files

  datatype Entry = Entry(offset: nat, packedLen: nat, fullLen: nat, name: string)

  /** Sorted, apart from each other, and inside the file. */
  ghost predicate Apart(es: seq<Entry>, pos: nat, end: nat) {
    if |es| == 0 then pos <= end
    else pos <= es[0].offset && Apart(es[1..], es[0].offset + es[0].packedLen, end)
  }

  ghost predicate Sized(es: seq<Entry>) {
    forall e :: e in es ==> e.fullLen < TWO31
  }

  /** What inflating an entry gives, when there is anything of it: just the size that the directory says,
      more than fits a buffer of that size or no whole stream, or less. */
  datatype Inflating = Exact | Overlong | Short

  function InflatingOf(zlib: Zlib, img: seq<byte>, e: Entry): Inflating {
    if !(e.offset < |img| && e.offset + e.packedLen <= |img|) then Exact
    else match zlib.inflate(img[e.offset..e.offset + e.packedLen])
      case None => Overlong
      case Some((data, _)) => if |data| > e.fullLen then Overlong else if |data| < e.fullLen then Short else Exact
  }

  /** The chunks of a zip file from pos on, with the entries still ahead. */
  ghost predicate Cut(zlib: Zlib, img: seq<byte>, cs: seq<Chunk>, es: seq<Entry>, pos: nat, distinct: bool) {
    && AllWellFormed(zlib, img, cs)
    && (distinct ==> forall i, j :: 0 <= i < j < |cs| && cs[i].Deflate? && cs[j].Deflate? ==> cs[i].name != cs[j].name)
    && (forall c :: c in cs && c.Deflate? ==> c.name.Some? && (distinct ==> forall e :: e in es ==> c.name != Some(e.name)))
    && TilesTo(cs, 0, pos)
  }

  /** Tiling up to pos, for a list that grows at its end. */
  ghost predicate TilesTo(cs: seq<Chunk>, pos: nat, end: nat) {
    if |cs| == 0 then pos == end
    else TilesTo(cs[..|cs| - 1], pos, cs[|cs| - 1].start) && end == cs[|cs| - 1].start + Extent(cs[|cs| - 1])
  }

  lemma {:induction false} TilesToTiles(cs: seq<Chunk>, more: seq<Chunk>, pos: nat, mid: nat, end: nat)
    requires TilesTo(cs, pos, mid) && Tiles(more, mid, end)
    ensures Tiles(cs + more, pos, end)
    decreases |cs|
  {
    if |cs| == 0 {
      assert cs + more == more;
    } else {
      var n := |cs| - 1;
      assert ([cs[n]] + more)[1..] == more;
      TilesToTiles(cs[..n], [cs[n]] + more, pos, cs[n].start, end);
      assert cs[..n] + ([cs[n]] + more) == cs + more;
    }
  }

  lemma CutNormal(zlib: Zlib, img: seq<byte>, cs: seq<Chunk>, es: seq<Entry>, pos: nat, distinct: bool, len: nat)
    requires Cut(zlib, img, cs, es, pos, distinct) && pos + len <= |img|
    ensures Cut(zlib, img, cs + [Normal(pos, len, pos)], es, pos + len, distinct)
  {
    var cs' := cs + [Normal(pos, len, pos)];
    assert cs'[..|cs'| - 1] == cs;
  }

  lemma CutDeflate(zlib: Zlib, img: seq<byte>, cs: seq<Chunk>, es: seq<Entry>, pos: nat, distinct: bool, c: Chunk)
    requires Cut(zlib, img, cs, es, pos, distinct) && 0 < |es| && WellFormed(zlib, img, c) && c.Deflate?
    requires c.start == pos && c.name == Some(es[0].name) && (distinct ==> forall e :: e in es[1..] ==> e.name != es[0].name)
    ensures Cut(zlib, img, cs + [c], es[1..], pos + c.packedLen, distinct)
  {
    hide WellFormed;
    var cs' := cs + [c];
    assert cs'[..|cs'| - 1] == cs;
    assert forall e :: e in es[1..] ==> e in es;
    assert es[0] in es;
    forall i | distinct && 0 <= i < |cs| && cs[i].Deflate? ensures cs[i].name != c.name { assert cs[i] in cs; }
  }

  ghost predicate DistinctEntries(es: seq<Entry>) {
    forall i, j :: 0 <= i < j < |es| ==> es[i].name != es[j].name
  }

  /** Is this the chunk of an entry: its place, its length, its name, and what its bytes inflate to? */
  ghost predicate ChunkOf(zlib: Zlib, img: seq<byte>, e: Entry, c: Chunk) {
    && e.offset + e.packedLen <= |img| && c.Deflate? && c.start == e.offset && c.packedLen == e.packedLen && c.name == Some(e.name)
    && zlib.inflate(img[e.offset..e.offset + e.packedLen]).Some? && c.data == zlib.inflate(img[e.offset..e.offset + e.packedLen]).value.0
    && |c.data| == e.fullLen
  }

  ghost predicate HasChunk(zlib: Zlib, img: seq<byte>, cs: seq<Chunk>, e: Entry) {
    exists c :: c in cs && ChunkOf(zlib, img, e, c)
  }

  ghost predicate FromEntry(zlib: Zlib, img: seq<byte>, entries: seq<Entry>, c: Chunk) {
    c.Normal? || exists e :: e in entries && ChunkOf(zlib, img, e, c)
  }

  /** The first entries have their chunks, and no other chunk is a deflate chunk. */
  ghost predicate Deflated(zlib: Zlib, img: seq<byte>, cs: seq<Chunk>, entries: seq<Entry>, next: nat) {
    && next <= |entries|
    && (forall k :: 0 <= k < next ==> HasChunk(zlib, img, cs, entries[k]))
    && (forall c :: c in cs ==> FromEntry(zlib, img, entries, c))
  }

  lemma DeflatedNone(zlib: Zlib, img: seq<byte>, entries: seq<Entry>)
    ensures Deflated(zlib, img, [], entries, 0)
  {
  }

  lemma HasMore(zlib: Zlib, img: seq<byte>, before: seq<Chunk>, cs: seq<Chunk>, behind: seq<Chunk>, e: Entry)
    requires HasChunk(zlib, img, cs, e)
    ensures HasChunk(zlib, img, before + cs + behind, e)
  {
    hide ChunkOf;
    var c :| c in cs && ChunkOf(zlib, img, e, c);
    assert c in before + cs + behind;
  }

  lemma DeflatedMore(zlib: Zlib, img: seq<byte>, cs: seq<Chunk>, entries: seq<Entry>, next: nat, c: Chunk)
    requires Deflated(zlib, img, cs, entries, next)
    requires c.Normal? || (next < |entries| && ChunkOf(zlib, img, entries[next], c))
    ensures Deflated(zlib, img, cs + [c], entries, if c.Normal? then next else next + 1)
  {
    if !c.Normal? {
      assert entries[next] in entries;
      assert c in cs + [c] && HasChunk(zlib, img, cs + [c], entries[next]);
    }
    assert FromEntry(zlib, img, entries, c);
    hide ChunkOf, HasChunk, FromEntry;
    forall k | 0 <= k < next ensures HasChunk(zlib, img, cs + [c], entries[k]) {
      HasMore(zlib, img, [], cs, [c], entries[k]);
      assert [] + cs + [c] == cs + [c];
    }
  }

  lemma {:induction false} NoneAhead(es: seq<Entry>, pos: nat, end: nat)
    requires Apart(es, pos, end) && pos >= end
    ensures forall e :: e in es ==> e.offset >= end
    decreases |es|
  {
    if |es| > 0 { NoneAhead(es[1..], es[0].offset + es[0].packedLen, end); }
  }

  /** When the loop is done, the entries still ahead, if they are apart, lie behind the end. */
  lemma DeflatedAll(zlib: Zlib, img: seq<byte>, cs: seq<Chunk>, entries: seq<Entry>, next: nat, head: seq<Chunk>, apart: bool)
    requires Deflated(zlib, img, cs, entries, next) && forall c :: c in head ==> c.Normal?
    requires apart ==> Apart(entries[next..], |img|, |img|)
    ensures forall c :: c in head + cs ==> FromEntry(zlib, img, entries, c)
    ensures apart ==> forall e :: e in entries && e.offset < |img| ==> HasChunk(zlib, img, head + cs, e)
  {
    hide ChunkOf, HasChunk;
    if apart {
      NoneAhead(entries[next..], |img|, |img|);
      assert entries == entries[..next] + entries[next..];
      forall e | e in entries && e.offset < |img| ensures HasChunk(zlib, img, head + cs, e) {
        assert e in entries[..next];
        var k :| 0 <= k < next && entries[k] == e;
        HasMore(zlib, img, head, cs, [], e);
        assert head + cs + [] == head + cs;
      }
    }
  }

  /** The tiling loop over the sorted entries. Malformed: one overlaps the one before or runs over the end of the file,
      or is shorter than the directory says. */
  method ReadZip(zlib: Zlib, img: seq<byte>, entries: seq<Entry>, pseudo: bool) returns (r: ReadResult)
    requires Sized(entries)
    ensures Apart(entries, 0, |img|) ==> (r.Chunks? <==> forall e :: e in entries ==> InflatingOf(zlib, img, e) == Exact)
    ensures r.Chunks? || (r == Refused && exists e :: e in entries && InflatingOf(zlib, img, e) == Overlong)
      || (r == Malformed && (!Apart(entries, 0, |img|) || exists e :: e in entries && InflatingOf(zlib, img, e) == Short))
    ensures r.Chunks? ==> |r.cs| <= 2 * |entries| + 2
    ensures r.Chunks? && pseudo ==> 0 < |r.cs| && r.cs[0] == Normal(0, |img|, 0) && AllWellFormed(zlib, img, r.cs)
    ensures r.Chunks? && !pseudo ==> AllWellFormed(zlib, img, r.cs) && Tiles(r.cs, 0, |img|)
    ensures r.Chunks? ==> forall c :: c in r.cs ==> FromEntry(zlib, img, entries, c)
    ensures r.Chunks? && Apart(entries, 0, |img|) ==> forall e :: e in entries && e.offset < |img| ==> HasChunk(zlib, img, r.cs, e)
    ensures r.Chunks? && !pseudo ==> Named(r.cs) && (DistinctEntries(entries) ==> DistinctNames(r.cs))
  {
    hide Deflated, ChunkOf, HasChunk, FromEntry, Cut, AllWellFormed, WellFormed, Apart, Tiles, Named, DistinctNames, DistinctEntries, InflatingOf;
    ghost var distinct, apart := DistinctEntries(entries), Apart(entries, 0, |img|);
    var head := if pseudo then [Normal(0, |img|, 0)] else [];
    var chunks: seq<Chunk> := [];
    var pos, next := 0, 0;
    CutNone(zlib, img, entries, distinct);
    DeflatedNone(zlib, img, entries);
    while pos < |img|
      invariant 0 <= pos <= |img| && 0 <= next <= |entries|
      invariant apart ==> Apart(entries[next..], pos, |img|)
      invariant Cut(zlib, img, chunks, entries[next..], pos, distinct)
      invariant forall k :: 0 <= k < next ==> InflatingOf(zlib, img, entries[k]) == Exact
      invariant Deflated(zlib, img, chunks, entries, next)
      invariant |chunks| <= 2 * next + 1
      invariant |chunks| == 2 * next + 1 ==> pos == if next < |entries| then entries[next].offset else |img|
      decreases |img| - pos, |entries| - next, if next < |entries| then entries[next].offset - pos else 0
    {
      ghost var es := entries[next..];
      if next < |entries| && pos == entries[next].offset {
        var e := entries[next];
        assert e in entries && es[0] == e;
        ApartStep(apart, es, pos, |img|);
        if pos + e.packedLen > |img| { return Malformed; }
        var packed := zlib.inflate(img[pos..pos + e.packedLen]);
        InflatingHere(zlib, img, e);
        if packed == None || |packed.value.0| > e.fullLen { return Refused; }
        if |packed.value.0| < e.fullLen { return Malformed; }
        var c := Deflate(pos, e.packedLen, packed.value.0, Some(e.name), UNSET);
        EntryWellFormed(zlib, img, e, c);
        assert entries[next + 1..] == es[1..];
        NameUnused(distinct, entries, next);
        CutDeflate(zlib, img, chunks, es, pos, distinct, c);
        ChunkMade(zlib, img, e, c);
        DeflatedMore(zlib, img, chunks, entries, next, c);
        chunks := chunks + [c];
        pos, next := pos + e.packedLen, next + 1;
      } else {
        ApartStep(apart, es, pos, |img|);
        var len := if next < |entries| then entries[next].offset - pos else |img| - pos;
        if len < 0 || pos + len > |img| { return Malformed; }
        CutNormal(zlib, img, chunks, es, pos, distinct, len);
        DeflatedMore(zlib, img, chunks, entries, next, Normal(pos, len, pos));
        chunks := chunks + [Normal(pos, len, pos)];
        pos := pos + len;
      }
    }
    CutDone(zlib, img, chunks, entries[next..], distinct);
    if apart { NoneBehind(zlib, img, entries[next..], pos); }
    assert entries == entries[..next] + entries[next..];
    DeflatedAll(zlib, img, chunks, entries, next, head, apart);
    PseudoWellFormed(zlib, img, chunks);
    assert !pseudo ==> head + chunks == chunks;
    return Chunks(head + chunks);
  }

  /** Behind the end of the image there is nothing to inflate. */
  lemma {:induction false} NoneBehind(zlib: Zlib, img: seq<byte>, es: seq<Entry>, pos: nat)
    requires Apart(es, pos, |img|) && pos >= |img|
    ensures forall e :: e in es ==> InflatingOf(zlib, img, e) == Exact
    decreases |es|
  {
    if |es| > 0 { NoneBehind(zlib, img, es[1..], es[0].offset + es[0].packedLen); }
  }

  lemma CutNone(zlib: Zlib, img: seq<byte>, entries: seq<Entry>, distinct: bool)
    ensures entries[0..] == entries && Cut(zlib, img, [], entries, 0, distinct)
  {
  }

  lemma NameUnused(distinct: bool, entries: seq<Entry>, next: nat)
    requires distinct == DistinctEntries(entries) && next < |entries|
    ensures distinct ==> forall e :: e in entries[next..][1..] ==> e.name != entries[next].name
  {
  }

  lemma InflatingHere(zlib: Zlib, img: seq<byte>, e: Entry)
    requires e.offset < |img| && e.offset + e.packedLen <= |img|
    ensures var packed := zlib.inflate(img[e.offset..e.offset + e.packedLen]);
      InflatingOf(zlib, img, e) ==
        if packed == None || |packed.value.0| > e.fullLen then Overlong
        else if |packed.value.0| < e.fullLen then Short else Exact
  {
  }

  lemma ChunkMade(zlib: Zlib, img: seq<byte>, e: Entry, c: Chunk)
    requires e.offset + e.packedLen <= |img|
    requires var packed := zlib.inflate(img[e.offset..e.offset + e.packedLen]);
      packed.Some? && |packed.value.0| == e.fullLen && c == Deflate(e.offset, e.packedLen, packed.value.0, Some(e.name), UNSET)
    ensures ChunkOf(zlib, img, e, c)
  {
  }

  lemma EntryWellFormed(zlib: Zlib, img: seq<byte>, e: Entry, c: Chunk)
    requires e.offset < |img| && e.offset + e.packedLen <= |img| && e.fullLen < TWO31 && InflatingOf(zlib, img, e) == Exact
    requires c.Deflate? && c.start == e.offset && c.packedLen == e.packedLen
    requires c.data == zlib.inflate(img[e.offset..e.offset + e.packedLen]).value.0
    ensures WellFormed(zlib, img, c)
  {
  }

  /** With the chunk for the whole source in front. */
  lemma PseudoWellFormed(zlib: Zlib, img: seq<byte>, cs: seq<Chunk>)
    requires AllWellFormed(zlib, img, cs)
    ensures AllWellFormed(zlib, img, [Normal(0, |img|, 0)] + cs)
  {
  }

  lemma {:induction false} ApartInside(es: seq<Entry>, pos: nat, end: nat)
    requires Apart(es, pos, end)
    ensures pos <= end && (0 < |es| ==> pos <= es[0].offset <= end)
    ensures |es| == 0 ==> Apart(es, end, end)
    ensures 0 < |es| ==> Apart(es, es[0].offset, end) && Apart(es[1..], es[0].offset + es[0].packedLen, end)
    decreases |es|
  {
    if |es| > 0 { ApartInside(es[1..], es[0].offset + es[0].packedLen, end); }
  }

  lemma ApartStep(apart: bool, es: seq<Entry>, pos: nat, end: nat)
    requires apart ==> Apart(es, pos, end)
    ensures apart ==> |es| == 0 ==> pos <= end && Apart(es, end, end)
    ensures apart ==> |es| > 0 ==> pos <= es[0].offset && es[0].offset + es[0].packedLen <= end
    ensures apart ==> |es| > 0 ==> Apart(es, es[0].offset, end) && Apart(es[1..], es[0].offset + es[0].packedLen, end)
  {
    if apart {
      ApartInside(es, pos, end);
      if |es| > 0 { ApartInside(es[1..], es[0].offset + es[0].packedLen, end); }
    }
  }

  lemma CutDone(zlib: Zlib, img: seq<byte>, cs: seq<Chunk>, es: seq<Entry>, distinct: bool)
    requires Cut(zlib, img, cs, es, |img|, distinct)
    ensures AllWellFormed(zlib, img, cs) && Tiles(cs, 0, |img|) && Named(cs) && (distinct ==> DistinctNames(cs))
  {
    TilesToTiles(cs, [], 0, |img|, |img|);
    assert cs + [] == cs;
    forall i | 0 <= i < |cs| && cs[i].Deflate? ensures cs[i].name.Some? { assert cs[i] in cs; }
  }
}
