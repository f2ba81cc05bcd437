/** Applying an image patch: the header is parsed record by record, and each record sinks one piece of the output. */
module ImagePatch {
  import opened Bytes
  import opened Slices
  import opened Encoding
  import opened BsPatch
  import opened ImageFormat

  /** One record: its piece of output and the position behind it, or the end of the run. */
  datatype Step = Emit(out: seq<byte>, next: nat, checked: bool) | Stop(o: Outcome)

  function Int4(p: seq<byte>, at: nat): int
    requires at + 4 <= |p|
  {
    Read4(p[at..at + 4])
  }

  function Int8(p: seq<byte>, at: nat): int
    requires at + 8 <= |p|
  {
    Read8(p[at..at + 8])
  }

  /** A range of the source and a place in the patch with which the C code's pointers stay inside. */
  predicate Sane(src: seq<byte>, start: int, len: int, offset: int) {
    0 <= start && 0 <= len && start + len <= |src| && 0 <= offset
  }

  /** A failed binary patch of a normal chunk goes unnoticed: the result is ignored and nothing is sunk. */
  function NormalStep(bz: Bzip, src: seq<byte>, patch: seq<byte>, pos: nat): Step {
    if pos + 24 > |patch| then Stop(Corrupt)
    else
      var start, len, offset := Int8(patch, pos), Int8(patch, pos + 8), Int8(patch, pos + 16);
      if !Sane(src, start, len, offset) then Stop(Undefined)
      else match Decode(bz, src[start..start + len], patch, offset)
        case Done(data) => Emit(data, pos + 24, false)
        case Corrupt => Emit([], pos + 24, false)
        case o => Stop(o)
  }

  function RawStep(patch: seq<byte>, pos: nat): Step {
    if pos + 4 > |patch| then Stop(Corrupt)
    else
      var len := Int4(patch, pos);
      if len < 0 then Stop(Undefined)
      else if pos + 4 + len > |patch| then Stop(Corrupt)
      else Emit(patch[pos + 4..pos + 4 + len], pos + 4 + len, true)
  }

  function DeflateStep(bz: Bzip, zlib: Zlib, src: seq<byte>, patch: seq<byte>, pos: nat): Step {
    if pos + 60 > |patch| then Stop(Corrupt)
    else
      var start, len, offset := Int8(patch, pos), Int8(patch, pos + 8), Int8(patch, pos + 16);
      var expanded := Int8(patch, pos + 24);
      var params := Params(Int4(patch, pos + 40), Int4(patch, pos + 44), Int4(patch, pos + 48),
                           Int4(patch, pos + 52), Int4(patch, pos + 56));
      if !Sane(src, start, len, offset) then Stop(Undefined)
      else match zlib.inflate(src[start..start + len])
        case None => Stop(Corrupt)
        case Some((data, _)) =>
          if |data| != expanded then Stop(Corrupt)
          else match Decode(bz, data, patch, offset)
            case Done(target) => Emit(zlib.deflate(params, target), pos + 60, true)
            case o => Stop(o)
  }

  function RecordStep(bz: Bzip, zlib: Zlib, src: seq<byte>, patch: seq<byte>, pos: nat): Step {
    if pos + 4 > |patch| then Stop(Corrupt)
    else
      var kind := Int4(patch, pos);
      if kind == CHUNK_NORMAL then NormalStep(bz, src, patch, pos + 4)
      else if kind == CHUNK_RAW then RawStep(patch, pos + 4)
      else if kind == CHUNK_DEFLATE then DeflateStep(bz, zlib, src, patch, pos + 4)
      else Stop(Corrupt)
  }

  /** The output of the last n records, the first of them at pos. */
  function ApplyFrom(bz: Bzip, zlib: Zlib, src: seq<byte>, patch: seq<byte>, n: nat, pos: nat): Outcome
    decreases n
  {
    if n == 0 then Done([])
    else match RecordStep(bz, zlib, src, patch, pos)
      case Stop(o) => o
      case Emit(out, next, _) => After(out, ApplyFrom(bz, zlib, src, patch, n - 1, next))
  }

  function Apply(bz: Bzip, zlib: Zlib, src: seq<byte>, patch: seq<byte>): Outcome {
    if |patch| < 12 || patch[..8] != IMGDIFF2 then Corrupt
    else
      var n := Int4(patch, 8);
      if n <= 0 then Done([]) else ApplyFrom(bz, zlib, src, patch, n, 12)
  }

  // Writing the output

  /** How applying a patch to a sink ends: with success, when this much was sunk and hashed, or else as the record that
      stopped it says: with a failure, or not at all. */
  datatype Sinking = Sunk(file: seq<byte>, hashed: seq<byte>) | Failed(o: Outcome, file: seq<byte>)

  /** What a sink with so much room has taken when more output comes. */
  function Taken(file: seq<byte>, out: seq<byte>, room: nat): (now: seq<byte>)
    requires |file| <= room
    ensures |now| <= room
  {
    file + if |file| + |out| <= room then out else out[..room - |file|]
  }

  /** The last n records; output of a normal chunk that is cut short goes unnoticed, and unhashed. */
  function SinkFrom(bz: Bzip, zlib: Zlib, src: seq<byte>, patch: seq<byte>, room: nat, n: nat, pos: nat,
                    file: seq<byte>, hashed: seq<byte>): Sinking
    requires |file| <= room
    decreases n
  {
    if n == 0 then Sunk(file, hashed)
    else match RecordStep(bz, zlib, src, patch, pos)
      case Stop(o) => Failed(o, file)
      case Emit(out, next, checked) =>
        var now := Taken(file, out, room);
        if |file| + |out| <= room then SinkFrom(bz, zlib, src, patch, room, n - 1, next, now, hashed + out)
        else if checked then Failed(Corrupt, now)
        else SinkFrom(bz, zlib, src, patch, room, n - 1, next, now, hashed)
  }

  function SinkAll(bz: Bzip, zlib: Zlib, src: seq<byte>, patch: seq<byte>, room: nat): Sinking {
    if |patch| < 12 || patch[..8] != IMGDIFF2 then Failed(Corrupt, [])
    else
      var n := Int4(patch, 8);
      if n <= 0 then Sunk([], []) else SinkFrom(bz, zlib, src, patch, room, n, 12, [], [])
  }

  /** Parses the records and writes their chunks to a sink with so much room. */
  method ApplyImagePatch(bz: Bzip, zlib: Zlib, src: seq<byte>, patch: seq<byte>, room: nat) returns (r: Sinking)
    ensures r == SinkAll(bz, zlib, src, patch, room)
  {
    hide RecordStep;
    if |patch| < 12 { return Failed(Corrupt, []); }
    if patch[..8] != IMGDIFF2 { return Failed(Corrupt, []); }
    var pos, n := 12, Int4(patch, 8);
    var file: seq<byte>, hashed: seq<byte> := [], [];
    var i := 0;
    while i < n
      invariant 0 <= i && (0 < n ==> i <= n) && 0 <= pos && (n <= 0 ==> i == 0) && |file| <= room
      invariant SinkAll(bz, zlib, src, patch, room)
        == SinkFrom(bz, zlib, src, patch, room, if n <= i then 0 else n - i, pos, file, hashed)
    {
      match RecordStep(bz, zlib, src, patch, pos) {
        case Stop(o) =>
          return Failed(o, file);
        case Emit(out, next, checked) =>
          var sunk := if |file| + |out| <= room then |out| else room - |file|;
          file, pos := Taken(file, out, room), next;
          if sunk == |out| {
            hashed := hashed + out;
          } else if checked {
            return Failed(Corrupt, file);
          }
      }
      i := i + 1;
    }
    return Sunk(file, hashed);
  }

  /** With room for all of it, just the output is sunk and hashed; failures are those of the records. */
  lemma {:induction false} SinkEnough(bz: Bzip, zlib: Zlib, src: seq<byte>, patch: seq<byte>, room: nat, n: nat, pos: nat,
                                      file: seq<byte>, hashed: seq<byte>)
    requires |file| <= room
    ensures match ApplyFrom(bz, zlib, src, patch, n, pos)
      case Done(out) => |file| + |out| <= room ==>
        SinkFrom(bz, zlib, src, patch, room, n, pos, file, hashed) == Sunk(file + out, hashed + out)
      case _ => SinkFrom(bz, zlib, src, patch, room, n, pos, file, hashed).Failed?
    decreases n
  {
    hide RecordStep;
    if n > 0 {
      match RecordStep(bz, zlib, src, patch, pos)
      case Stop(o) => StopIsFault(bz, zlib, src, patch, pos);
      case Emit(out, next, checked) =>
        var now := Taken(file, out, room);
        SinkEnough(bz, zlib, src, patch, room, n - 1, next, now, if |file| + |out| <= room then hashed + out else hashed);
        var rest := ApplyFrom(bz, zlib, src, patch, n - 1, next);
        if rest.Done? {
          assert file + (out + rest.data) == file + out + rest.data;
          assert hashed + (out + rest.data) == hashed + out + rest.data;
        }
    }
  }

  /** So applying a patch succeeds, for a sink with enough room, exactly when there is an output, and gives it. */
  lemma SinkMeans(bz: Bzip, zlib: Zlib, src: seq<byte>, patch: seq<byte>, room: nat)
    ensures var o, r := Apply(bz, zlib, src, patch), SinkAll(bz, zlib, src, patch, room);
      if o.Done? then |o.data| <= room ==> r == Sunk(o.data, o.data) else r.Failed?
  {
    if |patch| >= 12 && patch[..8] == IMGDIFF2 && Int4(patch, 8) > 0 {
      SinkEnough(bz, zlib, src, patch, room, Int4(patch, 8), 12, [], []);
      var o := Apply(bz, zlib, src, patch);
      if o.Done? { assert [] + o.data == o.data; }
    }
  }

  lemma StopIsFault(bz: Bzip, zlib: Zlib, src: seq<byte>, patch: seq<byte>, pos: nat)
    ensures var s := RecordStep(bz, zlib, src, patch, pos); s.Stop? ==> !s.o.Done?
  {
  }

  /** A patch that turns text into target wherever it stands in a file. */
  ghost predicate Turns(bz: Bzip, text: seq<byte>, target: seq<byte>, file: seq<byte>) {
    forall before, behind ::
      Placed(before + file + behind, |before|) && Decode(bz, text, before + file + behind, |before|) == Done(target)
  }

  /** Numbers of a record that the file form can hold. */
  ghost predicate FitsRecord(r: Record) {
    match r
    case NormalRecord(s, l, _) => s < TWO63 && l < TWO63
    case DeflateRecord(s, l, x, t, p, _) =>
      && s < TWO63 && l < TWO63 && x < TWO63 && t < TWO63
      && -TWO31 <= p.level < TWO31 && -TWO31 <= p.algorithm < TWO31 && -TWO31 <= p.windowBits < TWO31
      && -TWO31 <= p.memLevel < TWO31 && -TWO31 <= p.strategy < TWO31
    case RawRecord(data) => |data| < TWO31
  }

  /** The record rebuilds this piece of the target from the source. */
  ghost predicate Yields(bz: Bzip, zlib: Zlib, src: seq<byte>, r: Record, piece: seq<byte>) {
    && FitsRecord(r)
    && match r
       case NormalRecord(s, l, patch) => s + l <= |src| && Turns(bz, src[s..s + l], piece, patch)
       case DeflateRecord(s, l, x, _, p, patch) =>
         && s + l <= |src|
         && var packed := zlib.inflate(src[s..s + l]);
            packed.Some? && |packed.value.0| == x
            && exists t :: Turns(bz, packed.value.0, t, patch) && zlib.deflate(p, t) == piece
       case RawRecord(data) => piece == data
  }

  /** The fields of a record, read where it was written. */
  lemma FieldAt(r: Record, offset: int, before: seq<byte>, behind: seq<byte>, j: nat)
    requires j < |Fields(r, offset)|
    ensures var f := Fields(r, offset); var at := |Join(f, j)|;
      && at + |f[j]| <= |RecordBytes(r, offset)| == RecordSize(r)
      && (before + RecordBytes(r, offset) + behind)[|before| + at..|before| + at + |f[j]|] == f[j]
  {
    hide Fields, RecordSize;
    var f := Fields(r, offset);
    RecordBytesSize(r, offset);
    JoinAt(f, j, |f|);
    Inside(before, RecordBytes(r, offset), behind, |Join(f, j)|, |Join(f, j + 1)|);
  }

  lemma NormalParses(s: nat, l: nat, patch: seq<byte>, offset: nat, before: seq<byte>, behind: seq<byte>)
    requires FitsRecord(NormalRecord(s, l, patch)) && offset < TWO63
    ensures var p := before + RecordBytes(NormalRecord(s, l, patch), offset) + behind; var pos := |before|;
      && pos + 28 <= |p| && Int4(p, pos) == CHUNK_NORMAL
      && Int8(p, pos + 4) == s && Int8(p, pos + 12) == l && Int8(p, pos + 20) == offset
  {
    hide Write4, Write8, RecordBytes, Read4, Read8;
    var r := NormalRecord(s, l, patch);
    var f := Fields(r, offset);
    RecordBytesSize(r, offset);
    assert |Join(f, 1)| == 4 && |Join(f, 2)| == 12;
    assert |Join(f, 3)| == 20;
    FieldAt(r, offset, before, behind, 0);
    FieldAt(r, offset, before, behind, 1);
    FieldAt(r, offset, before, behind, 2);
    FieldAt(r, offset, before, behind, 3);
    Write4Read4(CHUNK_NORMAL);
    Write8Read8(s);
    Write8Read8(l);
    Write8Read8(offset);
  }

  lemma RawParses(data: seq<byte>, offset: nat, before: seq<byte>, behind: seq<byte>)
    requires FitsRecord(RawRecord(data))
    ensures var p := before + RecordBytes(RawRecord(data), offset) + behind; var pos := |before|;
      && pos + 8 + |data| <= |p| && Int4(p, pos) == CHUNK_RAW && Int4(p, pos + 4) == |data|
      && p[pos + 8..pos + 8 + |data|] == data
  {
    hide Write4, Write8, RecordBytes, Read4, Read8;
    var r := RawRecord(data);
    var f := Fields(r, offset);
    RecordBytesSize(r, offset);
    assert |Join(f, 1)| == 4 && |Join(f, 2)| == 8;
    FieldAt(r, offset, before, behind, 0);
    FieldAt(r, offset, before, behind, 1);
    FieldAt(r, offset, before, behind, 2);
    Write4Read4(CHUNK_RAW);
    Write4Read4(|data|);
  }

  lemma DeflateSizes(r: Record, offset: int)
    requires r.DeflateRecord?
    ensures var f := Fields(r, offset);
      && |f| == 11 && |Join(f, 1)| == 4 && |Join(f, 2)| == 12 && |Join(f, 3)| == 20 && |Join(f, 4)| == 28
      && |Join(f, 5)| == 36 && |Join(f, 6)| == 44 && |Join(f, 7)| == 48 && |Join(f, 8)| == 52 && |Join(f, 9)| == 56
      && |Join(f, 10)| == 60
  {
    hide Write4, Write8;
    var f := Fields(r, offset);
    assert |Join(f, 1)| == 4;
    assert |Join(f, 3)| == 20;
    assert |Join(f, 5)| == 36;
    assert |Join(f, 7)| == 48;
    assert |Join(f, 9)| == 56;
  }

  lemma DeflateParses(r: Record, offset: nat, before: seq<byte>, behind: seq<byte>)
    requires r.DeflateRecord? && FitsRecord(r) && offset < TWO63
    ensures var p := before + RecordBytes(r, offset) + behind; var pos := |before|;
      && pos + 64 <= |p| && Int4(p, pos) == CHUNK_DEFLATE
      && Int8(p, pos + 4) == r.sourceStart && Int8(p, pos + 12) == r.sourceLen && Int8(p, pos + 20) == offset
      && Int8(p, pos + 28) == r.expandedLen
  {
    hide Write4, Write8, RecordBytes, Read4, Read8;
    RecordBytesSize(r, offset);
    DeflateSizes(r, offset);
    FieldAt(r, offset, before, behind, 0);
    FieldAt(r, offset, before, behind, 1);
    FieldAt(r, offset, before, behind, 2);
    FieldAt(r, offset, before, behind, 3);
    FieldAt(r, offset, before, behind, 4);
    Write4Read4(CHUNK_DEFLATE);
    Write8Read8(r.sourceStart);
    Write8Read8(r.sourceLen);
    Write8Read8(offset);
    Write8Read8(r.expandedLen);
  }

  lemma ParamsParse(r: Record, offset: nat, before: seq<byte>, behind: seq<byte>)
    requires r.DeflateRecord? && FitsRecord(r) && offset < TWO63
    ensures var p := before + RecordBytes(r, offset) + behind; var pos := |before|;
      && pos + 64 <= |p|
      && Params(Int4(p, pos + 44), Int4(p, pos + 48), Int4(p, pos + 52), Int4(p, pos + 56), Int4(p, pos + 60)) == r.params
  {
    hide Write4, Write8, RecordBytes, Read4, Read8;
    RecordBytesSize(r, offset);
    DeflateSizes(r, offset);
    FieldAt(r, offset, before, behind, 6);
    FieldAt(r, offset, before, behind, 7);
    FieldAt(r, offset, before, behind, 8);
    FieldAt(r, offset, before, behind, 9);
    FieldAt(r, offset, before, behind, 10);
    Write4Read4(r.params.level);
    Write4Read4(r.params.algorithm);
    Write4Read4(r.params.windowBits);
    Write4Read4(r.params.memLevel);
    Write4Read4(r.params.strategy);
  }

  /** A record of the written file, parsed back: it emits its piece and leaves the cursor on the next record. */
  lemma RecordReads(bz: Bzip, zlib: Zlib, src: seq<byte>, r: Record, piece: seq<byte>, offset: nat,
                    before: seq<byte>, behind: seq<byte>)
    requires Yields(bz, zlib, src, r, piece) && offset < TWO63
    requires var file := before + RecordBytes(r, offset) + behind;
      !r.RawRecord? ==> offset + |r.patch| <= |file| && file[offset..offset + |r.patch|] == r.patch
    ensures RecordStep(bz, zlib, src, before + RecordBytes(r, offset) + behind, |before|) == Emit(piece, |before| + RecordSize(r), !r.NormalRecord?)
  {
    hide RecordBytes, Read4, Read8, Decode, Placed;
    var file := before + RecordBytes(r, offset) + behind;
    match r
    case RawRecord(data) =>
      RawParses(data, offset, before, behind);
    case NormalRecord(s, l, patch) =>
      NormalParses(s, l, patch, offset, before, behind);
      TurnsAt(bz, src[s..s + l], piece, patch, file, offset);
    case DeflateRecord(s, l, x, _, p, patch) =>
      DeflateParses(r, offset, before, behind);
      ParamsParse(r, offset, before, behind);
      var data := zlib.inflate(src[s..s + l]).value.0;
      var t :| Turns(bz, data, t, patch) && zlib.deflate(p, t) == piece;
      TurnsAt(bz, data, t, patch, file, offset);
  }

  /** Any record that fits its fields, whatever its source and its patch are worth: raw data comes out; a normal chunk is
      decoded from its part of the source, and one that is corrupt gives nothing; a deflate chunk is inflated, must then have
      the length recorded, is decoded, and deflated again. */
  lemma RecordMeans(bz: Bzip, zlib: Zlib, src: seq<byte>, r: Record, offset: nat, before: seq<byte>, behind: seq<byte>)
    requires FitsRecord(r) && offset < TWO63
    ensures var file := before + RecordBytes(r, offset) + behind;
      var step, next := RecordStep(bz, zlib, src, file, |before|), |before| + |RecordBytes(r, offset)|;
      match r
      case RawRecord(data) => step == Emit(data, next, true)
      case NormalRecord(s, l, _) =>
        if s + l > |src| then step == Stop(Undefined)
        else (match Decode(bz, src[s..s + l], file, offset)
              case Done(data) => step == Emit(data, next, false)
              case Corrupt => step == Emit([], next, false)
              case o => step == Stop(o))
      case DeflateRecord(s, l, x, _, p, _) =>
        if s + l > |src| then step == Stop(Undefined)
        else if zlib.inflate(src[s..s + l]) == None || |zlib.inflate(src[s..s + l]).value.0| != x then step == Stop(Corrupt)
        else (match Decode(bz, zlib.inflate(src[s..s + l]).value.0, file, offset)
              case Done(data) => step == Emit(zlib.deflate(p, data), next, true)
              case o => step == Stop(o))
  {
    hide RecordBytes, Read4, Read8, Decode;
    RecordBytesSize(r, offset);
    match r
    case RawRecord(data) =>
      RawParses(data, offset, before, behind);
    case NormalRecord(s, l, patch) =>
      NormalParses(s, l, patch, offset, before, behind);
    case DeflateRecord(s, l, x, _, p, patch) =>
      DeflateParses(r, offset, before, behind);
      ParamsParse(r, offset, before, behind);
  }

  /** A record that is cut off by the end of the file, at whatever place, is refused. */
  lemma CutOffRefused(bz: Bzip, zlib: Zlib, src: seq<byte>, r: Record, offset: nat, before: seq<byte>, k: nat)
    requires FitsRecord(r) && offset < TWO63 && k < |RecordBytes(r, offset)|
    ensures RecordStep(bz, zlib, src, before + RecordBytes(r, offset)[..k], |before|) == Stop(Corrupt)
  {
    hide RecordBytes, Read4, Read8, Decode, Write4;
    RecordBytesSize(r, offset);
    var whole, file := before + RecordBytes(r, offset) + [], before + RecordBytes(r, offset)[..k];
    if k >= 4 {
      assert file[|before|..|before| + 4] == whole[|before|..|before| + 4];
      match r
      case RawRecord(data) =>
        RawParses(data, offset, before, []);
        if k >= 8 { assert file[|before| + 4..|before| + 8] == whole[|before| + 4..|before| + 8]; }
      case NormalRecord(s, l, patch) =>
        NormalParses(s, l, patch, offset, before, []);
      case DeflateRecord(_, _, _, _, _, _) =>
        DeflateParses(r, offset, before, []);
    }
  }

  /** So is a record of no known kind; what a record of raw data with a negative length does is not defined. */
  lemma OtherRefused(bz: Bzip, zlib: Zlib, src: seq<byte>, kind: int, before: seq<byte>, behind: seq<byte>)
    requires -TWO31 <= kind < TWO31
    ensures kind !in {0, 2, 3} ==> RecordStep(bz, zlib, src, before + Write4(kind) + behind, |before|) == Stop(Corrupt)
    ensures kind < 0 ==> RecordStep(bz, zlib, src, before + (Write4(3) + Write4(kind)) + behind, |before|) == Stop(Undefined)
  {
    hide Write4, Read4, Decode;
    Write4Read4(kind);
    Write4Read4(3);
    var p, q := before + Write4(kind) + behind, before + (Write4(3) + Write4(kind)) + behind;
    assert p[|before|..|before| + 4] == Write4(kind);
    assert q[|before|..|before| + 4] == Write4(3) && q[|before| + 4..|before| + 8] == Write4(kind);
  }

  lemma TurnsAt(bz: Bzip, text: seq<byte>, target: seq<byte>, patch: seq<byte>, file: seq<byte>, offset: nat)
    requires Turns(bz, text, target, patch)
    requires offset + |patch| <= |file| && file[offset..offset + |patch|] == patch
    ensures Placed(file, offset) && Decode(bz, text, file, offset) == Done(target)
  {
    hide Decode, Placed;
    assert file == file[..offset] + patch + file[offset + |patch|..];
  }

  /** Every record yields its piece, and the file and its offsets fit the integers that hold them. */
  ghost predicate AllYield(bz: Bzip, zlib: Zlib, src: seq<byte>, rs: seq<Record>, pieces: seq<seq<byte>>) {
    && |rs| == |pieces| < TWO31
    && |ImageFile(rs)| < TWO63
    && forall k :: 0 <= k < |rs| ==> Yields(bz, zlib, src, rs[k], pieces[k])
  }

  lemma FileAround(rs: seq<Record>, k: nat)
    requires k < |rs|
    ensures exists behind :: ImageFile(rs) == HeaderBytes(rs, k) + RecordBytes(rs[k], OffsetOf(rs, k)) + behind
  {
    hide RecordBytes, HeaderBytes, PatchBytes, OffsetOf;
    var behind := FileBehind(rs, k, |rs|);
    assert ImageFile(rs) == HeaderBytes(rs, k) + RecordBytes(rs[k], OffsetOf(rs, k)) + (behind + PatchBytes(rs, |rs|));
  }

  lemma {:induction false} FileBehind(rs: seq<Record>, k: nat, n: nat) returns (behind: seq<byte>)
    requires k < n <= |rs|
    ensures HeaderBytes(rs, n) == HeaderBytes(rs, k) + RecordBytes(rs[k], OffsetOf(rs, k)) + behind
    decreases n
  {
    hide RecordBytes, OffsetOf;
    if n == k + 1 {
      behind := [];
    } else {
      var rest := FileBehind(rs, k, n - 1);
      behind := rest + RecordBytes(rs[n - 1], OffsetOf(rs, n - 1));
    }
  }

  lemma {:induction false} ApplyRun(bz: Bzip, zlib: Zlib, src: seq<byte>, rs: seq<Record>, pieces: seq<seq<byte>>, k: nat)
    requires AllYield(bz, zlib, src, rs, pieces) && k <= |rs|
    ensures Join(pieces, k) <= Join(pieces, |rs|)
    ensures ApplyFrom(bz, zlib, src, ImageFile(rs), |rs| - k, HeaderSize(rs, k))
         == Done(Join(pieces, |rs|)[|Join(pieces, k)|..])
    decreases |rs| - k
  {
    hide RecordBytes, RecordStep, Yields, ImageFile, HeaderBytes;
    JoinGrows(pieces, k, |rs|);
    if k < |rs| {
      ApplyRun(bz, zlib, src, rs, pieces, k + 1);
      RecordAt(bz, zlib, src, rs, pieces, k);
      var all, u := Join(pieces, |rs|), |Join(pieces, k)|;
      JoinAt(pieces, k, |rs|);
      assert pieces[k] + all[u + |pieces[k]|..] == all[u..];
    }
  }

  lemma RecordAt(bz: Bzip, zlib: Zlib, src: seq<byte>, rs: seq<Record>, pieces: seq<seq<byte>>, k: nat)
    requires AllYield(bz, zlib, src, rs, pieces) && k < |rs|
    ensures RecordStep(bz, zlib, src, ImageFile(rs), HeaderSize(rs, k)) == Emit(pieces[k], HeaderSize(rs, k + 1), !rs[k].NormalRecord?)
  {
    hide RecordBytes, RecordStep, Yields, ImageFile, HeaderBytes;
    FileAround(rs, k);
    var behind :| ImageFile(rs) == HeaderBytes(rs, k) + RecordBytes(rs[k], OffsetOf(rs, k)) + behind;
    HeaderSizeIsWritten(rs, k);
    OffsetIsPlace(rs, k);
    RecordReads(bz, zlib, src, rs[k], pieces[k], OffsetOf(rs, k), HeaderBytes(rs, k), behind);
  }

  lemma HeaderStarts(rs: seq<Record>, k: nat)
    requires k <= |rs|
    ensures |HeaderBytes(rs, k)| >= 12 && HeaderBytes(rs, k)[..8] == IMGDIFF2 && HeaderBytes(rs, k)[8..12] == Write4(|rs|)
  {
    hide Write4, RecordBytes, OffsetOf;
    if k > 0 {
      HeaderStarts(rs, k - 1);
      var before, more := HeaderBytes(rs, k - 1), RecordBytes(rs[k - 1], OffsetOf(rs, k - 1));
      SliceLeft(before, more, 0, 8);
      SliceLeft(before, more, 8, 12);
    }
  }

  /** Applying the written file gives all the pieces, in order and nothing else. */
  lemma ImageRoundTrip(bz: Bzip, zlib: Zlib, src: seq<byte>, rs: seq<Record>, pieces: seq<seq<byte>>)
    requires AllYield(bz, zlib, src, rs, pieces)
    ensures Apply(bz, zlib, src, ImageFile(rs)) == Done(Join(pieces, |rs|))
  {
    hide Yields, HeaderBytes;
    var file := ImageFile(rs);
    HeaderStarts(rs, |rs|);
    assert file[..8] == HeaderBytes(rs, |rs|)[..8] && file[8..12] == HeaderBytes(rs, |rs|)[8..12];
    Write4Read4(|rs|);
    ApplyRun(bz, zlib, src, rs, pieces, 0);
    assert Join(pieces, |rs|)[0..] == Join(pieces, |rs|);
  }

  // A sink that is too small

  /** The chunks whose writing is checked, the empty ones aside, end inside the room. */
  ghost predicate CheckedFit(rs: seq<Record>, pieces: seq<seq<byte>>, room: nat, k: nat)
    requires |rs| == |pieces|
  {
    forall j :: k <= j < |rs| && !rs[j].NormalRecord? && pieces[j] != [] ==> |Join(pieces, j + 1)| <= room
  }

  function Clipped(s: seq<byte>, room: nat): (r: seq<byte>)
    ensures |r| <= room
  {
    if |s| <= room then s else s[..room]
  }

  lemma ClippedMore(s: seq<byte>, out: seq<byte>, room: nat)
    ensures Taken(Clipped(s, room), out, room) == Clipped(s + out, room)
    ensures |Clipped(s, room)| + |out| <= room <==> |s + out| <= room || out == []
  {
  }

  lemma {:induction false} CutRun(bz: Bzip, zlib: Zlib, src: seq<byte>, rs: seq<Record>, pieces: seq<seq<byte>>, room: nat,
                                  k: nat, hashed: seq<byte>)
    requires AllYield(bz, zlib, src, rs, pieces) && k <= |rs|
    ensures var r := SinkFrom(bz, zlib, src, ImageFile(rs), room, |rs| - k, HeaderSize(rs, k), Clipped(Join(pieces, k), room), hashed);
      && (r.Sunk? <==> CheckedFit(rs, pieces, room, k))
      && (r.Sunk? ==> r.file == Clipped(Join(pieces, |rs|), room))
    decreases |rs| - k
  {
    hide RecordBytes, RecordStep, Yields, ImageFile, HeaderBytes, Clipped, Taken;
    if k < |rs| {
      RecordAt(bz, zlib, src, rs, pieces, k);
      ClippedMore(Join(pieces, k), pieces[k], room);
      CutRun(bz, zlib, src, rs, pieces, room, k + 1, hashed + pieces[k]);
      CutRun(bz, zlib, src, rs, pieces, room, k + 1, hashed);
    }
  }

  /** Applied to a sink that may be too small, the written file ends with success exactly when no chunk but normal
      ones runs over; then the sink holds the target cut off where it is full, short or not. */
  lemma CutUnnoticed(bz: Bzip, zlib: Zlib, src: seq<byte>, rs: seq<Record>, pieces: seq<seq<byte>>, room: nat)
    requires AllYield(bz, zlib, src, rs, pieces)
    ensures var r := SinkAll(bz, zlib, src, ImageFile(rs), room);
      && (r.Sunk? <==> CheckedFit(rs, pieces, room, 0))
      && (r.Sunk? ==> r.file == Clipped(Join(pieces, |rs|), room))
  {
    hide Yields, HeaderBytes, SinkFrom;
    var file := ImageFile(rs);
    HeaderStarts(rs, |rs|);
    FileFront(rs);
    Write4Read4(|rs|);
    if |rs| > 0 { CutRun(bz, zlib, src, rs, pieces, room, 0, []); }
  }

  /** One normal chunk is applied with success to a sink that takes nothing. */
  lemma CutExample(bz: Bzip, zlib: Zlib, src: seq<byte>, r: Record, piece: seq<byte>)
    requires r.NormalRecord? && Yields(bz, zlib, src, r, piece) && |ImageFile([r])| < TWO63
    ensures var s := SinkAll(bz, zlib, src, ImageFile([r]), 0); s.Sunk? && s.file == []
  {
    hide Yields, ImageFile, SinkAll;
    CutUnnoticed(bz, zlib, src, [r], [piece], 0);
  }

  /** Cut short or not: what is hashed is the output, which is then in the file, or less than the output. */
  lemma {:induction false} CutHashes(bz: Bzip, zlib: Zlib, src: seq<byte>, patch: seq<byte>, room: nat, n: nat, pos: nat,
                                     file: seq<byte>, hashed: seq<byte>)
    requires |file| <= room
    ensures var r, o := SinkFrom(bz, zlib, src, patch, room, n, pos, file, hashed), ApplyFrom(bz, zlib, src, patch, n, pos);
      r.Sunk? ==>
        o.Done? && ((r.file == file + o.data && r.hashed == hashed + o.data) || |r.hashed| < |hashed| + |o.data|)
    decreases n
  {
    hide RecordStep;
    if n > 0 {
      match RecordStep(bz, zlib, src, patch, pos)
      case Stop(o) =>
      case Emit(out, next, checked) =>
        var now := Taken(file, out, room);
        CutHashes(bz, zlib, src, patch, room, n - 1, next, now, hashed + out);
        CutHashes(bz, zlib, src, patch, room, n - 1, next, now, hashed);
        var rest := ApplyFrom(bz, zlib, src, patch, n - 1, next);
        if rest.Done? {
          assert file + (out + rest.data) == file + out + rest.data;
          assert hashed + (out + rest.data) == hashed + out + rest.data;
        }
    }
  }

  lemma CutIsShort(bz: Bzip, zlib: Zlib, src: seq<byte>, patch: seq<byte>, room: nat)
    ensures var r, o := SinkAll(bz, zlib, src, patch, room), Apply(bz, zlib, src, patch);
      r.Sunk? ==> o.Done? && ((r.file == o.data && r.hashed == o.data) || |r.hashed| < |o.data|)
  {
    if |patch| >= 12 && patch[..8] == IMGDIFF2 && Int4(patch, 8) > 0 {
      CutHashes(bz, zlib, src, patch, room, Int4(patch, 8), 12, [], []);
      var o := Apply(bz, zlib, src, patch);
      if o.Done? { assert [] + o.data == o.data; }
    }
  }

  /** A raw chunk and then a normal one, cut one byte behind the raw one: the hash taken is the raw chunk's alone. */
  lemma CutBehind(bz: Bzip, zlib: Zlib, src: seq<byte>, t: seq<byte>, x: seq<byte>, r: Record)
    requires AllYield(bz, zlib, src, [RawRecord(t), r], [t, x]) && r.NormalRecord? && |x| > 1
    ensures SinkAll(bz, zlib, src, ImageFile([RawRecord(t), r]), |t| + 1) == Sunk(t + x[..1], t)
  {
    hide RecordStep, Yields, ImageFile, HeaderBytes, RecordBytes, Taken;
    var rs, pieces, room := [RawRecord(t), r], [t, x], |t| + 1;
    var file := ImageFile(rs);
    HeaderStarts(rs, 2);
    assert file[..8] == HeaderBytes(rs, 2)[..8] && file[8..12] == HeaderBytes(rs, 2)[8..12] by { FileFront(rs); }
    Write4Read4(2);
    RecordAt(bz, zlib, src, rs, pieces, 0);
    RecordAt(bz, zlib, src, rs, pieces, 1);
    var p1, p2 := HeaderSize(rs, 1), HeaderSize(rs, 2);
    TakenHere([], t, room);
    TakenHere(t, x, room);
    assert SinkFrom(bz, zlib, src, file, room, 0, p2, t + x[..1], t) == Sunk(t + x[..1], t);
    assert SinkFrom(bz, zlib, src, file, room, 1, p1, t, t) == Sunk(t + x[..1], t);
    assert SinkFrom(bz, zlib, src, file, room, 2, HeaderSize(rs, 0), [], []) == Sunk(t + x[..1], t);
  }

  lemma FileFront(rs: seq<Record>)
    ensures |HeaderBytes(rs, |rs|)| >= 12 && |ImageFile(rs)| >= 12
    ensures ImageFile(rs)[..8] == HeaderBytes(rs, |rs|)[..8] && ImageFile(rs)[8..12] == HeaderBytes(rs, |rs|)[8..12]
  {
    hide HeaderBytes;
    HeaderStarts(rs, |rs|);
  }

  lemma TakenHere(file: seq<byte>, out: seq<byte>, room: nat)
    requires |file| <= room
    ensures |file| + |out| <= room ==> Taken(file, out, room) == file + out && [] + out == out
    ensures |file| + |out| > room ==> Taken(file, out, room) == file + out[..room - |file|]
  {
  }
}
