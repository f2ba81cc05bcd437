/** The image patch file: writing it, reading it back, applying it. */
module ImageFormat {
  import opened Bytes
  import opened Slices
  import opened Encoding
  import opened BsPatch

  datatype Params = Params(level: int, algorithm: int, windowBits: int, memLevel: int, strategy: int)

  /** zlib: inflate gives the data and how much input it took; deflate depends on parameters and data only. */
  datatype Zlib = Zlib(inflate: seq<byte> -> Option<(seq<byte>, nat)>, deflate: (Params, seq<byte>) -> seq<byte>)

  const CHUNK_NORMAL := 0
  const CHUNK_DEFLATE := 2
  const CHUNK_RAW := 3
  const IMGDIFF2: seq<byte> := [0x49, 0x4d, 0x47, 0x44, 0x49, 0x46, 0x46, 0x32]

  /** What is known of a target chunk when its header record is written. */
  datatype Record =
    | NormalRecord(sourceStart: nat, sourceLen: nat, patch: seq<byte>)
    | DeflateRecord(sourceStart: nat, sourceLen: nat, expandedLen: nat, targetLen: nat, params: Params, patch: seq<byte>)
    | RawRecord(data: seq<byte>)

  function PatchOf(r: Record): seq<byte> {
    if r.RawRecord? then [] else r.patch
  }

  /** The fields of a header record; offset is where its patch will stand. */
  function Fields(r: Record, offset: int): seq<seq<byte>> {
    match r
    case NormalRecord(s, l, _) => [Write4(CHUNK_NORMAL), Write8(s), Write8(l), Write8(offset)]
    case DeflateRecord(s, l, x, t, p, _) =>
      [Write4(CHUNK_DEFLATE), Write8(s), Write8(l), Write8(offset), Write8(x), Write8(t),
       Write4(p.level), Write4(p.algorithm), Write4(p.windowBits), Write4(p.memLevel), Write4(p.strategy)]
    case RawRecord(data) => [Write4(CHUNK_RAW), Write4(|data|), data]
  }

  function RecordBytes(r: Record, offset: int): seq<byte> {
    Join(Fields(r, offset), |Fields(r, offset)|)
  }

  function RecordSize(r: Record): nat {
    match r
    case NormalRecord(_, _, _) => 4 + 8 * 3
    case DeflateRecord(_, _, _, _, _, _) => 4 + 8 * 5 + 4 * 5
    case RawRecord(data) => 4 + 4 + |data|
  }

  /** Header size counted for the first k records. */
  function HeaderSize(rs: seq<Record>, k: nat): nat
    requires k <= |rs|
  {
    if k == 0 then 12 else HeaderSize(rs, k - 1) + RecordSize(rs[k - 1])
  }

  function PatchBytes(rs: seq<Record>, k: nat): seq<byte>
    requires k <= |rs|
  {
    if k == 0 then [] else PatchBytes(rs, k - 1) + PatchOf(rs[k - 1])
  }

  /** The offset recorded for the k-th patch. */
  function OffsetOf(rs: seq<Record>, k: nat): nat
    requires k <= |rs|
  {
    HeaderSize(rs, |rs|) + |PatchBytes(rs, k)|
  }

  function HeaderBytes(rs: seq<Record>, k: nat): seq<byte>
    requires k <= |rs|
  {
    if k == 0 then IMGDIFF2 + Write4(|rs|) else HeaderBytes(rs, k - 1) + RecordBytes(rs[k - 1], OffsetOf(rs, k - 1))
  }

  function ImageFile(rs: seq<Record>): seq<byte> {
    HeaderBytes(rs, |rs|) + PatchBytes(rs, |rs|)
  }

  lemma RecordBytesSize(r: Record, offset: int)
    ensures |RecordBytes(r, offset)| == RecordSize(r)
  {
    hide Write4, Write8;
    var f := Fields(r, offset);
    match r
    case NormalRecord(_, _, _) =>
      assert |Join(f, 1)| == 4;
      assert |Join(f, 3)| == 20;
    case DeflateRecord(_, _, _, _, _, _) =>
      assert |Join(f, 1)| == 4;
      assert |Join(f, 3)| == 20;
      assert |Join(f, 5)| == 36;
      assert |Join(f, 7)| == 48;
      assert |Join(f, 9)| == 56;
      assert |f| == 11 && |Join(f, 11)| == 64;
    case RawRecord(data) =>
      assert |Join(f, 1)| == 4;
      assert |Join(f, 2)| == 8;
      assert |f| == 3 && |Join(f, 3)| == 8 + |data|;
  }

  /** The size computed beforehand is the number of bytes written. */
  lemma {:induction false} HeaderSizeIsWritten(rs: seq<Record>, k: nat)
    requires k <= |rs|
    ensures |HeaderBytes(rs, k)| == HeaderSize(rs, k)
  {
    hide Write4, RecordBytes, RecordSize, PatchBytes;
    if k > 0 {
      HeaderSizeIsWritten(rs, k - 1);
      RecordBytesSize(rs[k - 1], OffsetOf(rs, k - 1));
    }
  }

  lemma {:induction false} PatchBytesAt(rs: seq<Record>, j: nat, k: nat)
    requires j < k <= |rs|
    ensures |PatchBytes(rs, j)| + |PatchOf(rs[j])| <= |PatchBytes(rs, k)|
    ensures PatchBytes(rs, k)[|PatchBytes(rs, j)|..|PatchBytes(rs, j)| + |PatchOf(rs[j])|] == PatchOf(rs[j])
    decreases k
  {
    if j == k - 1 {
      SliceRight(PatchBytes(rs, j), PatchOf(rs[j]), |PatchBytes(rs, j)|, |PatchBytes(rs, j)| + |PatchOf(rs[j])|);
      assert PatchOf(rs[j])[0..|PatchOf(rs[j])|] == PatchOf(rs[j]);
    } else {
      PatchBytesAt(rs, j, k - 1);
      SliceLeft(PatchBytes(rs, k - 1), PatchOf(rs[k - 1]), |PatchBytes(rs, j)|, |PatchBytes(rs, j)| + |PatchOf(rs[j])|);
    }
  }

  /** Each recorded offset is the place of that patch in the finished file. */
  lemma OffsetIsPlace(rs: seq<Record>, k: nat)
    requires k < |rs|
    ensures OffsetOf(rs, k) + |PatchOf(rs[k])| <= |ImageFile(rs)|
    ensures ImageFile(rs)[OffsetOf(rs, k)..OffsetOf(rs, k) + |PatchOf(rs[k])|] == PatchOf(rs[k])
  {
    hide HeaderBytes, PatchBytes, HeaderSize;
    HeaderSizeIsWritten(rs, |rs|);
    PatchBytesAt(rs, k, |rs|);
    SliceRight(HeaderBytes(rs, |rs|), PatchBytes(rs, |rs|), OffsetOf(rs, k), OffsetOf(rs, k) + |PatchOf(rs[k])|);
  }

  /** The size pass, the header pass and the patch pass. */
  method WriteImage(rs: seq<Record>) returns (file: seq<byte>)
    ensures file == ImageFile(rs)
  {
    hide RecordBytes, Write4;
    var total := 12;
    for i := 0 to |rs|
      invariant total == HeaderSize(rs, i)
    {
      total := total + 4;
      match rs[i] {
        case NormalRecord(_, _, _) => total := total + 8 * 3;
        case DeflateRecord(_, _, _, _, _, _) => total := total + (8 * 5 + 4 * 5);
        case RawRecord(data) => total := total + (4 + |data|);
      }
    }
    var offset := total;
    file := IMGDIFF2 + Write4(|rs|);
    for i := 0 to |rs|
      invariant file == HeaderBytes(rs, i) && offset == OffsetOf(rs, i)
    {
      file := file + RecordBytes(rs[i], offset);
      if !rs[i].RawRecord? {
        offset := offset + |rs[i].patch|;
      }
    }
    for i := 0 to |rs|
      invariant file == HeaderBytes(rs, |rs|) + PatchBytes(rs, i)
    {
      if !rs[i].RawRecord? {
        file := file + rs[i].patch;
      }
    }
  }

  // The layout, byte by byte

  lemma NormalBytes()
    ensures RecordBytes(NormalRecord(1, 2, [9]), 114) ==
      [0, 0, 0, 0] + [1, 0, 0, 0, 0, 0, 0, 0] + [2, 0, 0, 0, 0, 0, 0, 0] + [114, 0, 0, 0, 0, 0, 0, 0]
  {
    WriteSmall(0);
    WriteSmall(1);
    WriteSmall(2);
    WriteSmall(114);
    hide Write4, Write8;
    var f := Fields(NormalRecord(1, 2, [9]), 114);
    assert Join(f, 1) == f[0];
    assert Join(f, 3) == f[0] + f[1] + f[2];
  }

  lemma DeflateBytes()
    ensures RecordBytes(DeflateRecord(3, 4, 5, 6, Params(7, 8, 11, 12, 13), [10, 11]), 115) ==
      [2, 0, 0, 0] + [3, 0, 0, 0, 0, 0, 0, 0] + [4, 0, 0, 0, 0, 0, 0, 0] + [115, 0, 0, 0, 0, 0, 0, 0]
      + [5, 0, 0, 0, 0, 0, 0, 0] + [6, 0, 0, 0, 0, 0, 0, 0]
      + [7, 0, 0, 0] + [8, 0, 0, 0] + [11, 0, 0, 0] + [12, 0, 0, 0] + [13, 0, 0, 0]
  {
    WriteSmall(2);
    WriteSmall(3);
    WriteSmall(4);
    WriteSmall(115);
    WriteSmall(5);
    WriteSmall(6);
    WriteSmall(7);
    WriteSmall(8);
    WriteSmall(11);
    WriteSmall(12);
    WriteSmall(13);
    hide Write4, Write8;
    var f := Fields(DeflateRecord(3, 4, 5, 6, Params(7, 8, 11, 12, 13), [10, 11]), 115);
    assert Join(f, 1) == f[0];
    assert Join(f, 3) == f[0] + f[1] + f[2];
    assert Join(f, 5) == f[0] + f[1] + f[2] + f[3] + f[4];
    assert Join(f, 7) == f[0] + f[1] + f[2] + f[3] + f[4] + f[5] + f[6];
    assert Join(f, 9) == f[0] + f[1] + f[2] + f[3] + f[4] + f[5] + f[6] + f[7] + f[8];
  }

  lemma RawBytesRecord()
    ensures RecordBytes(RawRecord([14, 15]), 117) == [3, 0, 0, 0] + [2, 0, 0, 0] + [14, 15]
  {
    WriteSmall(3);
    WriteSmall(2);
    hide Write4, Write8;
    var f := Fields(RawRecord([14, 15]), 117);
    assert Join(f, 1) == f[0];
  }

  const THREE: seq<Record> := [NormalRecord(1, 2, [9]), DeflateRecord(3, 4, 5, 6, Params(7, 8, 11, 12, 13), [10, 11]), RawRecord([14, 15])]

  /** A file of one record of each kind: magic, count, records with the places of their patches, patches. */
  lemma FileLayoutExample()
    ensures ImageFile(THREE) ==
      ([0x49, 0x4d, 0x47, 0x44, 0x49, 0x46, 0x46, 0x32] + [3, 0, 0, 0])
      + ([0, 0, 0, 0] + [1, 0, 0, 0, 0, 0, 0, 0] + [2, 0, 0, 0, 0, 0, 0, 0] + [114, 0, 0, 0, 0, 0, 0, 0])
      + ([2, 0, 0, 0] + [3, 0, 0, 0, 0, 0, 0, 0] + [4, 0, 0, 0, 0, 0, 0, 0] + [115, 0, 0, 0, 0, 0, 0, 0]
         + [5, 0, 0, 0, 0, 0, 0, 0] + [6, 0, 0, 0, 0, 0, 0, 0]
         + [7, 0, 0, 0] + [8, 0, 0, 0] + [11, 0, 0, 0] + [12, 0, 0, 0] + [13, 0, 0, 0])
      + ([3, 0, 0, 0] + [2, 0, 0, 0] + [14, 15])
      + ([9] + [10, 11])
  {
    NormalBytes();
    DeflateBytes();
    RawBytesRecord();
    WriteSmall(3);
    hide RecordBytes, Write4;
    assert HeaderSize(THREE, 1) == 40 && HeaderSize(THREE, 2) == 104 && HeaderSize(THREE, 3) == 114;
    assert PatchBytes(THREE, 1) == [9] && PatchBytes(THREE, 2) == [9] + [10, 11] && PatchBytes(THREE, 3) == [9] + [10, 11];
    assert OffsetOf(THREE, 0) == 114 && OffsetOf(THREE, 1) == 115 && OffsetOf(THREE, 2) == 117;
    assert HeaderBytes(THREE, 1) == HeaderBytes(THREE, 0) + RecordBytes(THREE[0], 114);
    assert HeaderBytes(THREE, 3) == HeaderBytes(THREE, 0) + RecordBytes(THREE[0], 114) + RecordBytes(THREE[1], 115) + RecordBytes(THREE[2], 117);
  }
}
