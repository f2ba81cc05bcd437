/** The check of a package's signature, and what the archive reader makes of the same file. */
module WholeFileSignature {
  import opened Bytes
  import opened Slices
  import opened LittleEndian

  type Digest = seq<byte>

  const FOOTER: nat := 6
  const EOCD: nat := 22
  const RSANUMBYTES: nat := 256
  const BUFFER: nat := 4096

  /** The mark of an end-of-central-directory record (section 4.3.16 of the PKWARE APPNOTE). */
  predicate MarkAt(s: seq<byte>, at: nat) {
    at + 4 <= |s| && s[at] == 0x50 && s[at + 1] == 0x4b && s[at + 2] == 0x05 && s[at + 3] == 0x06
  }

  // The archive reader

  ghost predicate ReaderFinds(file: seq<byte>, at: Option<nat>) {
    match at
    case Some(p) => p + EOCD <= |file| && MarkAt(file, p) && forall q :: p < q <= |file| - EOCD ==> !MarkAt(file, q)
    case None => forall q :: 0 <= q <= |file| - EOCD ==> !MarkAt(file, q)
  }

  /** The last mark with room for a whole record behind it. */
  method FindEocd(file: seq<byte>) returns (at: Option<nat>)
    requires |file| >= EOCD
    ensures ReaderFinds(file, at)
  {
    var p: int := |file| - EOCD;
    while p >= 0
      invariant -1 <= p <= |file| - EOCD && forall q :: p < q <= |file| - EOCD ==> !MarkAt(file, q)
    {
      if MarkAt(file, p) { return Some(p); }
      p := p - 1;
    }
    return None;
  }

  // The signature check

  function Le16(low: byte, high: byte): nat {
    low as int + 0x100 * high as int
  }

  function CommentSize(file: seq<byte>): nat
    requires |file| >= FOOTER
  {
    Le16(file[|file| - 2], file[|file| - 1])
  }

  function SignatureStart(file: seq<byte>): nat
    requires |file| >= FOOTER
  {
    Le16(file[|file| - 6], file[|file| - 5])
  }

  /** Does the record that the footer speaks of pass the checks made before anything is hashed? */
  ghost predicate RecordFits(file: seq<byte>) {
    && |file| >= FOOTER && file[|file| - 4] == 0xff && file[|file| - 3] == 0xff
    && SignatureStart(file) >= RSANUMBYTES + FOOTER
    && CommentSize(file) + EOCD <= |file|
    && var at := |file| - EOCD - CommentSize(file);
       MarkAt(file, at) && forall q :: at + 4 <= q ==> !MarkAt(file, q)
  }

  function RecordAt(file: seq<byte>): nat
    requires |file| >= FOOTER && CommentSize(file) + EOCD <= |file|
  {
    |file| - EOCD - CommentSize(file)
  }

  /** How the check ends; Outside when the signature would begin before the record that was read. */
  datatype Verdict = Success | Failure | Outside

  /** The part of the file that is hashed, and the bytes taken for the signature. */
  function Covered(file: seq<byte>): seq<byte>
    requires |file| >= FOOTER && CommentSize(file) + EOCD <= |file|
  {
    file[..RecordAt(file) + EOCD - 2]
  }

  /** Is the signature good under one of the first keys? */
  predicate SomeKey(rsa: (nat, seq<byte>, Digest) -> bool, numKeys: nat, signature: seq<byte>, digest: Digest) {
    exists k: nat :: k < numKeys && rsa(k, signature, digest)
  }

  /** Is there no other mark behind the record's own? */
  method OnlyMark(ghost file: seq<byte>, eocd: seq<byte>, ghost at: nat) returns (lone: bool)
    requires at <= |file| && eocd == file[at..]
    ensures lone <==> forall q :: at + 4 <= q ==> !MarkAt(file, q)
  {
    var i := 4;
    while i < |eocd| - 3
      invariant 4 <= i && forall q :: at + 4 <= q < at + i ==> !MarkAt(file, q)
    {
      if eocd[i] == 0x50 && eocd[i + 1] == 0x4b && eocd[i + 2] == 0x05 && eocd[i + 3] == 0x06 {
        assert MarkAt(file, at + i);
        return false;
      }
      i := i + 1;
    }
    return true;
  }

  /** Is the signature good under one of the keys? */
  method AnyKey(rsa: (nat, seq<byte>, Digest) -> bool, numKeys: nat, signature: seq<byte>, digest: Digest) returns (good: bool)
    ensures good <==> SomeKey(rsa, numKeys, signature, digest)
  {
    var k := 0;
    while k < numKeys
      invariant k <= numKeys && !SomeKey(rsa, k, signature, digest)
    {
      if rsa(k, signature, digest) { return true; }
      k := k + 1;
    }
    return false;
  }

  /** A package as it is made: what comes before the record, the record without the comment's length, and the comment with
      that length in front of it. The comment ends in how far from the end the signature's block begins, ff ff, and the length
      of the comment; there is no second mark. */
  ghost predicate Package(file: seq<byte>, body: seq<byte>, record: seq<byte>, comment: seq<byte>, start: nat) {
    && |record| == 20 && record[..4] == [0x50, 0x4b, 0x05, 0x06] && Commented(comment, start)
    && file == body + record + ToLe(|comment|, 2) + comment && LastMark(file, |body|)
  }

  ghost predicate LastMark(file: seq<byte>, at: nat) {
    forall q :: at + 4 <= q && q + 4 <= |file| ==>
      !(file[q] == 0x50 && file[q + 1] == 0x4b && file[q + 2] == 0x05 && file[q + 3] == 0x06)
  }

  ghost predicate Commented(comment: seq<byte>, start: nat) {
    && 6 <= |comment| < 65536 && start < 65536
    && comment[|comment| - 6..] == ToLe(start, 2) + [0xff, 0xff] + ToLe(|comment|, 2)
  }

  lemma TwoBytes(n: nat)
    requires n < 65536
    ensures ToLe(n, 2) == [n % 256, n / 256] && Le16(n % 256, n / 256) == n
  {
    assert ToLe(n / 256, 1) == [n / 256] by { assert ToLe(n / 256 / 256, 0) == []; }
  }

  lemma CommentEnds(comment: seq<byte>, start: nat)
    requires Commented(comment, start)
    ensures comment[|comment| - 6..] == [start % 256, start / 256, 0xff, 0xff, |comment| % 256, |comment| / 256]
  {
    TwoBytes(|comment|);
    TwoBytes(start);
  }

  lemma FooterRead(file: seq<byte>, before: seq<byte>, comment: seq<byte>, start: nat)
    requires Commented(comment, start) && file == before + comment
    ensures CommentSize(file) == |comment| && SignatureStart(file) == start
    ensures file[|file| - 4] == 0xff && file[|file| - 3] == 0xff
  {
    CommentEnds(comment, start);
    TwoBytes(|comment|);
    TwoBytes(start);
    hide Commented, Le16, ToLe;
    var tail := comment[|comment| - 6..];
    assert forall i :: 0 <= i < 6 ==> file[|file| - 6 + i] == tail[i];
  }

  lemma RecordMarks(file: seq<byte>, body: seq<byte>, record: seq<byte>, rest: seq<byte>)
    requires |record| == 20 && record[..4] == [0x50, 0x4b, 0x05, 0x06] && file == body + record + rest
    ensures MarkAt(file, |body|) && file[..|body| + 20] == body + record
  {
    assert forall i :: 0 <= i < 4 ==> file[|body| + i] == record[..4][i];
  }

  lemma PackageParts(file: seq<byte>, body: seq<byte>, record: seq<byte>, comment: seq<byte>, start: nat)
    requires Package(file, body, record, comment, start)
    ensures |record| == 20 && record[..4] == [0x50, 0x4b, 0x05, 0x06] && Commented(comment, start) && 6 <= |comment|
    ensures file == body + record + (ToLe(|comment|, 2) + comment) && file == (body + record + ToLe(|comment|, 2)) + comment
    ensures |file| == |body| + 22 + |comment| && LastMark(file, |body|)
  {
    hide LastMark, Commented;
    CommentLength(comment, start);
    assert |ToLe(|comment|, 2)| == 2;
    hide ToLe;
    assert body + record + ToLe(|comment|, 2) + comment == body + record + (ToLe(|comment|, 2) + comment);
  }

  lemma CommentLength(comment: seq<byte>, start: nat)
    requires Commented(comment, start)
    ensures 6 <= |comment| < 65536
  {
  }

  /** Such a package passes the checks made before anything is hashed exactly when the signature's block has room for a
      signature; what is hashed is all in front of the comment's length, and the signature is what ends six bytes from
      the end. */
  lemma PackageFits(file: seq<byte>, body: seq<byte>, record: seq<byte>, comment: seq<byte>, start: nat)
    requires Package(file, body, record, comment, start)
    ensures RecordFits(file) <==> start >= 262
    ensures |file| >= 22 + |comment| && CommentSize(file) == |comment| && Covered(file) == body + record
    ensures |comment| >= 262 ==>
      file[|file| - FOOTER - RSANUMBYTES..|file| - FOOTER] == comment[|comment| - 262..|comment| - 6]
  {
    hide Package, Commented, ToLe, CommentSize, SignatureStart, RecordFits, LastMark, MarkAt, Covered;
    PackageParts(file, body, record, comment, start);
    FooterRead(file, body + record + ToLe(|comment|, 2), comment, start);
    RecordMarks(file, body, record, ToLe(|comment|, 2) + comment);
    FitsWhen(file, |body|);
    if |comment| >= 262 {
      CommentSlice(body + record + ToLe(|comment|, 2), comment);
    }
  }

  lemma FitsWhen(file: seq<byte>, at: nat)
    requires |file| >= 22 && |file| == at + 22 + CommentSize(file) && MarkAt(file, at) && LastMark(file, at)
    requires file[|file| - 4] == 0xff && file[|file| - 3] == 0xff
    ensures RecordFits(file) <==> SignatureStart(file) >= 262
    ensures Covered(file) == file[..at + 20]
  {
    hide CommentSize, SignatureStart;
    assert forall q :: at + 4 <= q ==> !MarkAt(file, q);
  }

  lemma CommentSlice(before: seq<byte>, comment: seq<byte>)
    requires |comment| >= 262
    ensures var file := before + comment; file[|file| - 262..|file| - 6] == comment[|comment| - 262..|comment| - 6]
  {
  }

  lemma TailSlice(s: seq<byte>, at: nat, a: nat, b: nat)
    requires at <= |s| && a <= b <= |s| - at
    ensures s[at..][a..b] == s[at + a..at + b]
  {
  }

  /** The check, for any file; and for a package as it is made, whether some key signs all in front of the comment's length. */
  method VerifyFile(file: seq<byte>, sha: seq<byte> -> Digest, numKeys: nat,
                    rsa: (nat, seq<byte>, Digest) -> bool) returns (r: Verdict)
    ensures !RecordFits(file) ==> r == Failure
    ensures RecordFits(file) ==>
      if CommentSize(file) + EOCD < FOOTER + RSANUMBYTES then r == (if numKeys > 0 then Outside else Failure)
      else r == if SomeKey(rsa, numKeys, file[|file| - FOOTER - RSANUMBYTES..|file| - FOOTER], sha(Covered(file))) then Success else Failure
    ensures forall body, record, comment, start ::
      Package(file, body, record, comment, start) && start >= 262 && |comment| >= 262 ==>
        (r == Success <==> SomeKey(rsa, numKeys, comment[|comment| - 262..|comment| - 6], sha(body + record)))
    ensures forall body, record, comment, start :: Package(file, body, record, comment, start) && start < 262 ==> r == Failure
  {
    r := CheckFile(file, sha, numKeys, rsa);
    hide Package, RecordFits;
    forall body, record, comment, start | Package(file, body, record, comment, start)
      ensures RecordFits(file) <==> start >= 262
      ensures |file| >= 22 + |comment| && CommentSize(file) == |comment| && Covered(file) == body + record
      ensures |comment| >= 262 ==>
        file[|file| - FOOTER - RSANUMBYTES..|file| - FOOTER] == comment[|comment| - 262..|comment| - 6]
    {
      PackageFits(file, body, record, comment, start);
    }
  }

  method CheckFile(file: seq<byte>, sha: seq<byte> -> Digest, numKeys: nat,
                   rsa: (nat, seq<byte>, Digest) -> bool) returns (r: Verdict)
    ensures !RecordFits(file) ==> r == Failure
    ensures RecordFits(file) ==>
      if CommentSize(file) + EOCD < FOOTER + RSANUMBYTES then r == (if numKeys > 0 then Outside else Failure)
      else r == if SomeKey(rsa, numKeys, file[|file| - FOOTER - RSANUMBYTES..|file| - FOOTER], sha(Covered(file))) then Success else Failure
  {
    if |file| < FOOTER { return Failure; }
    var footer := file[|file| - FOOTER..];
    if footer[2] != 0xff || footer[3] != 0xff { return Failure; }
    var commentSize := Le16(footer[4], footer[5]);
    var signatureStart := Le16(footer[0], footer[1]);
    if signatureStart - FOOTER < RSANUMBYTES { return Failure; }
    var eocdSize := commentSize + EOCD;
    if eocdSize > |file| { return Failure; }
    var at := |file| - eocdSize;
    var signedLen := at + EOCD - 2;
    var eocd := file[at..];
    if !(eocd[0] == 0x50 && eocd[1] == 0x4b && eocd[2] == 0x05 && eocd[3] == 0x06) { return Failure; }
    assert MarkAt(file, at);
    var lone := OnlyMark(file, eocd, at);
    if !lone { return Failure; }
    var hashed := HashPart(file, signedLen);
    var sha1 := sha(hashed);
    if eocdSize < FOOTER + RSANUMBYTES { return if numKeys > 0 then Outside else Failure; }
    var signature := eocd[eocdSize - FOOTER - RSANUMBYTES..eocdSize - FOOTER];
    TailSlice(file, at, eocdSize - FOOTER - RSANUMBYTES, eocdSize - FOOTER);
    var good := AnyKey(rsa, numKeys, signature, sha1);
    return if good then Success else Failure;
  }

  /** Hands the hash the first bytes of the file, a buffer at a time; what it was given, all told. */
  method HashPart(file: seq<byte>, signedLen: nat) returns (hashed: seq<byte>)
    requires signedLen <= |file|
    ensures hashed == file[..signedLen]
  {
    var soFar := 0;
    hashed := [];
    while soFar < signedLen
      invariant soFar <= signedLen && hashed == file[..soFar]
    {
      var size := BUFFER;
      if signedLen - soFar < size { size := signedLen - soFar; }
      hashed := hashed + file[soFar..soFar + size];
      soFar := soFar + size;
    }
  }

  // The two agree

  /** A second mark cannot begin inside the first. */
  lemma MarksApart(s: seq<byte>, at: nat, q: nat)
    requires MarkAt(s, at) && at < q < at + 4
    ensures !MarkAt(s, q)
  {
  }

  /** When the record passes, it is the one the archive reader finds, and the file is what is hashed,
      the two bytes of the comment's length, and the comment. */
  lemma ReaderAgrees(file: seq<byte>, at: Option<nat>)
    requires RecordFits(file) && ReaderFinds(file, at)
    ensures at == Some(RecordAt(file))
    ensures file == Covered(file) + file[RecordAt(file) + 20..RecordAt(file) + 22] + file[|file| - CommentSize(file)..]
  {
    var p := RecordAt(file);
    assert MarkAt(file, p);
    forall q | p < q < p + 4 ensures !MarkAt(file, q) { MarksApart(file, p, q); }
    assert file == file[..p + 20] + file[p + 20..p + 22] + file[p + 22..];
  }

  /** The smallest of packages: a record, and a comment of 280 bytes whose last six say 262 and 280. */
  lemma PackageExample()
    ensures var record, comment := [0x50, 0x4b, 0x05, 0x06] + seq(16, i => 0), seq(274, i => 0) + [0x06, 0x01, 0xff, 0xff, 0x18, 0x01];
      Package(record + [0x18, 0x01] + comment, [], record, comment, 262)
  {
    var record: seq<byte>, comment: seq<byte> :=
      [0x50, 0x4b, 0x05, 0x06] + seq(16, i => 0), seq(274, i => 0) + [0x06, 0x01, 0xff, 0xff, 0x18, 0x01];
    TwoBytes(280);
    TwoBytes(262);
    hide ToLe;
    assert |comment| == 280 && comment[274..] == ToLe(262, 2) + [0xff, 0xff] + ToLe(280, 2);
    var body: seq<byte> := [];
    assert record + [0x18, 0x01] + comment == body + record + ToLe(280, 2) + comment;
    var file := record + [0x18, 0x01] + comment;
    assert forall q :: 4 <= q < |file| - 6 && q !in {20, 21} ==> file[q] == 0;
    assert file[20] == 0x18 && file[21] == 0x01;
  }
}
