/** The patch file of the binary differ, and the decoder that applies it. */
module BsPatch {
  import opened Bytes
  import opened Encoding
  import opened PatchStream
  import opened Slices
  import BsDiff

  /** All the bytes a decompressor delivers from an input, and whether the input breaks off before the stream ends. */
  datatype Stream = Stream(data: seq<byte>, cut: bool)

  /** bzip2. */
  datatype Bzip = Bzip(compress: seq<byte> -> seq<byte>, expand: seq<byte> -> Stream)

  /** Decompression undoes compression, and a compressed stream ends itself whatever follows it. */
  ghost predicate SelfDelimiting(bz: Bzip) {
    forall d, rest :: bz.expand(bz.compress(d) + rest) == Stream(d, false)
  }

  /** Done with the new file, an error return, no return at all, or an effect that the language leaves open:
      of a negative length, or of reading behind the end of the patch. */
  datatype Outcome = Done(data: seq<byte>) | Corrupt | Endless | Undefined

  const MAGIC: seq<byte> := [0x42, 0x53, 0x44, 0x49, 0x46, 0x46, 0x34, 0x30]  // "BSDIFF40"

  function TripleBytes(t: Triple): (b: seq<byte>)
    ensures |b| == 24
  {
    OfftOut(t.add) + OfftOut(t.copy) + OfftOut(t.seek)
  }

  function TripleAt(c: seq<byte>, at: nat): Triple
    requires at + 24 <= |c|
  {
    Triple(OfftIn(c[at..at + 8]), OfftIn(c[at + 8..at + 16]), OfftIn(c[at + 16..at + 24]))
  }

  function ControlBytes(ctrl: seq<Triple>): (b: seq<byte>)
    ensures |b| == 24 * |ctrl|
  {
    if |ctrl| == 0 then [] else ControlBytes(ctrl[..|ctrl| - 1]) + TripleBytes(ctrl[|ctrl| - 1])
  }

  /** Header, then the three compressed streams. */
  function PatchFile(bz: Bzip, ctrl: seq<Triple>, diff: seq<byte>, extra: seq<byte>, newsize: nat): seq<byte> {
    var c := bz.compress(ControlBytes(ctrl));
    var d := bz.compress(diff);
    var e := bz.compress(extra);
    MAGIC + OfftOut(|c|) + OfftOut(|d|) + OfftOut(newsize) + c + d + e
  }

  /** Overwriting the second or the third of four eight-byte fields. */
  lemma FieldSet(m: seq<byte>, a: seq<byte>, b: seq<byte>, n: seq<byte>, x: seq<byte>)
    requires |m| == |a| == |b| == |n| == |x| == 8
    ensures |m + a + b + n| == 32
    ensures (m + a + b + n)[..8] + x + (m + a + b + n)[16..] == m + x + b + n
    ensures (m + a + b + n)[..16] + x + (m + a + b + n)[24..] == m + a + x + n
  {
    var h := m + a + b + n;
    assert h[..8] == m && h[..16] == m + a && h[16..] == b + n && h[24..] == n;
    assert m + x + (b + n) == m + x + b + n;
  }

  lemma BodyKept(h: seq<byte>, c: seq<byte>, d: seq<byte>, e: seq<byte>, g: seq<byte>)
    requires |h| == 32
    ensures g + (h + c + d + e)[32..] == g + c + d + e
  {
    assert (h + c + d + e)[32..] == c + d + e;
    assert g + (c + d + e) == g + c + d + e;
  }

  /** Runs the differ and writes the patch file; the header is written twice, the second time with the lengths. */
  method WritePatch(bz: Bzip, text: seq<byte>, target: seq<byte>)
    returns (file: seq<byte>, ghost ctrl: seq<Triple>, ghost diff: seq<byte>, ghost extra: seq<byte>)
    ensures Spells(text, target, ctrl, diff, extra) && |ctrl| <= |target| + 1
    ensures file == PatchFile(bz, ctrl, diff, extra, |target|)
    ensures SelfDelimiting(bz) && |text| < TWO63 && |target| < TWO63 && |file| < TWO63 ==>
      Placed(file, 0) && Decode(bz, text, file, 0) == Done(target)
  {
    hide OfftOut, ControlBytes, Spells, SelfDelimiting, Placed, Decode;
    var triples, db, eb := BsDiff.Diff(text, target);
    ctrl, diff, extra := triples, db, eb;
    ghost var size8 := OfftOut(|target|);
    var header := MAGIC + OfftOut(0) + OfftOut(0) + OfftOut(|target|);
    FieldSet(MAGIC, OfftOut(0), OfftOut(0), size8, OfftOut(0));
    ghost var h0 := header;
    file := header;
    var c := bz.compress(ControlBytes(triples));
    file := file + c;
    var len := |file|;
    FieldSet(MAGIC, OfftOut(0), OfftOut(0), size8, OfftOut(len - 32));
    header := header[..8] + OfftOut(len - 32) + header[16..];
    var d := bz.compress(db);
    file := file + d;
    var size := |file|;
    FieldSet(MAGIC, OfftOut(len - 32), OfftOut(0), size8, OfftOut(size - len));
    header := header[..16] + OfftOut(size - len) + header[24..];
    var e := bz.compress(eb);
    file := file + e;
    BodyKept(h0, c, d, e, header);
    file := header + file[32..];
    if SelfDelimiting(bz) && |text| < TWO63 && |target| < TWO63 && |file| < TWO63 {
      PatchRoundTrip(bz, text, target, ctrl, diff, extra, [], []);
      assert [] + file + [] == file;
    }
  }

  /** What comes of asking a stream for more than it has: an error behind its end, and for ever nothing when its input
      has broken off. */
  function Dry(s: Stream): Outcome {
    if s.cut then Endless else Corrupt
  }

  /** Why a triple stops the decoder: overrun of the new file, a stream that ran dry, a negative length. */
  function Fault(t: Triple, newsize: int, newpos: nat, d: Stream, dpos: nat, e: Stream, epos: nat): Option<Outcome> {
    if newpos + t.add > newsize then Some(Corrupt)
    else if t.add < 0 then Some(Undefined)
    else if dpos + t.add > |d.data| then Some(Dry(d))
    else if newpos + t.add + t.copy > newsize then Some(Corrupt)
    else if t.copy < 0 then Some(Undefined)
    else if epos + t.copy > |e.data| then Some(Dry(e))
    else None
  }

  /** What the control loop still produces from the streams c, d, e at their cursors. */
  function DecodeFrom(text: seq<byte>, c: Stream, d: Stream, e: Stream, newsize: int,
                      newpos: nat, oldpos: int, cpos: nat, dpos: nat, epos: nat): Outcome
    requires cpos <= |c.data| && dpos <= |d.data| && epos <= |e.data|
    decreases |c.data| - cpos
  {
    if newpos >= newsize then Done([])
    else if cpos + 24 > |c.data| then Dry(c)
    else
      var t := TripleAt(c.data, cpos);
      match Fault(t, newsize, newpos, d, dpos, e, epos)
      case Some(o) => o
      case None =>
        After(Added(text, d.data[dpos..dpos + t.add], oldpos) + e.data[epos..epos + t.copy],
              DecodeFrom(text, c, d, e, newsize, newpos + t.add + t.copy, oldpos + t.add + t.seek,
                         cpos + 24, dpos + t.add, epos + t.copy))
  }

  /** The header at offset, with the places of the three streams; the extra stream runs to the end of the patch. */
  predicate Placed(patch: seq<byte>, offset: nat) {
    && offset + 32 <= |patch|
    && var x, y := OfftIn(patch[offset + 8..offset + 16]), OfftIn(patch[offset + 16..offset + 24]);
       (x >= 0 && y >= 0 ==> offset + 32 + x + y <= |patch|)
  }

  /** What the decoder makes of the patch at offset. Undefined when it would read behind the end of the patch. */
  function Decode(bz: Bzip, text: seq<byte>, patch: seq<byte>, offset: nat): Outcome {
    if offset + 8 > |patch| then Undefined
    else if patch[offset..offset + 8] != MAGIC then Corrupt
    else if offset + 32 > |patch| then Undefined
    else
      var x := OfftIn(patch[offset + 8..offset + 16]);
      var y := OfftIn(patch[offset + 16..offset + 24]);
      var newsize := OfftIn(patch[offset + 24..offset + 32]);
      if x < 0 || y < 0 || newsize < 0 then Corrupt
      else if offset + 32 + x + y > |patch| then Undefined
      else
        var body := patch[offset + 32..];
        DecodeFrom(text, bz.expand(body[..x]), bz.expand(body[x..x + y]), bz.expand(body[x + y..]), newsize, 0, 0, 0, 0, 0)
  }

  /** Reads size bytes of a decompressed stream into the buffer, or says what comes of it when there are not so many. */
  method FillBuffer(buffer: array<byte>, at: nat, size: nat, stream: Stream, pos: nat) returns (fault: Option<Outcome>)
    requires at + size <= buffer.Length && pos <= |stream.data|
    modifies buffer
    ensures fault == if pos + size <= |stream.data| then None else Some(Dry(stream))
    ensures fault == None ==> buffer[at..at + size] == stream.data[pos..pos + size]
    ensures buffer[..at] == old(buffer[..at]) && buffer[at + size..] == old(buffer[at + size..])
  {
    for i := 0 to size
      invariant pos + i <= |stream.data|
      invariant buffer[at..at + i] == stream.data[pos..pos + i]
      invariant buffer[..at] == old(buffer[..at]) && buffer[at + size..] == old(buffer[at + size..])
    {
      if pos + i == |stream.data| { return Some(Dry(stream)); }
      buffer[at + i] := stream.data[pos + i];
    }
    return None;
  }

  /** Adds old bytes to the diff bytes in place. */
  method AddOld(text: seq<byte>, data: array<byte>, at: nat, size: nat, oldpos: int)
    requires at + size <= data.Length
    modifies data
    ensures data[at..at + size] == Added(text, old(data[at..at + size]), oldpos)
    ensures data[..at] == old(data[..at]) && data[at + size..] == old(data[at + size..])
  {
    ghost var was := data[at..at + size];
    for i := 0 to size
      invariant data[at..at + i] == Added(text, was, oldpos)[..i]
      invariant data[at + i..at + size] == was[i..]
      invariant data[..at] == old(data[..at]) && data[at + size..] == old(data[at + size..])
    {
      if 0 <= oldpos + i < |text| {
        assert data[at + i] == was[i] by { assert data[at + i..at + size][0] == was[i..][0]; }
        data[at + i] := (data[at + i] as int + text[oldpos + i] as int) % 256;
      } else {
        assert data[at + i] == was[i] by { assert data[at + i..at + size][0] == was[i..][0]; }
      }
    }
  }

  /** The decoder. */
  method ApplyPatchMem(bz: Bzip, text: seq<byte>, patch: seq<byte>, offset: nat) returns (r: Outcome)
    ensures r == Decode(bz, text, patch, offset)
  {
    if offset + 8 > |patch| { return Undefined; }
    if patch[offset..offset + 8] != MAGIC {
      return Corrupt;
    }
    if offset + 32 > |patch| { return Undefined; }
    var x := OfftIn(patch[offset + 8..offset + 16]);
    var y := OfftIn(patch[offset + 16..offset + 24]);
    var newsize := OfftIn(patch[offset + 24..offset + 32]);
    if x < 0 || y < 0 || newsize < 0 {
      return Corrupt;
    }
    if offset + 32 + x + y > |patch| { return Undefined; }
    var body := patch[offset + 32..];
    r := ControlLoop(text, bz.expand(body[..x]), bz.expand(body[x..x + y]), bz.expand(body[x + y..]), newsize);
  }

  /** One round of the control loop: diff bytes, old bytes added to them, extra bytes. */
  method OneTriple(text: seq<byte>, d: Stream, e: Stream, data: array<byte>, t: Triple,
                   newpos: nat, oldpos: int, dpos: nat, epos: nat)
    returns (fault: Option<Outcome>)
    requires newpos <= data.Length && dpos <= |d.data| && epos <= |e.data|
    modifies data
    ensures fault == Fault(t, data.Length, newpos, d, dpos, e, epos)
    ensures fault == None ==>
      data[..newpos + t.add + t.copy] ==
        old(data[..newpos]) + (Added(text, d.data[dpos..dpos + t.add], oldpos) + e.data[epos..epos + t.copy])
  {
    hide Added;
    if newpos + t.add > data.Length { return Some(Corrupt); }
    if t.add < 0 { return Some(Undefined); }
    ghost var done := data[..newpos];
    fault := FillBuffer(data, newpos, t.add, d, dpos);
    if fault.Some? { return; }
    AddOld(text, data, newpos, t.add, oldpos);
    ghost var added := data[newpos..newpos + t.add];
    if newpos + t.add + t.copy > data.Length { return Some(Corrupt); }
    if t.copy < 0 { return Some(Undefined); }
    Joined(data[..], newpos, newpos + t.add, done, added);
    fault := FillBuffer(data, newpos + t.add, t.copy, e, epos);
    if fault.Some? { return; }
    Joined(data[..], newpos + t.add, newpos + t.add + t.copy, done + added, e.data[epos..epos + t.copy]);
    assert done + (added + e.data[epos..epos + t.copy]) == done + added + e.data[epos..epos + t.copy];
  }

  lemma Joined(s: seq<byte>, a: nat, b: nat, first: seq<byte>, second: seq<byte>)
    requires a <= b <= |s| && s[..a] == first && s[a..b] == second
    ensures s[..b] == first + second
  {
  }

  method ControlLoop(text: seq<byte>, c: Stream, d: Stream, e: Stream, newsize: nat) returns (r: Outcome)
    ensures r == DecodeFrom(text, c, d, e, newsize, 0, 0, 0, 0, 0)
  {
    hide Added, TripleAt, Fault, After;
    var data := new byte[newsize];
    var newpos, oldpos, cpos, dpos, epos := 0, 0, 0, 0, 0;
    AfterNone(data[..0], DecodeFrom(text, c, d, e, newsize, 0, 0, 0, 0, 0));
    while newpos < newsize
      invariant 0 <= newpos <= newsize && 0 <= cpos <= |c.data| && 0 <= dpos <= |d.data| && 0 <= epos <= |e.data|
      invariant DecodeFrom(text, c, d, e, newsize, 0, 0, 0, 0, 0)
             == After(data[..newpos], DecodeFrom(text, c, d, e, newsize, newpos, oldpos, cpos, dpos, epos))
      decreases |c.data| - cpos
    {
      ghost var done := data[..newpos];
      if cpos + 24 > |c.data| {
        AfterFault(done, Dry(c));
        return Dry(c);
      }
      var t := TripleAt(c.data, cpos);
      FaultMeans(t, newsize, newpos, d, dpos, e, epos);
      var fault := OneTriple(text, d, e, data, t, newpos, oldpos, dpos, epos);
      if fault.Some? {
        AfterFault(done, fault.value);
        return fault.value;
      }
      AfterAfter(done, Added(text, d.data[dpos..dpos + t.add], oldpos) + e.data[epos..epos + t.copy],
                 DecodeFrom(text, c, d, e, newsize, newpos + t.add + t.copy,
                            oldpos + t.add + t.seek, cpos + 24, dpos + t.add, epos + t.copy));
      newpos, oldpos, cpos, dpos, epos :=
        newpos + t.add + t.copy, oldpos + t.add + t.seek, cpos + 24, dpos + t.add, epos + t.copy;
    }
    AfterDone(data[..newpos]);
    return Done(data[..newpos]);
  }

  lemma FaultMeans(t: Triple, newsize: int, newpos: nat, d: Stream, dpos: nat, e: Stream, epos: nat)
    ensures Fault(t, newsize, newpos, d, dpos, e, epos).Some? ==> !Fault(t, newsize, newpos, d, dpos, e, epos).value.Done?
    ensures Fault(t, newsize, newpos, d, dpos, e, epos) == None ==>
      && 0 <= t.add && dpos + t.add <= |d.data| && 0 <= t.copy && epos + t.copy <= |e.data|
      && newpos + t.add + t.copy <= newsize
  {
  }

  lemma AfterNone(done: seq<byte>, o: Outcome)
    requires done == []
    ensures After(done, o) == o
  {
    if o.Done? { assert [] + o.data == o.data; }
  }

  lemma AfterFault(done: seq<byte>, o: Outcome)
    requires !o.Done?
    ensures After(done, o) == o
  {
  }

  lemma AfterDone(done: seq<byte>)
    ensures After(done, Done([])) == Done(done)
  {
    assert done + [] == done;
  }

  /** The outcome when done has already been produced. */
  function After(done: seq<byte>, o: Outcome): Outcome {
    match o
    case Done(rest) => Done(done + rest)
    case _ => o
  }

  lemma AfterAfter(a: seq<byte>, b: seq<byte>, o: Outcome)
    ensures After(a, After(b, o)) == After(a + b, o)
  {
    if o.Done? { assert a + (b + o.data) == a + b + o.data; }
  }

  /** Every number of the triple survives the eight-byte form. */
  ghost predicate FitsOfft(t: Triple) {
    -TWO63 < t.add < TWO63 && -TWO63 < t.copy < TWO63 && -TWO63 < t.seek < TWO63
  }

  lemma TripleRoundTrip(t: Triple, c: seq<byte>, at: nat)
    requires at + 24 <= |c| && c[at..at + 24] == TripleBytes(t) && FitsOfft(t)
    ensures TripleAt(c, at) == t
  {
    hide OfftOut;
    OfftRoundTrip(t.add);
    OfftRoundTrip(t.copy);
    OfftRoundTrip(t.seek);
    Cut3(OfftOut(t.add), OfftOut(t.copy), OfftOut(t.seek));
    SliceSlice(c, at, at + 24, 0, 8);
    SliceSlice(c, at, at + 24, 8, 16);
    SliceSlice(c, at, at + 24, 16, 24);
  }

  lemma {:induction false} ControlAt(ctrl: seq<Triple>, k: nat)
    requires k < |ctrl|
    ensures ControlBytes(ctrl)[24 * k..24 * k + 24] == TripleBytes(ctrl[k])
    decreases |ctrl|
  {
    hide TripleBytes;
    var n := |ctrl| - 1;
    if k < n {
      ControlAt(ctrl[..n], k);
      SliceLeft(ControlBytes(ctrl[..n]), TripleBytes(ctrl[n]), 24 * k, 24 * k + 24);
    } else {
      SliceRight(ControlBytes(ctrl[..n]), TripleBytes(ctrl[n]), 24 * n, 24 * n + 24);
    }
  }

  /** Triples of a complete patch are small when the files are. */
  lemma SpelledFits(text: seq<byte>, target: seq<byte>, ctrl: seq<Triple>, diff: seq<byte>, extra: seq<byte>, k: nat)
    requires Spells(text, target, ctrl, diff, extra) && k < |ctrl| && |text| < TWO63 && |target| < TWO63
    ensures FitsOfft(ctrl[k])
  {
    assert ctrl[k] in ctrl;
    UsedGrows(ctrl, k + 1, |ctrl|);
    UsedGrows(ctrl, 0, k);
    assert |Output(text, ctrl, diff, extra, |ctrl|)| == |target|;
    assert OldPos(ctrl, k + 1) == OldPos(ctrl, k) + ctrl[k].add + ctrl[k].seek;
  }

  /** How much of the target the first k triples spell. */
  function Spelled(ctrl: seq<Triple>, k: nat): int
    requires k <= |ctrl|
  {
    DiffUsed(ctrl, k) + ExtraUsed(ctrl, k)
  }

  lemma SpelledBounds(text: seq<byte>, target: seq<byte>, ctrl: seq<Triple>, diff: seq<byte>, extra: seq<byte>, k: nat)
    requires Spells(text, target, ctrl, diff, extra) && k <= |ctrl|
    ensures 0 <= DiffUsed(ctrl, k) <= |diff| && 0 <= ExtraUsed(ctrl, k) <= |extra| && 0 <= Spelled(ctrl, k) <= |target|
    ensures k < |ctrl| ==> Spelled(ctrl, k) < |target| && 0 <= ctrl[k].add && 0 <= ctrl[k].copy
    ensures k == |ctrl| ==> Spelled(ctrl, k) == |target|
  {
    UsedGrows(ctrl, k, |ctrl|);
    assert |Output(text, ctrl, diff, extra, |ctrl|)| == |target|;
    if k < |ctrl| { assert ctrl[k] in ctrl; }
  }

  function Ended(data: seq<byte>): Stream {
    Stream(data, false)
  }

  /** From the k-th triple on, the decoder delivers the rest of the target and stops at the ends of the streams. */
  lemma {:induction false} DecodeRun(text: seq<byte>, target: seq<byte>, ctrl: seq<Triple>, diff: seq<byte>,
      extra: seq<byte>, k: nat)
    requires Spells(text, target, ctrl, diff, extra) && k <= |ctrl| && |text| < TWO63 && |target| < TWO63
    ensures 0 <= DiffUsed(ctrl, k) <= |diff| && 0 <= ExtraUsed(ctrl, k) <= |extra| && 0 <= Spelled(ctrl, k) <= |target|
    ensures DecodeFrom(text, Ended(ControlBytes(ctrl)), Ended(diff), Ended(extra), |target|, Spelled(ctrl, k),
                       OldPos(ctrl, k), 24 * k, DiffUsed(ctrl, k), ExtraUsed(ctrl, k))
         == Done(target[Spelled(ctrl, k)..])
    decreases |ctrl| - k
  {
    hide TripleAt, Added, Output, ControlBytes, TripleBytes, Spells, DecodeFrom;
    SpelledBounds(text, target, ctrl, diff, extra, k);
    if k == |ctrl| {
      DecodeEnd(text, Ended(ControlBytes(ctrl)), Ended(diff), Ended(extra), |target|, Spelled(ctrl, k), OldPos(ctrl, k), 24 * k, DiffUsed(ctrl, k), ExtraUsed(ctrl, k));
    } else {
      DecodeRun(text, target, ctrl, diff, extra, k + 1);
      SpelledBounds(text, target, ctrl, diff, extra, k + 1);
      SpelledFits(text, target, ctrl, diff, extra, k);
      ControlAt(ctrl, k);
      TripleRoundTrip(ctrl[k], ControlBytes(ctrl), 24 * k);
      OutputAt(text, target, ctrl, diff, extra, k);
      DecodeOne(text, Ended(ControlBytes(ctrl)), Ended(diff), Ended(extra), |target|, Spelled(ctrl, k), OldPos(ctrl, k), 24 * k,
                DiffUsed(ctrl, k), ExtraUsed(ctrl, k), ctrl[k], target[Spelled(ctrl, k + 1)..]);
    }
  }

  lemma DecodeEnd(text: seq<byte>, c: Stream, d: Stream, e: Stream, newsize: int,
                  newpos: nat, oldpos: int, cpos: nat, dpos: nat, epos: nat)
    requires cpos <= |c.data| && dpos <= |d.data| && epos <= |e.data| && newpos == newsize
    ensures DecodeFrom(text, c, d, e, newsize, newpos, oldpos, cpos, dpos, epos) == Done([])
  {
  }

  /** One round of the decoder that raises no fault. */
  lemma DecodeOne(text: seq<byte>, c: Stream, d: Stream, e: Stream, newsize: int,
                  newpos: nat, oldpos: int, cpos: nat, dpos: nat, epos: nat, t: Triple, rest: seq<byte>)
    requires cpos + 24 <= |c.data| && newpos < newsize && TripleAt(c.data, cpos) == t && 0 <= t.add && 0 <= t.copy
    requires dpos + t.add <= |d.data| && epos + t.copy <= |e.data| && newpos + t.add + t.copy <= newsize
    requires DecodeFrom(text, c, d, e, newsize, newpos + t.add + t.copy, oldpos + t.add + t.seek,
                        cpos + 24, dpos + t.add, epos + t.copy) == Done(rest)
    ensures DecodeFrom(text, c, d, e, newsize, newpos, oldpos, cpos, dpos, epos)
         == Done(Added(text, d.data[dpos..dpos + t.add], oldpos) + e.data[epos..epos + t.copy] + rest)
  {
    hide TripleAt, Added;
  }

  /** The piece of the target that the k-th triple spells. */
  lemma OutputAt(text: seq<byte>, target: seq<byte>, ctrl: seq<Triple>, diff: seq<byte>, extra: seq<byte>, k: nat)
    requires Spells(text, target, ctrl, diff, extra) && k < |ctrl|
    ensures 0 <= DiffUsed(ctrl, k) <= DiffUsed(ctrl, k + 1) <= |diff|
    ensures 0 <= ExtraUsed(ctrl, k) <= ExtraUsed(ctrl, k + 1) <= |extra|
    ensures 0 <= Spelled(ctrl, k) <= Spelled(ctrl, k + 1) <= |target|
    ensures Added(text, diff[DiffUsed(ctrl, k)..DiffUsed(ctrl, k + 1)], OldPos(ctrl, k))
          + extra[ExtraUsed(ctrl, k)..ExtraUsed(ctrl, k + 1)] + target[Spelled(ctrl, k + 1)..]
         == target[Spelled(ctrl, k)..]
  {
    hide Added, Spells;
    SpelledBounds(text, target, ctrl, diff, extra, k);
    SpelledBounds(text, target, ctrl, diff, extra, k + 1);
    SpelledOutput(text, target, ctrl, diff, extra, k);
    SpelledOutput(text, target, ctrl, diff, extra, k + 1);
    var u, v := Spelled(ctrl, k), Spelled(ctrl, k + 1);
    var a := Added(text, diff[DiffUsed(ctrl, k)..DiffUsed(ctrl, k + 1)], OldPos(ctrl, k));
    var b := extra[ExtraUsed(ctrl, k)..ExtraUsed(ctrl, k + 1)];
    Cut3(target[..u], a, b);
    assert target[..v] == target[..u] + a + b;
    assert target[u..] == target[..v][u..] + target[v..];
    assert (target[..u] + a + b)[u..] == a + b;
  }

  lemma SpelledOutput(text: seq<byte>, target: seq<byte>, ctrl: seq<Triple>, diff: seq<byte>, extra: seq<byte>, k: nat)
    requires Spells(text, target, ctrl, diff, extra) && k <= |ctrl|
    ensures Counted(ctrl) && Supplied(ctrl, diff, extra, k) && 0 <= Spelled(ctrl, k) <= |target|
    ensures Output(text, ctrl, diff, extra, k) == target[..Spelled(ctrl, k)]
  {
    SpelledBounds(text, target, ctrl, diff, extra, k);
    OutputPrefix(text, ctrl, diff, extra, k, |ctrl|);
  }

  lemma {:induction false} OutputPrefix(text: seq<byte>, ctrl: seq<Triple>, diff: seq<byte>, extra: seq<byte>,
      j: nat, k: nat)
    requires j <= k <= |ctrl| && Counted(ctrl) && Supplied(ctrl, diff, extra, k)
    ensures Supplied(ctrl, diff, extra, j)
    ensures Output(text, ctrl, diff, extra, j) <= Output(text, ctrl, diff, extra, k)
    decreases k
  {
    if j < k {
      assert ctrl[k - 1] in ctrl;
      OutputPrefix(text, ctrl, diff, extra, j, k - 1);
    }
  }

  /** Applying the patch file, wherever it stands in a larger file, gives back the target. */
  lemma PatchRoundTrip(bz: Bzip, text: seq<byte>, target: seq<byte>, ctrl: seq<Triple>, diff: seq<byte>, extra: seq<byte>,
                       before: seq<byte>, behind: seq<byte>)
    requires SelfDelimiting(bz) && Spells(text, target, ctrl, diff, extra)
    requires |text| < TWO63 && |target| < TWO63
    requires |bz.compress(ControlBytes(ctrl))| < TWO63 && |bz.compress(diff)| < TWO63
    ensures var patch := before + PatchFile(bz, ctrl, diff, extra, |target|) + behind;
      Placed(patch, |before|) && Decode(bz, text, patch, |before|) == Done(target)
  {
    hide OfftOut, ControlBytes, DecodeFrom, Spells, OfftIn;
    var c, d, e := bz.compress(ControlBytes(ctrl)), bz.compress(diff), bz.compress(extra);
    var patch := before + PatchFile(bz, ctrl, diff, extra, |target|) + behind;
    HeaderFields(before, MAGIC, OfftOut(|c|), OfftOut(|d|), OfftOut(|target|), c, d, e, behind);
    OfftRoundTrip(|c|);
    OfftRoundTrip(|d|);
    OfftRoundTrip(|target|);
    assert bz.expand(c) == Ended(ControlBytes(ctrl)) by { assert c + [] == c; }
    assert bz.expand(d) == Ended(diff) by { assert d + [] == d; }
    DecodeRun(text, target, ctrl, diff, extra, 0);
    assert target[0..] == target;
  }

  lemma HeaderFields(before: seq<byte>, m: seq<byte>, x: seq<byte>, y: seq<byte>, n: seq<byte>,
                     c: seq<byte>, d: seq<byte>, e: seq<byte>, behind: seq<byte>)
    requires |m| == |x| == |y| == |n| == 8
    ensures var patch, o := before + (m + x + y + n + c + d + e) + behind, |before|;
      && o + 32 + |c| + |d| <= |patch|
      && patch[o..o + 8] == m && patch[o + 8..o + 16] == x && patch[o + 16..o + 24] == y && patch[o + 24..o + 32] == n
      && patch[o + 32..][..|c|] == c
      && patch[o + 32..][|c|..|c| + |d|] == d
      && patch[o + 32..][|c| + |d|..] == e + behind
  {
    var patch, o := before + (m + x + y + n + c + d + e) + behind, |before|;
    assert patch[o..] == m + x + y + n + c + d + e + behind;
    assert patch[o + 32..] == c + (d + (e + behind));
  }

  // When the decoder does not return

  /** The triples that a control stream holds in whole. */
  function TriplesOf(c: seq<byte>): (ts: seq<Triple>)
    ensures |ts| == |c| / 24
  {
    seq(|c| / 24, i requires 0 <= i < |c| / 24 => TripleAt(c, 24 * i))
  }

  /** Does the decoder take the k-th triple and get through with it? */
  predicate Passes(ts: seq<Triple>, d: Stream, e: Stream, newsize: int, k: nat)
    requires k < |ts|
  {
    && Spelled(ts, k) < newsize && 0 <= ts[k].add && 0 <= ts[k].copy && Spelled(ts, k + 1) <= newsize
    && DiffUsed(ts, k + 1) <= |d.data| && ExtraUsed(ts, k + 1) <= |e.data|
  }

  /** Does it ask a stream that has broken off for more, with the first k triples behind it? */
  predicate Stalls(ts: seq<Triple>, c: Stream, d: Stream, e: Stream, newsize: int, k: nat)
    requires k <= |ts|
  {
    && Spelled(ts, k) < newsize
    && if k == |ts| then c.cut
       else
         && 0 <= ts[k].add && Spelled(ts, k) + ts[k].add <= newsize
         && if DiffUsed(ts, k + 1) > |d.data| then d.cut
            else 0 <= ts[k].copy && Spelled(ts, k + 1) <= newsize && ExtraUsed(ts, k + 1) > |e.data| && e.cut
  }

  ghost predicate StallsLater(ts: seq<Triple>, c: Stream, d: Stream, e: Stream, newsize: int, k: nat) {
    exists m :: k <= m <= |ts| && (forall j :: k <= j < m ==> Passes(ts, d, e, newsize, j)) && Stalls(ts, c, d, e, newsize, m)
  }

  lemma {:induction false} PassedCursors(ts: seq<Triple>, d: Stream, e: Stream, newsize: int, k: nat)
    requires k <= |ts| && forall j :: 0 <= j < k ==> Passes(ts, d, e, newsize, j)
    ensures 0 <= DiffUsed(ts, k) <= |d.data| && 0 <= ExtraUsed(ts, k) <= |e.data|
  {
    if k > 0 {
      PassedCursors(ts, d, e, newsize, k - 1);
      assert Passes(ts, d, e, newsize, k - 1);
    }
  }

  lemma TripleThere(c: seq<byte>, k: nat)
    ensures k < |TriplesOf(c)| <==> 24 * k + 24 <= |c|
    ensures k < |TriplesOf(c)| ==> TriplesOf(c)[k] == TripleAt(c, 24 * k)
  {
    hide TripleAt;
  }

  /** From the k-th triple on, the decoder never returns exactly when it gets through with some more and then stalls. */
  lemma {:induction false} StallsFrom(text: seq<byte>, c: Stream, d: Stream, e: Stream, newsize: int, k: nat)
    requires var ts := TriplesOf(c.data); k <= |ts| && forall j :: 0 <= j < k ==> Passes(ts, d, e, newsize, j)
    ensures var ts := TriplesOf(c.data); 0 <= DiffUsed(ts, k) <= |d.data| && 0 <= ExtraUsed(ts, k) <= |e.data|
    ensures var ts := TriplesOf(c.data);
      StallsLater(ts, c, d, e, newsize, k) <==>
        DecodeFrom(text, c, d, e, newsize, Spelled(ts, k), OldPos(ts, k), 24 * k, DiffUsed(ts, k), ExtraUsed(ts, k)) == Endless
    decreases |TriplesOf(c.data)| - k
  {
    hide TriplesOf, TripleAt, Added, DecodeFrom, Stalls, Passes;
    var ts := TriplesOf(c.data);
    PassedCursors(ts, d, e, newsize, k);
    TripleThere(c.data, k);
    if k < |ts| && Passes(ts, d, e, newsize, k) {
      StallsFrom(text, c, d, e, newsize, k + 1);
      PassesOn(text, c, d, e, newsize, ts, k);
      if StallsLater(ts, c, d, e, newsize, k) {
        var m :| k <= m <= |ts| && (forall j :: k <= j < m ==> Passes(ts, d, e, newsize, j)) && Stalls(ts, c, d, e, newsize, m);
        NotBoth(ts, c, d, e, newsize, k);
        assert k + 1 <= m;
      }
    } else {
      StopsHere(text, c, d, e, newsize, ts, k);
      if Stalls(ts, c, d, e, newsize, k) { assert StallsLater(ts, c, d, e, newsize, k); }
    }
  }

  lemma NotBoth(ts: seq<Triple>, c: Stream, d: Stream, e: Stream, newsize: int, k: nat)
    requires k < |ts| && Passes(ts, d, e, newsize, k)
    ensures !Stalls(ts, c, d, e, newsize, k)
  {
  }

  lemma PassesOn(text: seq<byte>, c: Stream, d: Stream, e: Stream, newsize: int, ts: seq<Triple>, k: nat)
    requires k < |ts| && Passes(ts, d, e, newsize, k) && 24 * k + 24 <= |c.data| && ts[k] == TripleAt(c.data, 24 * k)
    requires 0 <= DiffUsed(ts, k) <= |d.data| && 0 <= ExtraUsed(ts, k) <= |e.data|
    requires 0 <= DiffUsed(ts, k + 1) <= |d.data| && 0 <= ExtraUsed(ts, k + 1) <= |e.data|
    ensures DecodeFrom(text, c, d, e, newsize, Spelled(ts, k), OldPos(ts, k), 24 * k, DiffUsed(ts, k), ExtraUsed(ts, k)) == Endless
      <==> DecodeFrom(text, c, d, e, newsize, Spelled(ts, k + 1), OldPos(ts, k + 1), 24 * (k + 1), DiffUsed(ts, k + 1), ExtraUsed(ts, k + 1)) == Endless
  {
    hide TripleAt, Added;
  }

  lemma StopsHere(text: seq<byte>, c: Stream, d: Stream, e: Stream, newsize: int, ts: seq<Triple>, k: nat)
    requires k <= |ts| && 0 <= DiffUsed(ts, k) <= |d.data| && 0 <= ExtraUsed(ts, k) <= |e.data| && 24 * k <= |c.data|
    requires k < |ts| <==> 24 * k + 24 <= |c.data|
    requires k < |ts| ==> ts[k] == TripleAt(c.data, 24 * k) && !Passes(ts, d, e, newsize, k)
    ensures DecodeFrom(text, c, d, e, newsize, Spelled(ts, k), OldPos(ts, k), 24 * k, DiffUsed(ts, k), ExtraUsed(ts, k)) == Endless
      <==> Stalls(ts, c, d, e, newsize, k)
  {
    hide TripleAt, Added;
  }

  /** The header is in order: magic, lengths, and the first two streams inside the patch. */
  predicate InOrder(patch: seq<byte>, offset: nat) {
    && offset + 32 <= |patch| && patch[offset..offset + 8] == MAGIC
    && var x, y := OfftIn(patch[offset + 8..offset + 16]), OfftIn(patch[offset + 16..offset + 24]);
       0 <= x && 0 <= y && 0 <= OfftIn(patch[offset + 24..offset + 32]) && offset + 32 + x + y <= |patch|
  }

  /** Decoding never ends exactly when the header is in order and, some triples further on, a stream that has broken off
      is asked for more. */
  lemma EndlessExactly(bz: Bzip, text: seq<byte>, patch: seq<byte>, offset: nat)
    ensures Decode(bz, text, patch, offset) == Endless <==>
      InOrder(patch, offset) &&
      var x, y := OfftIn(patch[offset + 8..offset + 16]), OfftIn(patch[offset + 16..offset + 24]);
      var c := bz.expand(patch[offset + 32..][..x]);
      StallsLater(TriplesOf(c.data), c, bz.expand(patch[offset + 32..][x..x + y]), bz.expand(patch[offset + 32..][x + y..]),
                  OfftIn(patch[offset + 24..offset + 32]), 0)
  {
    hide OfftIn, StallsLater, DecodeFrom, TriplesOf;
    if InOrder(patch, offset) {
      var x, y := OfftIn(patch[offset + 8..offset + 16]), OfftIn(patch[offset + 16..offset + 24]);
      var c, d := bz.expand(patch[offset + 32..][..x]), bz.expand(patch[offset + 32..][x..x + y]);
      StallsFrom(text, c, d, bz.expand(patch[offset + 32..][x + y..]), OfftIn(patch[offset + 24..offset + 32]), 0);
    }
  }

  /** A header that asks for one byte, with nothing behind it, is enough when no compressed stream is empty. */
  lemma EndlessExample(bz: Bzip, text: seq<byte>)
    requires bz.expand([]) == Stream([], true)
    ensures Decode(bz, text, MAGIC + OfftOut(0) + OfftOut(0) + OfftOut(1), 0) == Endless
  {
    hide OfftIn, OfftOut;
    var patch, none: seq<byte> := MAGIC + OfftOut(0) + OfftOut(0) + OfftOut(1), [];
    HeaderFields(none, MAGIC, OfftOut(0), OfftOut(0), OfftOut(1), none, none, none, none);
    assert none + (patch + none + none + none) + none == patch && none + none == none;
    OfftRoundTrip(0);
    OfftRoundTrip(1);
    assert patch[32..][..0] == patch[32..][0..0] == patch[32..][0..] == [];
  }

  // When the decoder is done, and when it fails

  ghost predicate PassesFirst(ts: seq<Triple>, d: Stream, e: Stream, newsize: int, m: nat) {
    m <= |ts| && forall j :: 0 <= j < m ==> Passes(ts, d, e, newsize, j)
  }

  /** Does it fail, with the first k triples behind it: at the end of a stream that is whole, or at a length that overruns
      the new file? */
  predicate Fails(ts: seq<Triple>, c: Stream, d: Stream, e: Stream, newsize: int, k: nat)
    requires k <= |ts|
  {
    && Spelled(ts, k) < newsize
    && if k == |ts| then !c.cut
       else
         || Spelled(ts, k) + ts[k].add > newsize
         || (0 <= ts[k].add &&
             if DiffUsed(ts, k + 1) > |d.data| then !d.cut
             else Spelled(ts, k + 1) > newsize || (0 <= ts[k].copy && ExtraUsed(ts, k + 1) > |e.data| && !e.cut))
  }

  /** The first m triples make a new file of just the size wanted, and this is it. */
  ghost predicate Makes(text: seq<byte>, ts: seq<Triple>, d: Stream, e: Stream, newsize: int, m: nat, out: seq<byte>) {
    && PassesFirst(ts, d, e, newsize, m) && Spelled(ts, m) == newsize
    && Counted(ts[..m]) && Supplied(ts[..m], d.data, e.data, m) && out == Output(text, ts[..m], d.data, e.data, m)
  }

  ghost predicate MakesSometime(text: seq<byte>, ts: seq<Triple>, d: Stream, e: Stream, newsize: int, out: seq<byte>) {
    exists m: nat :: Makes(text, ts, d, e, newsize, m, out)
  }

  ghost predicate FailsSometime(ts: seq<Triple>, c: Stream, d: Stream, e: Stream, newsize: int) {
    exists m: nat :: PassesFirst(ts, d, e, newsize, m) && Fails(ts, c, d, e, newsize, m)
  }

  /** The first triple that does not pass, if any. */
  lemma {:induction false} FirstStop(ts: seq<Triple>, d: Stream, e: Stream, newsize: int, k: nat) returns (m: nat)
    requires PassesFirst(ts, d, e, newsize, k)
    ensures PassesFirst(ts, d, e, newsize, m) && (m < |ts| ==> !Passes(ts, d, e, newsize, m))
    decreases |ts| - k
  {
    if k < |ts| && Passes(ts, d, e, newsize, k) {
      m := FirstStop(ts, d, e, newsize, k + 1);
    } else {
      m := k;
    }
  }

  lemma {:induction false} PrefixUsed(ts: seq<Triple>, d: Stream, e: Stream, newsize: int, m: nat)
    requires PassesFirst(ts, d, e, newsize, m)
    ensures 0 <= DiffUsed(ts, m) <= |d.data| && 0 <= ExtraUsed(ts, m) <= |e.data| && 0 <= Spelled(ts, m)
    ensures Counted(ts[..m]) && Supplied(ts[..m], d.data, e.data, m)
    ensures DiffUsed(ts[..m], m) == DiffUsed(ts, m) && ExtraUsed(ts[..m], m) == ExtraUsed(ts, m) && OldPos(ts[..m], m) == OldPos(ts, m)
  {
    PassedCursors(ts, d, e, newsize, m);
    UsedExtends(ts[..m], ts, m);
    forall t | t in ts[..m] ensures t.add >= 0 && t.copy >= 0 {
      var j :| 0 <= j < m && ts[j] == t;
      assert Passes(ts, d, e, newsize, j);
    }
  }

  /** What one more triple adds. */
  lemma OutputStep(text: seq<byte>, ts: seq<Triple>, d: Stream, e: Stream, newsize: int, m: nat)
    requires PassesFirst(ts, d, e, newsize, m + 1)
    ensures Counted(ts[..m]) && Supplied(ts[..m], d.data, e.data, m) && Counted(ts[..m + 1]) && Supplied(ts[..m + 1], d.data, e.data, m + 1)
    ensures 0 <= DiffUsed(ts, m) <= DiffUsed(ts, m) + ts[m].add <= |d.data| && 0 <= ExtraUsed(ts, m) <= ExtraUsed(ts, m) + ts[m].copy <= |e.data|
    ensures Output(text, ts[..m + 1], d.data, e.data, m + 1) == Output(text, ts[..m], d.data, e.data, m)
      + (Added(text, d.data[DiffUsed(ts, m)..DiffUsed(ts, m) + ts[m].add], OldPos(ts, m)) + e.data[ExtraUsed(ts, m)..ExtraUsed(ts, m) + ts[m].copy])
  {
    hide *;
    PassesLess(ts, d, e, newsize, m + 1);
    PassesFacts(ts, d, e, newsize, m);
    PrefixUsed(ts, d, e, newsize, m);
    PrefixUsed(ts, d, e, newsize, m + 1);
    UsedUnfolds(ts, m);
    OneLonger(ts, m);
    UsedExtends(ts[..m], ts[..m + 1], m);
    SuppliedFirst(ts[..m + 1], d.data, e.data, m);
    OutputExtends(text, ts[..m], d.data, e.data, ts[..m + 1], d.data, e.data, m);
    OutputUnfolds(text, ts[..m + 1], d.data, e.data, m);
    Regroup(Output(text, ts[..m], d.data, e.data, m),
            Added(text, d.data[DiffUsed(ts, m)..DiffUsed(ts, m) + ts[m].add], OldPos(ts, m)),
            e.data[ExtraUsed(ts, m)..ExtraUsed(ts, m) + ts[m].copy]);
  }

  lemma PassesFacts(ts: seq<Triple>, d: Stream, e: Stream, newsize: int, k: nat)
    requires k < |ts| && Passes(ts, d, e, newsize, k)
    ensures 0 <= ts[k].add && 0 <= ts[k].copy
  {
  }

  lemma OneLonger(ts: seq<Triple>, m: nat)
    requires m < |ts|
    ensures ts[..m] <= ts[..m + 1] && ts[..m + 1][m] == ts[m]
  {
  }

  lemma SuppliedFirst(ts: seq<Triple>, diff: seq<byte>, extra: seq<byte>, m: nat)
    requires m < |ts| && Counted(ts) && Supplied(ts, diff, extra, m + 1)
    ensures Supplied(ts, diff, extra, m)
  {
    assert ts[m] in ts;
  }

  lemma Regroup(x: seq<byte>, y: seq<byte>, z: seq<byte>)
    ensures x + y + z == x + (y + z)
  {
  }

  /** Triples that pass put their output in front of what comes of the rest. */
  lemma {:induction false} DecodePrefix(text: seq<byte>, c: Stream, d: Stream, e: Stream, newsize: int, m: nat)
    requires PassesFirst(TriplesOf(c.data), d, e, newsize, m)
    ensures var ts := TriplesOf(c.data);
      && 0 <= DiffUsed(ts, m) <= |d.data| && 0 <= ExtraUsed(ts, m) <= |e.data| && 24 * m <= |c.data|
      && Counted(ts[..m]) && Supplied(ts[..m], d.data, e.data, m)
      && DecodeFrom(text, c, d, e, newsize, 0, 0, 0, 0, 0) == After(Output(text, ts[..m], d.data, e.data, m),
           DecodeFrom(text, c, d, e, newsize, Spelled(ts, m), OldPos(ts, m), 24 * m, DiffUsed(ts, m), ExtraUsed(ts, m)))
  {
    hide *;
    var ts := TriplesOf(c.data);
    PrefixUsed(ts, d, e, newsize, m);
    if m == 0 {
      FromTheFront(text, c, d, e, newsize, ts);
    } else {
      PassesLess(ts, d, e, newsize, m);
      DecodePrefix(text, c, d, e, newsize, m - 1);
      OutputStep(text, ts, d, e, newsize, m - 1);
      TripleThere(c.data, m - 1);
      DecodeStep(text, c, d, e, newsize, ts, m - 1);
      var piece := Added(text, d.data[DiffUsed(ts, m - 1)..DiffUsed(ts, m - 1) + ts[m - 1].add], OldPos(ts, m - 1))
        + e.data[ExtraUsed(ts, m - 1)..ExtraUsed(ts, m - 1) + ts[m - 1].copy];
      AfterAfter(Output(text, ts[..m - 1], d.data, e.data, m - 1), piece,
                 DecodeFrom(text, c, d, e, newsize, Spelled(ts, m), OldPos(ts, m), 24 * m, DiffUsed(ts, m), ExtraUsed(ts, m)));
    }
  }

  lemma PassesLess(ts: seq<Triple>, d: Stream, e: Stream, newsize: int, m: nat)
    requires 0 < m && PassesFirst(ts, d, e, newsize, m)
    ensures m <= |ts| && PassesFirst(ts, d, e, newsize, m - 1) && Passes(ts, d, e, newsize, m - 1)
  {
  }

  lemma FromTheFront(text: seq<byte>, c: Stream, d: Stream, e: Stream, newsize: int, ts: seq<Triple>)
    ensures DiffUsed(ts, 0) == 0 && ExtraUsed(ts, 0) == 0 && OldPos(ts, 0) == 0 && Spelled(ts, 0) == 0
    ensures Counted(ts[..0]) && Supplied(ts[..0], d.data, e.data, 0)
    ensures After(Output(text, ts[..0], d.data, e.data, 0), DecodeFrom(text, c, d, e, newsize, 0, 0, 0, 0, 0)) ==
      DecodeFrom(text, c, d, e, newsize, 0, 0, 0, 0, 0)
  {
    hide DecodeFrom;
    AfterNone([], DecodeFrom(text, c, d, e, newsize, 0, 0, 0, 0, 0));
  }

  lemma DecodeStep(text: seq<byte>, c: Stream, d: Stream, e: Stream, newsize: int, ts: seq<Triple>, k: nat)
    requires k < |ts| && Passes(ts, d, e, newsize, k) && 24 * k + 24 <= |c.data| && ts[k] == TripleAt(c.data, 24 * k)
    requires 0 <= DiffUsed(ts, k) <= |d.data| && 0 <= ExtraUsed(ts, k) <= |e.data|
    requires 0 <= DiffUsed(ts, k + 1) <= |d.data| && 0 <= ExtraUsed(ts, k + 1) <= |e.data|
    ensures DecodeFrom(text, c, d, e, newsize, Spelled(ts, k), OldPos(ts, k), 24 * k, DiffUsed(ts, k), ExtraUsed(ts, k)) ==
      After(Added(text, d.data[DiffUsed(ts, k)..DiffUsed(ts, k) + ts[k].add], OldPos(ts, k)) + e.data[ExtraUsed(ts, k)..ExtraUsed(ts, k) + ts[k].copy],
        DecodeFrom(text, c, d, e, newsize, Spelled(ts, k + 1), OldPos(ts, k + 1), 24 * (k + 1), DiffUsed(ts, k + 1), ExtraUsed(ts, k + 1)))
  {
    hide TripleAt, Added;
  }

  lemma StopMeans(text: seq<byte>, c: Stream, d: Stream, e: Stream, newsize: int, ts: seq<Triple>, k: nat)
    requires k <= |ts| && 0 <= DiffUsed(ts, k) <= |d.data| && 0 <= ExtraUsed(ts, k) <= |e.data| && 24 * k <= |c.data|
    requires k < |ts| <==> 24 * k + 24 <= |c.data|
    requires k < |ts| ==> ts[k] == TripleAt(c.data, 24 * k) && !Passes(ts, d, e, newsize, k)
    ensures var o := DecodeFrom(text, c, d, e, newsize, Spelled(ts, k), OldPos(ts, k), 24 * k, DiffUsed(ts, k), ExtraUsed(ts, k));
      && (o.Done? <==> Spelled(ts, k) >= newsize) && (o.Done? ==> o == Done([])) && (o == Corrupt <==> Fails(ts, c, d, e, newsize, k))
  {
    hide TripleAt, Added;
  }

  lemma PassedSize(ts: seq<Triple>, d: Stream, e: Stream, newsize: nat, m: nat)
    requires PassesFirst(ts, d, e, newsize, m)
    ensures Spelled(ts, m) <= newsize
  {
    if m > 0 { assert Passes(ts, d, e, newsize, m - 1); }
  }

  /** A triple at which decoding stops is not one that passes. */
  lemma StopsOnce(ts: seq<Triple>, c: Stream, d: Stream, e: Stream, newsize: nat, m: nat, k: nat)
    requires PassesFirst(ts, d, e, newsize, m) && (m < |ts| ==> !Passes(ts, d, e, newsize, m)) && PassesFirst(ts, d, e, newsize, k)
    requires Spelled(ts, k) >= newsize || Fails(ts, c, d, e, newsize, k)
    ensures k == m
  {
    hide Passes, Fails, Spelled;
    if k < m { PassesGoesOn(ts, c, d, e, newsize, k); }
  }

  lemma PassesGoesOn(ts: seq<Triple>, c: Stream, d: Stream, e: Stream, newsize: nat, k: nat)
    requires k < |ts| && Passes(ts, d, e, newsize, k)
    ensures Spelled(ts, k) < newsize && !Fails(ts, c, d, e, newsize, k)
  {
  }

  /** The control loop is done exactly when some first triples make the whole file, which is their output; and it fails
      exactly when after some that pass one fails. */
  lemma LoopExactly(text: seq<byte>, c: Stream, d: Stream, e: Stream, newsize: nat)
    ensures var ts, o := TriplesOf(c.data), DecodeFrom(text, c, d, e, newsize, 0, 0, 0, 0, 0);
      && (forall out :: o == Done(out) <==> MakesSometime(text, ts, d, e, newsize, out))
      && (o == Corrupt <==> FailsSometime(ts, c, d, e, newsize))
  {
    hide TriplesOf, TripleAt, Added, DecodeFrom, Passes, Fails, Output, Counted;
    var ts := TriplesOf(c.data);
    var m := FirstStop(ts, d, e, newsize, 0);
    PassedSize(ts, d, e, newsize, m);
    PrefixUsed(ts, d, e, newsize, m);
    TripleThere(c.data, m);
    DecodePrefix(text, c, d, e, newsize, m);
    StopMeans(text, c, d, e, newsize, ts, m);
    var made := Output(text, ts[..m], d.data, e.data, m);
    AfterDone(made);
    forall k: nat | PassesFirst(ts, d, e, newsize, k) && (Spelled(ts, k) >= newsize || Fails(ts, c, d, e, newsize, k)) ensures k == m {
      StopsOnce(ts, c, d, e, newsize, m, k);
    }
    var o := DecodeFrom(text, c, d, e, newsize, 0, 0, 0, 0, 0);
    assert Spelled(ts, m) >= newsize ==> Makes(text, ts, d, e, newsize, m, made) && o == Done(made);
  }

  /** When decoding gives this new file. */
  lemma DoneExactly(bz: Bzip, text: seq<byte>, patch: seq<byte>, offset: nat, out: seq<byte>)
    ensures Decode(bz, text, patch, offset) == Done(out) <==>
      InOrder(patch, offset) &&
      var x, y := OfftIn(patch[offset + 8..offset + 16]), OfftIn(patch[offset + 16..offset + 24]);
      var ts := TriplesOf(bz.expand(patch[offset + 32..][..x]).data);
      MakesSometime(text, ts, bz.expand(patch[offset + 32..][x..x + y]), bz.expand(patch[offset + 32..][x + y..]),
                    OfftIn(patch[offset + 24..offset + 32]), out)
  {
    hide OfftIn, DecodeFrom, TriplesOf, MakesSometime, FailsSometime;
    if InOrder(patch, offset) {
      var x, y := OfftIn(patch[offset + 8..offset + 16]), OfftIn(patch[offset + 16..offset + 24]);
      LoopExactly(text, bz.expand(patch[offset + 32..][..x]), bz.expand(patch[offset + 32..][x..x + y]), bz.expand(patch[offset + 32..][x + y..]),
                  OfftIn(patch[offset + 24..offset + 32]));
    }
  }

  /** When decoding fails: without the magic, at a negative length in the header, or at a triple. */
  lemma CorruptExactly(bz: Bzip, text: seq<byte>, patch: seq<byte>, offset: nat)
    ensures Decode(bz, text, patch, offset) == Corrupt <==>
      || (offset + 8 <= |patch| && patch[offset..offset + 8] != MAGIC)
      || (offset + 32 <= |patch| && patch[offset..offset + 8] == MAGIC &&
          (OfftIn(patch[offset + 8..offset + 16]) < 0 || OfftIn(patch[offset + 16..offset + 24]) < 0 || OfftIn(patch[offset + 24..offset + 32]) < 0))
      || (InOrder(patch, offset) &&
          var x, y := OfftIn(patch[offset + 8..offset + 16]), OfftIn(patch[offset + 16..offset + 24]);
          var c, d, e := bz.expand(patch[offset + 32..][..x]), bz.expand(patch[offset + 32..][x..x + y]), bz.expand(patch[offset + 32..][x + y..]);
          var ts, newsize := TriplesOf(c.data), OfftIn(patch[offset + 24..offset + 32]);
          FailsSometime(ts, c, d, e, newsize))
  {
    hide OfftIn, DecodeFrom, TriplesOf, MakesSometime, FailsSometime;
    if InOrder(patch, offset) {
      var x, y := OfftIn(patch[offset + 8..offset + 16]), OfftIn(patch[offset + 16..offset + 24]);
      LoopExactly(text, bz.expand(patch[offset + 32..][..x]), bz.expand(patch[offset + 32..][x..x + y]), bz.expand(patch[offset + 32..][x + y..]),
                  OfftIn(patch[offset + 24..offset + 32]));
    }
  }

  // The layout, byte by byte, with streams that are not compressed
  const PLAIN := Bzip(x => x, x => Stream(x, false))

  lemma LayoutExample()
    ensures PatchFile(PLAIN, [Triple(1, 2, -3)], [5], [6, 7], 3) ==
      [0x42, 0x53, 0x44, 0x49, 0x46, 0x46, 0x34, 0x30] + [24, 0, 0, 0, 0, 0, 0, 0] + [1, 0, 0, 0, 0, 0, 0, 0] + [3, 0, 0, 0, 0, 0, 0, 0]
      + ([1, 0, 0, 0, 0, 0, 0, 0] + [2, 0, 0, 0, 0, 0, 0, 0] + [3, 0, 0, 0, 0, 0, 0, 0x80]) + [5] + [6, 7]
  {
    OfftSmall(24);
    OfftSmall(1);
    OfftSmall(2);
    OfftSmall(3);
    hide OfftOut;
    var ts := [Triple(1, 2, -3)];
    assert ControlBytes(ts) == TripleBytes(ts[0]) by {
      assert ts[..0] == [] && ControlBytes(ts[..0]) == [];
    }
  }
}
