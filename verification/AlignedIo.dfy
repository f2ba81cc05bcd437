/** Reading and writing a device in whole aligned blocks as if it took any bytes at any place. */
module AlignedIo {
  import opened Bytes
  import opened Slices

  const BLOCK: nat := 16384

  /** The start of the block that a place lies in. */
  function Down(at: nat): nat {
    at - at % BLOCK
  }

  lemma DownIs(at: nat)
    ensures Down(at) <= at < Down(at) + BLOCK && Down(at) % BLOCK == 0
    ensures at % BLOCK != 0 <==> Down(at) < at
    ensures Down(at) + at % BLOCK == at
  {
  }

  lemma DownFrom(offset: nat, end: nat)
    requires offset % BLOCK == 0
    ensures (offset + BLOCK) % BLOCK == 0
    ensures offset < Down(end) ==> offset + BLOCK <= Down(end)
    ensures Down(end) <= offset < end ==> offset == Down(end) && end % BLOCK != 0
  {
  }

  lemma OverlayInside(s: seq<byte>, block: nat, k: nat, data: seq<byte>, size: nat)
    requires block + size <= |s| && k + |data| <= size
    ensures Overlay(s, block, Overlay(s[block..block + size], k, data)) == Overlay(s, block + k, data)
  {
  }

  method PRead(dev: array<byte>, offset: nat) returns (buf: seq<byte>)
    ensures buf == if offset + BLOCK <= dev.Length then dev[offset..offset + BLOCK] else []
  {
    return if offset + BLOCK <= dev.Length then dev[offset..offset + BLOCK] else [];
  }

  /** The bytes of a block from offset on that a device has. */
  function Room(offset: nat, length: nat): nat {
    if offset < length then Min(BLOCK, length - offset) else 0
  }

  /** Writes a block as far as the device goes, unless the device refuses it; whether it was written whole. */
  method PWrite(dev: array<byte>, offset: nat, buf: seq<byte>, fails: nat -> bool) returns (ok: bool)
    requires |buf| == BLOCK
    modifies dev
    ensures ok == (offset + BLOCK <= dev.Length && !fails(offset))
    ensures dev[..] == if fails(offset) || offset >= dev.Length then old(dev[..])
      else Overlay(old(dev[..]), offset, buf[..Room(offset, dev.Length)])
  {
    if fails(offset) || offset >= dev.Length { return false; }
    var n := Room(offset, dev.Length);
    forall i | 0 <= i < n { dev[offset + i] := buf[i]; }
    assert dev[..offset] == old(dev[..offset]) && dev[offset..offset + n] == buf[..n];
    return n == BLOCK;
  }

  /** Where writing stops: at the first block from offset on that is not there or fails, or at the end. */
  function Stop(offset: nat, end: nat, length: nat, fails: nat -> bool): (r: nat)
    ensures r <= end || r == offset
    decreases end - offset
  {
    if offset >= end then end
    else if offset + BLOCK > length || fails(offset) then offset
    else Stop(offset + BLOCK, end, length, fails)
  }

  /** How many bytes get onto the device in blocks written whole. */
  function Written(begin: nat, end: nat, length: nat, fails: nat -> bool): nat {
    var stop := Stop(Down(begin), end, length, fails);
    if stop < begin then 0 else stop - begin
  }

  /** Does writing run into a whole block that the device has only the front of? */
  predicate RunsOver(begin: nat, end: nat, length: nat, fails: nat -> bool) {
    var stop := Stop(Down(begin), end, length, fails);
    begin <= stop && stop + BLOCK <= end && stop < length < stop + BLOCK && !fails(stop)
  }

  /** How many bytes get onto the device. */
  function Landed(begin: nat, end: nat, length: nat, fails: nat -> bool): nat {
    if RunsOver(begin, end, length, fails) then length - begin else Written(begin, end, length, fails)
  }

  /** Is writing begun in the middle of a block that fails? */
  predicate FailsAtOnce(begin: nat, length: nat, fails: nat -> bool) {
    begin % BLOCK != 0 && Down(begin) + BLOCK <= length && fails(Down(begin))
  }

  /** How many bytes are reported: those of a first block that is begun in its middle even if writing it fails. */
  function Reported(begin: nat, end: nat, length: nat, fails: nat -> bool): nat {
    if begin < end && FailsAtOnce(begin, length, fails) then Min(end, Down(begin) + BLOCK) - begin
    else Written(begin, end, length, fails)
  }

  /** The report is right exactly when the write neither begins in the middle of a block that fails nor runs
      over the end of the device. */
  lemma ReportedRight(begin: nat, end: nat, length: nat, fails: nat -> bool)
    requires begin < end
    ensures Reported(begin, end, length, fails) == Landed(begin, end, length, fails)
      <==> !FailsAtOnce(begin, length, fails) && !RunsOver(begin, end, length, fails)
  {
    if FailsAtOnce(begin, length, fails) { assert Stop(Down(begin), end, length, fails) == Down(begin); }
  }

  /** Bytes that did not get onto the device are reported. */
  lemma OverReported()
    ensures Reported(8192, 8193, 16384, o => true) == 1 && Landed(8192, 8193, 16384, o => true) == 0
  {
    assert Stop(0, 8193, 16384, o => true) == 0;
  }

  /** Bytes that did are not. */
  lemma UnderReported()
    ensures Reported(0, 16384, 8192, o => false) == 0 && Landed(0, 16384, 8192, o => false) == 8192
  {
    assert Stop(0, 16384, 8192, o => false) == 0;
  }

  lemma ReportedWritten(begin: nat, end: nat, length: nat, fails: nat -> bool)
    requires !FailsAtOnce(begin, length, fails)
    ensures Reported(begin, end, length, fails) == Written(begin, end, length, fails)
  {
  }

  lemma ReportedAtOnce(begin: nat, end: nat, length: nat, fails: nat -> bool)
    requires begin < end && FailsAtOnce(begin, length, fails)
    ensures Reported(begin, end, length, fails) == Min(end, Down(begin) + BLOCK) - begin
  {
  }

  /** So much data laid over a device, which need not reach there when it is none. */
  function Laid(s: seq<byte>, at: nat, data: seq<byte>): seq<byte>
    requires data == [] || at + |data| <= |s|
  {
    if data == [] then s else Overlay(s, at, data)
  }

  /** The first count bytes of the data are on the device, and writing goes on as it would from the next block. */
  ghost predicate Going(before: seq<byte>, now: seq<byte>, data: seq<byte>, begin: nat, count: nat,
                        offset: nat, end: nat, fails: nat -> bool) {
    && (count == 0 || begin + count <= |before|) && count <= |data|
    && now == Laid(before, begin, data[..count])
    && Stop(Down(begin), end, |before|, fails) == Stop(offset, end, |before|, fails)
  }

  lemma GoingStep(before: seq<byte>, now: seq<byte>, data: seq<byte>, begin: nat, count: nat, offset: nat,
                  end: nat, fails: nat -> bool, more: nat)
    requires Going(before, now, data, begin, count, offset, end, fails)
    requires offset + BLOCK <= |before| && !fails(offset) && offset < end
    requires begin + count + more <= |before| && 0 < more && count + more <= |data|
    ensures begin + count + more <= |now|
    ensures Going(before, Overlay(now, begin + count, data[count..count + more]), data, begin, count + more, offset + BLOCK, end, fails)
  {
    if count > 0 {
      OverlayMore(before, begin, data[..count], data[count..count + more]);
      assert data[..count] + data[count..count + more] == data[..count + more];
    }
  }

  lemma GoingStart(before: seq<byte>, data: seq<byte>, begin: nat, end: nat, fails: nat -> bool)
    ensures Going(before, before, data, begin, 0, Down(begin), end, fails)
  {
  }

  /** The block at offset is not there or fails, or the end is reached. */
  lemma GoingEnd(before: seq<byte>, now: seq<byte>, data: seq<byte>, begin: nat, count: nat, offset: nat,
                 end: nat, fails: nat -> bool)
    requires Going(before, now, data, begin, count, offset, end, fails)
    requires begin < end && (count == 0 || begin + count == Min(end, offset)) && (count == 0 ==> offset <= begin)
    requires offset >= end || offset + BLOCK > |before| || fails(offset)
    ensures Written(begin, end, |before|, fails) == count <= |data| && (count == 0 || begin + count <= |before|)
    ensures now == Laid(before, begin, data[..count])
    ensures offset < begin || offset + BLOCK > end ==> Landed(begin, end, |before|, fails) == count
  {
  }

  lemma StoppedAt(begin: nat, end: nat, length: nat, fails: nat -> bool, offset: nat)
    requires Stop(Down(begin), end, length, fails) == Stop(offset, end, length, fails)
    requires begin <= offset && offset + BLOCK <= end && (offset + BLOCK > length || fails(offset))
    ensures Written(begin, end, length, fails) == offset - begin
    ensures Landed(begin, end, length, fails) == offset - begin + if fails(offset) then 0 else Room(offset, length)
    ensures Room(offset, length) == if offset >= length then 0 else Min(BLOCK, length - offset)
  {
  }

  /** A whole block at offset fails, or the device has not all of it. */
  lemma LandedEnd(before: seq<byte>, now: seq<byte>, data: seq<byte>, begin: nat, count: nat, offset: nat,
                  end: nat, fails: nat -> bool)
    requires Going(before, now, data, begin, count, offset, end, fails)
    requires begin < end && offset == begin + count && offset + BLOCK <= end == begin + |data|
    requires offset + BLOCK > |before| || fails(offset)
    ensures Written(begin, end, |before|, fails) == count && |now| == |before|
    ensures var l, n := Landed(begin, end, |before|, fails), Room(offset, |before|);
      && l <= |data| && (l == 0 || begin + l <= |before|)
      && Laid(before, begin, data[..l]) ==
        if fails(offset) || offset >= |before| then now else Overlay(now, offset, data[count..count + BLOCK][..n])
  {
    hide Stop, Landed, Written, Room, Overlay;
    StoppedAt(begin, end, |before|, fails, offset);
    if !fails(offset) && offset < |before| {
      var n := Room(offset, |before|);
      assert data[count..count + BLOCK][..n] == data[count..count + n];
      assert data[..count] + data[count..count + n] == data[..count + n];
      if count > 0 { OverlayMore(before, begin, data[..count], data[count..count + n]); }
    }
  }

  /** Puts part of the data into the middle of a block. */
  method PatchBlock(dev: array<byte>, offset: nat, k: nat, data: seq<byte>,
                    fails: nat -> bool) returns (there: bool, ok: bool)
    requires k + |data| <= BLOCK
    modifies dev
    ensures there == (offset + BLOCK <= dev.Length) && ok == (there && !fails(offset))
    ensures dev[..] == if ok then Overlay(old(dev[..]), offset + k, data) else old(dev[..])
  {
    var buf := PRead(dev, offset);
    if |buf| < BLOCK { return false, false; }
    OverlayInside(dev[..], offset, k, data, BLOCK);
    assert buf == dev[..][offset..offset + BLOCK];
    WholeRoom(offset, dev.Length, Overlay(buf, k, data));
    ok := PWrite(dev, offset, Overlay(buf, k, data), fails);
    return true, ok;
  }

  lemma FailsMeans(begin: nat, length: nat, fails: nat -> bool)
    ensures FailsAtOnce(begin, length, fails) <==> begin % BLOCK != 0 && Down(begin) + BLOCK <= length && fails(Down(begin))
  {
  }

  lemma WholeRoom(offset: nat, length: nat, buf: seq<byte>)
    requires offset + BLOCK <= length && |buf| == BLOCK
    ensures Room(offset, length) == BLOCK && buf[..Room(offset, length)] == buf
  {
  }

  /** Writes whole blocks from the data; whether all of them went through. */
  method WriteWhole(dev: array<byte>, data: seq<byte>, begin: nat, done: nat, from: nat, fails: nat -> bool,
                    ghost before: seq<byte>)
    returns (count: nat, offset: nat, whole: bool)
    requires |data| > 0 && from % BLOCK == 0 && (done == 0 ==> from == begin)
    requires begin + done == Min(begin + |data|, from)
    requires Going(before, dev[..], data, begin, done, from, begin + |data|, fails) && |before| == dev.Length
    modifies dev
    ensures whole ==>
      && offset % BLOCK == 0 && (count == 0 ==> offset == begin) && begin + count == Min(begin + |data|, offset)
      && offset >= Down(begin + |data|) && Going(before, dev[..], data, begin, count, offset, begin + |data|, fails)
    ensures !whole ==>
      var l := Landed(begin, begin + |data|, |before|, fails);
      && Written(begin, begin + |data|, |before|, fails) == count
      && l <= |data| && (l == 0 || begin + l <= |before|) && dev[..] == Laid(before, begin, data[..l])
  {
    hide Going, Overlay, Laid, Stop, Written, Landed, Down, Room;
    var end := begin + |data|;
    DownIs(end);
    count, offset := done, from;
    while offset < Down(end)
      invariant offset % BLOCK == 0 && (count == 0 ==> offset == begin) && begin + count == Min(end, offset)
      invariant Going(before, dev[..], data, begin, count, offset, end, fails)
    {
      ghost var now := dev[..];
      DownFrom(offset, end);
      var ok := PWrite(dev, offset, data[count..count + BLOCK], fails);
      if !ok {
        LandedEnd(before, now, data, begin, count, offset, end, fails);
        return count, offset, false;
      }
      WholeRoom(offset, dev.Length, data[count..count + BLOCK]);
      GoingStep(before, now, data, begin, count, offset, end, fails, BLOCK);
      count := count + BLOCK;
      offset := offset + BLOCK;
    }
    return count, offset, true;
  }

  /** The bytes written, or said to be written. */
  method WriteBytes(dev: array<byte>, data: seq<byte>, begin: nat, fails: nat -> bool) returns (count: nat)
    requires |data| > 0
    modifies dev
    ensures var w := Landed(begin, begin + |data|, dev.Length, fails);
      w <= |data| && (w == 0 || begin + w <= dev.Length) && dev[..] == Laid(old(dev[..]), begin, data[..w])
    ensures count == Reported(begin, begin + |data|, dev.Length, fails)
  {
    hide Going, Overlay, Laid, Stop, Written, Landed, Down, Reported, FailsAtOnce, Room;
    var end := begin + |data|;
    DownIs(begin);
    DownIs(end);
    FailsMeans(begin, dev.Length, fails);
    if !FailsAtOnce(begin, dev.Length, fails) { ReportedWritten(begin, end, dev.Length, fails); }
    var offset := Down(begin);
    ghost var before := dev[..];
    GoingStart(before, data, begin, end, fails);
    count := 0;
    if begin % BLOCK != 0 {
      var more := Min(end, offset + BLOCK) - begin;
      var there, ok := PatchBlock(dev, offset, begin % BLOCK, data[..more], fails);
      if !ok {
        GoingEnd(before, before, data, begin, 0, offset, end, fails);
        if there { ReportedAtOnce(begin, end, dev.Length, fails); }
        return if there then more else 0;
      }
      GoingStep(before, before, data, begin, 0, offset, end, fails, more);
      count := more;
      DownFrom(offset, end);
      offset := offset + BLOCK;
    }
    var whole;
    count, offset, whole := WriteWhole(dev, data, begin, count, offset, fails, before);
    if !whole { return; }
    DownFrom(offset, end);
    if count < |data| && end % BLOCK != 0 {
      offset := Down(end);
      ghost var now := dev[..];
      var there, ok := PatchBlock(dev, offset, 0, data[count..], fails);
      if !ok {
        GoingEnd(before, now, data, begin, count, offset, end, fails);
        return;
      }
      GoingStep(before, now, data, begin, count, offset, end, fails, end - offset);
      assert data[count..] == data[count..count + (end - offset)];
      count := count + (end - offset);
      offset := offset + BLOCK;
    }
    GoingEnd(before, dev[..], data, begin, count, offset, end, fails);
  }

  function Product(a: nat, b: nat): nat {
    a * b
  }

  lemma ProductZero(a: nat, b: nat)
    ensures Product(a, b) == 0 <==> a == 0 || b == 0
    ensures Product(0, a) == 0 == Items(0, a)
  {
  }

  /** The whole items among so many bytes. */
  function Items(bytes: nat, size: nat): nat {
    if size == 0 then 0 else bytes / size
  }

  /** Writes items of some size from where the stream stands, and says how many and where the stream stands then. */
  method FWrite(dev: array<byte>, data: seq<byte>, begin: nat, size: nat, nmemb: nat, fails: nat -> bool)
    returns (count: nat, pos: nat)
    requires |data| == Product(size, nmemb)
    modifies dev
    ensures |data| == 0 ==> count == 0 && dev[..] == old(dev[..])
    ensures |data| > 0 ==>
      var w := Landed(begin, begin + |data|, dev.Length, fails);
      && w <= |data| && (w == 0 || begin + w <= dev.Length) && dev[..] == Laid(old(dev[..]), begin, data[..w])
      && count == Items(Reported(begin, begin + |data|, dev.Length, fails), size)
    ensures pos == begin + Product(count, size)
  {
    hide *;
    ProductZero(size, nmemb);
    if size == 0 || nmemb == 0 { return 0, begin; }
    var bytes := WriteBytes(dev, data, begin, fails);
    count := Items(bytes, size);
    pos := begin + Product(count, size);
  }

  /** How many bytes of a range the whole blocks of the device have. */
  function Within(begin: nat, end: nat, length: nat): nat
    requires begin <= end
  {
    if begin < Down(length) then Min(end, Down(length)) - begin else 0
  }

  /** Without failures just the bytes of the range in whole blocks of the device are written. */
  lemma {:induction false} NoFailures(offset: nat, end: nat, length: nat, fails: nat -> bool)
    requires offset % BLOCK == 0 && offset < end
    requires forall o: nat :: o < length ==> !fails(o)
    ensures Stop(offset, end, length, fails) == if offset < Down(length) then Min(end, Down(length)) else offset
    decreases end - offset
  {
    Outside(offset, length);
    if offset + BLOCK <= length && offset + BLOCK < end { NoFailures(offset + BLOCK, end, length, fails); }
  }

  lemma AllWritten(begin: nat, end: nat, length: nat, fails: nat -> bool)
    requires begin < end && forall o: nat :: o < length ==> !fails(o)
    ensures Reported(begin, end, length, fails) == Within(begin, end, length)
    ensures length % BLOCK == 0 || end <= Down(length) ==> Landed(begin, end, length, fails) == Within(begin, end, length)
  {
    hide Stop;
    DownIs(begin);
    DownIs(length);
    NoFailures(Down(begin), end, length, fails);
  }

  /** So much of the range has been copied out. */
  ghost predicate Copied(dev: seq<byte>, into: seq<byte>, begin: nat, count: nat) {
    count <= |into| && (count == 0 || (begin + count <= |dev| && into[..count] == dev[begin..begin + count]))
  }

  lemma CopiedStep(dev: seq<byte>, into: seq<byte>, into': seq<byte>, begin: nat, count: nat, more: nat)
    requires Copied(dev, into, begin, count) && begin + count + more <= |dev| && count + more <= |into'|
    requires into'[..count] == into[..count] && into'[count..count + more] == dev[begin + count..begin + count + more]
    ensures Copied(dev, into', begin, count + more)
  {
    assert into'[..count + more] == into'[..count] + into'[count..count + more];
  }

  /** Copies the next part of the range, from one block, to the caller. */
  method CopyOut(dev: array<byte>, offset: nat, begin: nat, into: array<byte>, count: nat, more: nat) returns (ok: bool)
    requires dev != into && offset <= begin + count && begin + count + more <= offset + BLOCK && count + more <= into.Length
    requires Copied(dev[..], into[..], begin, count)
    modifies into
    ensures ok == (offset + BLOCK <= dev.Length)
    ensures Copied(dev[..], into[..], begin, if ok then count + more else count)
  {
    var k := begin + count - offset;
    var buf := PRead(dev, offset);
    if |buf| < BLOCK { return false; }
    ghost var was := into[..];
    forall i | 0 <= i < more { into[count + i] := buf[k + i]; }
    assert into[..][count..count + more] == buf[k..k + more];
    SliceSlice(dev[..], offset, offset + BLOCK, k, k + more);
    assert buf == dev[..][offset..offset + BLOCK];
    CopiedStep(dev[..], was, into[..], begin, count, more);
    return true;
  }

  method ReadBytes(dev: array<byte>, into: array<byte>, total: nat, begin: nat) returns (count: nat)
    requires dev != into && 0 < total <= into.Length
    modifies into
    ensures count == Within(begin, begin + total, dev.Length) && Copied(dev[..], into[..], begin, count)
  {
    hide Copied, Down;
    var end := begin + total;
    DownIs(begin);
    DownIs(end);
    DownIs(dev.Length);
    var offset := Down(begin);
    NothingCopied(dev[..], into[..], begin);
    count := 0;
    if begin % BLOCK != 0 {
      var more := Min(end, offset + BLOCK) - begin;
      Outside(offset, dev.Length);
      var ok := CopyOut(dev, offset, begin, into, 0, more);
      if !ok { return; }
      count := more;
      DownFrom(offset, end);
      offset := offset + BLOCK;
    }
    while offset < Down(end)
      invariant offset % BLOCK == 0 && (count == 0 ==> offset == begin) && begin + count == Min(end, offset)
      invariant count > 0 ==> begin + count <= Down(dev.Length)
      invariant Copied(dev[..], into[..], begin, count)
    {
      DownFrom(offset, end);
      Outside(offset, dev.Length);
      var ok := CopyOut(dev, offset, begin, into, count, BLOCK);
      if !ok { return; }
      count := count + BLOCK;
      offset := offset + BLOCK;
    }
    DownFrom(offset, end);
    if count < total && end % BLOCK != 0 {
      offset := Down(end);
      Outside(offset, dev.Length);
      var ok := CopyOut(dev, offset, begin, into, count, end - offset);
      if !ok { return; }
      count := count + (end - offset);
    }
  }

  lemma NothingCopied(dev: seq<byte>, into: seq<byte>, begin: nat)
    ensures Copied(dev, into, begin, 0)
  {
  }

  lemma Outside(offset: nat, length: nat)
    requires offset % BLOCK == 0
    ensures offset + BLOCK > length <==> Down(length) <= offset
    ensures offset + BLOCK <= length <==> offset + BLOCK <= Down(length)
  {
  }

  lemma LaidWhole(image: seq<byte>, begin: nat, data: seq<byte>)
    requires begin + |data| <= |image|
    ensures Laid(image, begin, data) == image[..begin] + data + image[begin + |data|..]
  {
    if data == [] { assert image == image[..begin] + image[begin..]; }
  }

  lemma CopiedBack(image: seq<byte>, begin: nat, data: seq<byte>, into: seq<byte>)
    requires begin + |data| <= |image| == |Laid(image, begin, data)| && |into| == |data|
    requires Copied(Laid(image, begin, data), into, begin, |data|)
    ensures into == data
  {
    if data != [] {
      LaidWhole(image, begin, data);
      assert (image[..begin] + data + image[begin + |data|..])[begin..begin + |data|] == data;
      assert into[..|data|] == into;
    }
  }

  /** What was written is what is then read, and the rest of the device is as it was. */
  method WriteThenRead(image: seq<byte>, data: seq<byte>, begin: nat) returns (after: seq<byte>, got: seq<byte>)
    requires begin + |data| <= Down(|image|)
    ensures got == data
    ensures after == image[..begin] + data + image[begin + |data|..]
  {
    hide Landed, Reported, Laid, Copied, Product, Items;
    var dev := new byte[|image|](i requires 0 <= i < |image| => image[i]);
    assert dev[..] == image;
    ProductOne(|data|);
    DownIs(|image|);
    LaidNone(image, begin);
    if |data| > 0 { AllWritten(begin, begin + |data|, |image|, o => false); }
    assert data[..|data|] == data;
    var written, _ := FWrite(dev, data, begin, 1, |data|, o => false);
    after := dev[..];
    assert after == Laid(image, begin, data);
    LaidWhole(image, begin, data);
    var into := new byte[|data|](_ => 0);
    var read, _ := FRead(dev, into, begin, 1, |data|);
    got := into[..];
    CopiedBack(image, begin, data, got);
  }

  lemma ProductOne(n: nat)
    ensures Product(1, n) == n
  {
  }

  lemma LaidNone(image: seq<byte>, begin: nat)
    ensures Laid(image, begin, []) == image
  {
  }

  /** Reads items of some size from where the stream stands, and says how many and where the stream stands then. */
  method FRead(dev: array<byte>, into: array<byte>, begin: nat, size: nat, nmemb: nat) returns (count: nat, pos: nat)
    requires dev != into && Product(size, nmemb) <= into.Length
    modifies into
    ensures var n := Within(begin, begin + Product(size, nmemb), dev.Length);
      n <= into.Length && Copied(dev[..], into[..], begin, n) && count == Items(n, size) && pos == begin + Product(count, size)
  {
    hide Copied, Product, Items;
    ProductZero(size, nmemb);
    if size == 0 || nmemb == 0 {
      NothingCopied(dev[..], into[..], begin);
      return 0, begin;
    }
    var bytes := ReadBytes(dev, into, Product(size, nmemb), begin);
    count := Items(bytes, size);
    pos := begin + Product(count, size);
  }
}
