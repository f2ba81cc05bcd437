/** Writing to and reading from a flash partition, around its bad blocks. */
module Mtd {
  import opened Bytes
  import opened FlashBlocks
  import Slices

  /** A partition: what is on the chip, and the driver's count of uncorrectable read errors. */
  class Partition {
    const size: nat
    const wear: Wear
    var blocks: seq<seq<byte>>
    var failed: nat

    ghost predicate Valid()
      reads this
    {
      size > 0 && Blocked(blocks, size)
    }

    constructor (size: nat, wear: Wear, blocks: seq<seq<byte>>)
      requires size > 0 && Blocked(blocks, size)
      ensures Valid() && this.size == size && this.wear == wear && this.blocks == blocks
    {
      this.size := size;
      this.wear := wear;
      this.blocks := blocks;
      failed := 0;
    }
  }

  /** The blocks from a up to b that were passed over. */
  function Skipped(w: Wear, a: nat, b: nat): seq<nat>
    decreases b
  {
    if a >= b then [] else Skipped(w, a, b - 1) + if Takes(w, b - 1) then [] else [b - 1]
  }

  /** Does trying to write this block move the device's position behind it? */
  predicate Moves(w: Wear, b: nat) {
    w.tries(b, 0) != EraseFails || w.tries(b, 1) != EraseFails
  }

  /** Where the position is left when the blocks from p on have been tried in vain. */
  function Head(w: Wear, p: nat, n: nat, pos: nat): nat
    decreases n - p
  {
    if p >= n then pos else Head(w, p + 1, n, if w.mark(p) != Bad && Moves(w, p) then p + 1 else pos)
  }

  lemma HeadStep(w: Wear, p: nat, n: nat, pos: nat)
    ensures Head(w, p, n, pos) ==
      if p >= n then pos else Head(w, p + 1, n, if w.mark(p) != Bad && Moves(w, p) then p + 1 else pos)
  {
  }

  /** It is behind the last block that is not marked bad and could be erased once in two attempts, so that it was moved to
      and read from; or where it was. */
  lemma {:induction false} HeadExactly(w: Wear, p: nat, n: nat, pos: nat)
    ensures var h := Head(w, p, n, pos);
      || (h == pos && forall b :: p <= b < n ==> w.mark(b) == Bad || (w.tries(b, 0) == EraseFails && w.tries(b, 1) == EraseFails))
      || (p < h <= n && w.mark(h - 1) != Bad && (w.tries(h - 1, 0) != EraseFails || w.tries(h - 1, 1) != EraseFails)
          && forall b :: h <= b < n ==> w.mark(b) == Bad || (w.tries(b, 0) == EraseFails && w.tries(b, 1) == EraseFails))
    decreases n - p
  {
    if p < n { HeadExactly(w, p + 1, n, if w.mark(p) != Bad && Moves(w, p) then p + 1 else pos); }
  }

  predicate Ascending(s: seq<nat>) {
    forall i, j :: 0 <= i < j < |s| ==> s[i] < s[j]
  }

  /** The blocks noted are those passed over, in order; so they stay in order as more are noted. */
  lemma {:induction false} SkippedExactly(w: Wear, a: nat, b: nat)
    ensures forall x :: x in Skipped(w, a, b) <==> a <= x < b && !Takes(w, x)
    ensures Ascending(Skipped(w, a, b))
    decreases b
  {
    if a < b {
      SkippedExactly(w, a, b - 1);
      var s := Skipped(w, a, b - 1);
      assert forall i :: 0 <= i < |s| ==> s[i] in s;
    }
  }

  lemma {:induction false} SkippedOn(w: Wear, a: nat, b: nat, c: nat)
    requires a <= b <= c
    ensures Skipped(w, a, c) == Skipped(w, a, b) + Skipped(w, b, c)
    decreases c
  {
    if b < c { SkippedOn(w, a, b, c - 1); }
  }

  function Erased(size: nat): seq<byte> {
    seq(size, i => 0xff)
  }

  function Garbled(data: seq<byte>, at: nat): seq<byte>
    requires |data| > 0
  {
    data[at % |data| := (data[at % |data|] as int + 1) % 256]
  }

  /** The zeros that fill up a block that was begun. */
  function Padding(stored: nat, size: nat): seq<byte> {
    if 0 < stored <= size then seq(size - stored, i => 0) else []
  }

  /** The blocks that are filled are as they were. */
  ghost predicate Kept(w: Wear, before: seq<seq<byte>>, after: seq<seq<byte>>) {
    |after| == |before| && forall b :: 0 <= b < |before| && Takes(w, b) ==> after[b] == before[b]
  }

  lemma KeptStep(w: Wear, before: seq<seq<byte>>, after: seq<seq<byte>>, p: nat, block: seq<byte>)
    requires Kept(w, before, after) && p < |before| && !Takes(w, p)
    ensures Kept(w, before, after[p := block])
  {
  }

  /** Of the blocks from p on, those that would be filled are as they were. */
  ghost predicate Ahead(w: Wear, before: seq<seq<byte>>, after: seq<seq<byte>>, p: nat) {
    |after| == |before| && forall b :: p <= b < |before| && Takes(w, b) ==> after[b] == before[b]
  }

  lemma AheadStart(w: Wear, blocks: seq<seq<byte>>, p: nat)
    ensures Ahead(w, blocks, blocks, p)
  {
  }

  lemma AheadOn(w: Wear, a: seq<seq<byte>>, b: seq<seq<byte>>, c: seq<seq<byte>>, p: nat, q: nat)
    requires Ahead(w, a, b, p) && Ahead(w, b, c, q) && p <= q
    ensures Ahead(w, a, c, q)
  {
  }

  lemma AheadOfWrite(w: Wear, before: seq<seq<byte>>, after: seq<seq<byte>>, q: nat, data: seq<byte>)
    requires q < |before| && Kept(w, before[q := data], after)
    ensures Ahead(w, before, after, q + 1)
  {
  }

  /** The blocks from a up to p that are not bad and can be erased are erased, and no others changed. */
  ghost predicate Erasing(w: Wear, before: seq<seq<byte>>, now: seq<seq<byte>>, a: nat, p: nat, size: nat) {
    && |now| == |before|
    && forall b :: 0 <= b < |before| ==>
        now[b] == if a <= b < p && w.mark(b) != Bad && w.erases(b) then Erased(size) else before[b]
  }

  lemma ErasingStart(w: Wear, blocks: seq<seq<byte>>, a: nat, size: nat)
    ensures Erasing(w, blocks, blocks, a, a, size)
  {
  }

  lemma ErasingStep(w: Wear, before: seq<seq<byte>>, now: seq<seq<byte>>, a: nat, p: nat, size: nat)
    requires Erasing(w, before, now, a, p, size) && a <= p < |before|
    ensures |now| == |before|
    ensures Erasing(w, before, if w.mark(p) != Bad && w.erases(p) then now[p := Erased(size)] else now, a, p + 1, size)
  {
  }

  lemma ErasingEnd(w: Wear, first: seq<seq<byte>>, before: seq<seq<byte>>, now: seq<seq<byte>>, a: nat, p: nat, size: nat)
    requires Ahead(w, first, before, a) && Erasing(w, before, now, a, p, size) && a <= p <= |before|
    ensures |now| == |first| && Ahead(w, first, now, p)
    ensures forall b :: a <= b < p && w.mark(b) != Bad && w.erases(b) ==> now[b] == Erased(size)
    ensures forall b :: a <= b < p && Takes(w, b) && !w.erases(b) ==> now[b] == first[b]
  {
  }

  lemma KeptRefl(w: Wear, blocks: seq<seq<byte>>)
    ensures Kept(w, blocks, blocks)
  {
  }

  lemma KeptWrite(w: Wear, before: seq<seq<byte>>, after: seq<seq<byte>>, p: nat, block: seq<byte>)
    requires Kept(w, before, after) && p < |before|
    ensures Kept(w, before[p := block], after[p := block])
  {
  }

  lemma BadNotTaken(w: Wear, p: nat)
    requires w.mark(p) == Bad
    ensures !Takes(w, p)
  {
  }

  lemma ErasedBlocked(blocks: seq<seq<byte>>, size: nat, p: nat)
    requires Blocked(blocks, size) && p < |blocks|
    ensures Blocked(blocks[p := Erased(size)], size)
  {
  }

  lemma BlockedStep(blocks: seq<seq<byte>>, size: nat, p: nat, block: seq<byte>)
    requires Blocked(blocks, size) && p < |blocks| && |block| == size
    ensures Blocked(blocks[p := block], size)
  {
  }

  /** A block was written behind what was written before. */
  lemma Wrote(w: Wear, before: seq<seq<byte>>, after: seq<seq<byte>>, start: nat, p: nat, q: nat, data: seq<byte>)
    requires start <= p <= q < |before| && NextWrite(w, p, |before|) == Some(q) && Kept(w, before[q := data], after)
    ensures Stream(w, after, start, q + 1) == Stream(w, before, start, p) + data
    ensures Room(w, p, |before|) == 1 + Room(w, q + 1, |before|)
  {
    StreamNext(w, before[q := data], p, q);
    StreamJoin(w, before[q := data], start, p, q + 1);
    StreamSame(w, before, before[q := data], start, p);
    StreamSame(w, before[q := data], after, start, q + 1);
  }

  lemma NoRoom(w: Wear, blocks: seq<seq<byte>>, p: nat)
    requires p <= |blocks| && NextWrite(w, p, |blocks|) == None
    ensures Room(w, p, |blocks|) == 0
  {
    StreamNone(w, blocks, p, |blocks|);
  }

  /** With so much room before and left after, so many bytes have gone into blocks and a rest. */
  ghost predicate Spent(size: nat, before: nat, after: nat, total: nat, rest: nat) {
    after <= before && total == (before - after) * size + rest
  }

  lemma SpentNothing(size: nat, room: nat, rest: nat)
    ensures Spent(size, room, room, rest, rest)
  {
  }

  lemma SpentOne(size: nat, room: nat)
    requires room > 0
    ensures Spent(size, room, room - 1, size, 0)
  {
  }

  lemma SpentMore(size: nat, a: nat, b: nat, c: nat, total: nat, rest: nat, more: nat, rest': nat)
    requires Spent(size, a, b, total, rest) && Spent(size, b, c, rest + more, rest')
    ensures Spent(size, a, c, total + more, rest')
  {
    assert (a - c) * size == (a - b) * size + (b - c) * size;
  }

  /** Does so much fit into the buffer and the blocks that are left? */
  predicate Fits(total: nat, room: nat, size: nat) {
    total < (room + 1) * size
  }

  lemma SpentFits(size: nat, before: nat, after: nat, total: nat, rest: nat)
    requires Spent(size, before, after, total, rest)
    ensures rest < size ==> Fits(total, before, size)
  {
    assert (before + 1) * size == (before - after) * size + after * size + size;
  }

  /** No room is left for a block that is full. */
  lemma SpentAll(size: nat, before: nat, mid: nat, total: nat, rest: nat, more: nat, rest': nat, all: nat)
    requires Spent(size, before, mid, total, rest) && Spent(size, mid, 0, rest + more, rest')
    requires total + more - rest' + size <= all
    ensures !Fits(all, before, size)
  {
    SpentMore(size, before, mid, 0, total, rest, more, rest');
    assert (before + 1) * size == before * size + size;
  }

  lemma Appended(was: seq<byte>, data: seq<byte>, a: nat, b: nat)
    requires a <= b <= |data|
    ensures (was + data[..a]) + data[a..b] == was + data[..b]
  {
  }

  class Writer {
    const partition: Partition
    const buffer: array<byte>
    var stored: nat
    var pos: nat
    var badBlocks: seq<nat>

    ghost predicate Valid()
      reads this, partition, buffer
    {
      && partition.Valid() && buffer.Length == partition.size && stored <= partition.size
      && pos <= |partition.blocks|
    }

    /** What was written from block start on, and what still waits in the buffer. */
    ghost function Contents(start: nat): seq<byte>
      requires Valid()
      reads this, partition, buffer
    {
      Stream(partition.wear, partition.blocks, start, pos) + buffer[..stored]
    }

    constructor (partition: Partition)
      requires partition.Valid()
      ensures Valid() && this.partition == partition && fresh(buffer)
      ensures pos == 0 && stored == 0 && badBlocks == []
    {
      this.partition := partition;
      buffer := new byte[partition.size](_ => 0);
      stored := 0;
      pos := 0;
      badBlocks := [];
    }

    /** Two attempts to erase, write and verify block p. */
    method TryBlock(p: nat, data: seq<byte>) returns (ok: bool)
      requires Valid() && |data| == partition.size && p < |partition.blocks| && partition.wear.mark(p) != Bad
      modifies `pos, partition`blocks
      ensures Valid() && ok == Takes(partition.wear, p)
      ensures |partition.blocks| == |old(partition.blocks)|
      ensures partition.blocks == old(partition.blocks)[p := partition.blocks[p]]
      ensures if ok then partition.blocks[p] == data
        else partition.wear.erases(p) ==> partition.blocks[p] == Erased(partition.size)
      ensures pos == if ok || Moves(partition.wear, p) then p + 1 else old(pos)
    {
      ghost var before := partition.blocks;
      var retry := 0;
      while retry < 2
        invariant 0 <= retry <= 2 && |partition.blocks| == |before|
        invariant pos == if exists t :: 0 <= t < retry && partition.wear.tries(p, t) != EraseFails then p + 1 else old(pos)
        invariant partition.blocks == before[p := partition.blocks[p]] && |partition.blocks[p]| == |data|
        invariant forall t :: 0 <= t < retry ==> partition.wear.tries(p, t) != Works
      {
        var how := partition.wear.tries(p, retry);
        retry := retry + 1;
        if how == EraseFails { continue; }
        partition.blocks := partition.blocks[p := if how.Garbles? then Garbled(data, how.at) else data];
        pos := p + 1;
        if how == RereadFails { continue; }
        if partition.blocks[p] != data { continue; }
        BlockedStep(before, partition.size, p, data);
        return true;
      }
      if partition.wear.erases(p) { partition.blocks := partition.blocks[p := Erased(partition.size)]; }
      BlockedStep(before, partition.size, p, partition.blocks[p]);
      return false;
    }

    /** Writes a block where it can, passing over and noting the blocks where it cannot. */
    method WriteBlock(data: seq<byte>) returns (failed: bool)
      requires Valid() && |data| == partition.size
      modifies `pos, `badBlocks, partition`blocks
      ensures Valid() && pos >= old(pos)
      ensures var w, p := partition.wear, old(pos);
        var q := NextWrite(w, p, |old(partition.blocks)|);
        if q.None? then
          && failed && pos == Head(w, p, |partition.blocks|, p) && Kept(w, old(partition.blocks), partition.blocks)
          && badBlocks == old(badBlocks) + Skipped(w, p, |partition.blocks|)
        else
          && !failed && pos == q.value + 1 && Kept(w, old(partition.blocks)[q.value := data], partition.blocks)
          && badBlocks == old(badBlocks) + Skipped(w, p, q.value)
    {
      hide Takes, Blocked, Erased, Kept, Moves, Head;
      var p := pos;
      ghost var w, n, before := partition.wear, |partition.blocks|, partition.blocks;
      KeptRefl(w, before);
      while p < |partition.blocks|
        invariant Valid() && old(pos) <= p && old(pos) <= pos <= p <= n == |partition.blocks|
        invariant Kept(w, before, partition.blocks)
        invariant badBlocks == old(badBlocks) + Skipped(w, old(pos), p)
        invariant NextWrite(w, old(pos), n) == NextWrite(w, p, n) && Head(w, old(pos), n, old(pos)) == Head(w, p, n, pos)
      {
        ghost var blocks := partition.blocks;
        HeadStep(w, p, n, pos);
        if partition.wear.mark(p) != Bad {
          var written := TryBlock(p, data);
          if written {
            KeptWrite(w, before, blocks, p, data);
            return false;
          }
          KeptStep(w, before, blocks, p, partition.blocks[p]);
        } else {
          BadNotTaken(w, p);
        }
        badBlocks := badBlocks + [p];
        p := p + 1;
      }
      HeadStep(w, p, n, pos);
      return true;
    }

    /** The first block from p on that was not passed over. */
    method FindWriteStart(p: nat) returns (r: nat)
      requires Ascending(badBlocks)
      ensures r >= p && r !in badBlocks && forall b :: p <= b < r ==> b in badBlocks
    {
      r := p;
      for i := 0 to |badBlocks|
        invariant p <= r && (forall b :: p <= b < r ==> b in badBlocks)
        invariant forall k :: 0 <= k < i ==> badBlocks[k] < r || badBlocks[k] < p
      {
        if badBlocks[i] == r {
          r := r + 1;
        } else if badBlocks[i] > r {
          return;
        }
      }
    }

    /** WriteBlock as what it adds to what was written from block start on. */
    method PutBlock(data: seq<byte>, ghost start: nat) returns (failed: bool)
      requires Valid() && |data| == partition.size && start <= pos
      modifies `pos, `badBlocks, partition`blocks
      ensures Valid() && start <= pos && |partition.blocks| == |old(partition.blocks)|
      ensures var w, n := partition.wear, |partition.blocks|;
        if failed then Room(w, old(pos), n) == 0
        else
          && Room(w, old(pos), n) == 1 + Room(w, pos, n)
          && Stream(w, partition.blocks, start, pos) == old(Stream(w, partition.blocks, start, pos)) + data
          && old(pos) <= pos && Ahead(w, old(partition.blocks), partition.blocks, pos)
    {
      hide NextWrite, Stream, Room, Blocked, Ahead;
      ghost var w, before, p := partition.wear, partition.blocks, pos;
      failed := WriteBlock(data);
      if failed {
        NoRoom(w, before, p);
      } else {
        Wrote(w, before, partition.blocks, start, p, pos - 1, data);
        AheadOfWrite(w, before, partition.blocks, pos - 1, data);
      }
    }

    /** Copies part of the data behind what waits in the buffer. */
    method Collect(data: seq<byte>, from: nat, copy: nat)
      requires Valid() && stored + copy <= partition.size && from + copy <= |data|
      modifies `stored, buffer
      ensures Valid() && stored == old(stored) + copy
      ensures buffer[..stored] == old(buffer[..stored]) + data[from..from + copy]
    {
      forall i | 0 <= i < copy { buffer[stored + i] := data[from + i]; }
      stored := stored + copy;
    }

    /** Adds data to a block that was begun, or begins one that the data does not fill; a full block is written. */
    method Coalesce(data: seq<byte>, from: nat, ghost start: nat) returns (copied: nat, failed: bool)
      requires Valid() && stored < partition.size && start <= pos && from < |data|
      modifies `pos, `stored, `badBlocks, buffer, partition`blocks
      ensures Valid() && start <= pos && |partition.blocks| == |old(partition.blocks)| && from + copied <= |data|
      ensures copied == 0 ==> stored == 0 && |data| - from >= partition.size
      ensures var w, n, size := partition.wear, |partition.blocks|, partition.size;
        if failed then Room(w, old(pos), n) == 0 && old(stored) + copied == size
        else
          && stored < size && Contents(start) == old(Contents(start)) + data[from..from + copied]
          && Spent(size, Room(w, old(pos), n), Room(w, pos, n), old(stored) + copied, stored)
          && old(pos) <= pos && Ahead(w, old(partition.blocks), partition.blocks, pos)
    {
      hide Stream, Room, Blocked, Spent, Ahead;
      ghost var w, n := partition.wear, |partition.blocks|;
      AheadStart(w, partition.blocks, pos);
      copied, failed := 0, false;
      SpentNothing(partition.size, Room(w, pos, n), stored);
      if stored > 0 || |data| - from < partition.size {
        var avail := partition.size - stored;
        copied := if |data| - from < avail then |data| - from else avail;
        Collect(data, from, copied);
        SpentNothing(partition.size, Room(w, pos, n), stored);
      }
      if stored == partition.size {
        assert buffer[..stored] == buffer[..];
        failed := PutBlock(buffer[..], start);
        if failed { return; }
        SpentOne(partition.size, Room(w, old(pos), n));
        stored := 0;
        assert buffer[..stored] == [];
      }
    }

    /** Writes complete blocks directly from the data, when no block was begun. */
    method PutWhole(data: seq<byte>, from: nat, ghost start: nat) returns (put: nat, failed: bool)
      requires Valid() && stored < partition.size && start <= pos && from <= |data|
      modifies `pos, `badBlocks, partition`blocks
      ensures Valid() && start <= pos && |partition.blocks| == |old(partition.blocks)| && from + put <= |data|
      ensures stored == 0 && |data| - from >= partition.size ==> failed || put > 0
      ensures var w, n, size := partition.wear, |partition.blocks|, partition.size;
        && Spent(size, Room(w, old(pos), n), if failed then 0 else Room(w, pos, n), stored + put, stored)
        && (failed ==> stored == 0 && from + put + size <= |data|)
        && (!failed ==> Contents(start) == old(Contents(start)) + data[from..from + put])
        && (!failed ==> old(pos) <= pos && Ahead(w, old(partition.blocks), partition.blocks, pos))
    {
      hide Stream, Room, Blocked, Spent, Ahead;
      ghost var w, n, size := partition.wear, |partition.blocks|, partition.size;
      ghost var was, first := Stream(w, partition.blocks, start, pos), partition.blocks;
      AheadStart(w, first, pos);
      put, failed := 0, false;
      SpentNothing(size, Room(w, pos, n), stored);
      while stored == 0 && |data| - (from + put) >= partition.size
        invariant from + put <= |data| && Valid() && start <= pos && |partition.blocks| == n
        invariant put == 0 ==> partition.blocks == first && pos == old(pos)
        invariant old(pos) <= pos && Ahead(w, first, partition.blocks, pos)
        invariant put > 0 ==> stored == 0
        invariant Stream(w, partition.blocks, start, pos) == was + data[from..from + put]
        invariant Spent(size, Room(w, old(pos), n), Room(w, pos, n), stored + put, stored)
      {
        ghost var p, to, before := pos, from + put, partition.blocks;
        failed := PutBlock(data[from + put..from + put + partition.size], start);
        if failed { return; }
        AheadOn(w, first, before, partition.blocks, p, pos);
        SpentOne(size, Room(w, p, n));
        SpentMore(size, Room(w, old(pos), n), Room(w, p, n), Room(w, pos, n), put, 0, size, 0);
        assert data[from..to] + data[to..to + size] == data[from..to + size];
        put := put + partition.size;
      }
    }

    /** Takes in data: all of it exactly when it fits, and then behind what came before. */
    method WriteData(data: seq<byte>, ghost start: nat) returns (wrote: int)
      requires Valid() && stored < partition.size && start <= pos
      modifies `pos, `stored, `badBlocks, buffer, partition`blocks
      ensures Valid() && start <= pos && |partition.blocks| == |old(partition.blocks)|
      ensures var w, n, size := partition.wear, |partition.blocks|, partition.size;
        if Fits(old(stored) + |data|, Room(w, old(pos), n), size) then
          && wrote == |data| && stored < size && Contents(start) == old(Contents(start)) + data
          && Spent(size, Room(w, old(pos), n), Room(w, pos, n), old(stored) + |data|, stored)
          && old(pos) <= pos && Ahead(w, old(partition.blocks), partition.blocks, pos)
        else wrote == -1
    {
      hide Stream, Room, Blocked, Spent, Fits, Contents, Ahead;
      ghost var first := partition.blocks;
      AheadStart(partition.wear, first, pos);
      ghost var w, n, size, was := partition.wear, |partition.blocks|, partition.size, Contents(start);
      ghost var room := Room(w, pos, n);
      SpentNothing(size, room, stored);
      wrote := 0;
      while wrote < |data|
        invariant 0 <= wrote <= |data| && Valid() && stored < size && start <= pos && |partition.blocks| == n
        invariant Contents(start) == was + data[..wrote]
        invariant Spent(size, room, Room(w, pos, n), old(stored) + wrote, stored)
        invariant old(pos) <= pos && Ahead(w, first, partition.blocks, pos)
      {
        ghost var p, rest, from, before := pos, stored, wrote, partition.blocks;
        var copied, failed := Coalesce(data, wrote, start);
        if failed {
          SpentNothing(size, 0, size);
          SpentAll(size, room, 0, old(stored) + wrote, rest, copied, size, old(stored) + |data|);
          return -1;
        }
        AheadOn(w, first, before, partition.blocks, p, pos);
        SpentMore(size, room, Room(w, p, n), Room(w, pos, n), old(stored) + wrote, rest, copied, stored);
        Appended(was, data, from, from + copied);
        wrote := wrote + copied;
        p, rest, from, before := pos, stored, wrote, partition.blocks;
        var put;
        put, failed := PutWhole(data, wrote, start);
        if failed {
          SpentAll(size, room, Room(w, p, n), old(stored) + wrote, rest, put, 0, old(stored) + |data|);
          return -1;
        }
        AheadOn(w, first, before, partition.blocks, p, pos);
        SpentMore(size, room, Room(w, p, n), Room(w, pos, n), old(stored) + wrote, rest, put, stored);
        Appended(was, data, from, from + put);
        wrote := wrote + put;
      }
      assert data[..wrote] == data;
      SpentFits(size, room, Room(w, pos, n), old(stored) + |data|, stored);
    }

    /** Pads and writes a block that was begun, then erases so many blocks behind it, or all when negative. */
    method EraseBlocks(blocks: int, ghost start: nat) returns (end: int)
      requires Valid() && stored < partition.size && start <= pos
      modifies `pos, `stored, `badBlocks, buffer, partition`blocks
      ensures Valid() && start <= pos && |partition.blocks| == |old(partition.blocks)|
      ensures var w, n, size := partition.wear, |partition.blocks|, partition.size;
        if old(stored) > 0 && Room(w, old(pos), n) == 0 then end == -1
        else
          && stored == 0 && Contents(start) == old(Contents(start)) + Padding(old(stored), size)
          && (if blocks > n - pos then end == -1
              else
                && end == (if blocks < 0 then n else pos + blocks)
                && (forall b :: pos <= b < end && w.mark(b) != Bad && w.erases(b) ==> partition.blocks[b] == Erased(size))
                && (forall b :: pos <= b < end && Takes(w, b) && !w.erases(b) ==> partition.blocks[b] == old(partition.blocks)[b])
                && Ahead(w, old(partition.blocks), partition.blocks, end))
    {
      hide Stream, Room, Blocked, Erased, Ahead, Takes, Erasing;
      ghost var w, n, first := partition.wear, |partition.blocks|, partition.blocks;
      AheadStart(w, first, pos);
      if stored > 0 {
        ghost var waiting := buffer[..stored];
        forall i | stored <= i < partition.size { buffer[i] := 0; }
        assert buffer[..] == waiting + Padding(stored, partition.size);
        var failed := PutBlock(buffer[..], start);
        if failed { return -1; }
        stored := 0;
      }
      assert Contents(start) == old(Contents(start)) + Padding(old(stored), partition.size);
      ghost var was := Contents(start);
      var total := |partition.blocks| - pos;
      var left := if blocks < 0 then total else blocks;
      if left > total { return -1; }
      var p := pos;
      ghost var stop, padded := p + left, partition.blocks;
      ErasingStart(w, padded, pos, partition.size);
      while left > 0
        invariant 0 <= left && p + left == stop <= n == |partition.blocks| && pos <= p && Valid()
        invariant Contents(start) == was && Erasing(w, padded, partition.blocks, pos, p, partition.size)
        modifies partition`blocks
      {
        ErasingStep(w, padded, partition.blocks, pos, p, partition.size);
        if partition.wear.mark(p) != Bad && partition.wear.erases(p) {
          ghost var before := partition.blocks;
          ErasedBlocked(before, partition.size, p);
          partition.blocks := partition.blocks[p := Erased(partition.size)];
          StreamSame(w, before, partition.blocks, start, pos);
        }
        p := p + 1;
        left := left - 1;
      }
      ErasingEnd(w, first, padded, partition.blocks, pos, p, partition.size);
      return p;
    }

    /** Writes what still waits. */
    method Close(ghost start: nat) returns (r: int)
      requires Valid() && stored < partition.size && start <= pos
      modifies `pos, `stored, `badBlocks, buffer, partition`blocks
      ensures Valid() && |partition.blocks| == |old(partition.blocks)|
      ensures if old(stored) > 0 && Room(partition.wear, old(pos), |partition.blocks|) == 0 then r == -1
        else r == 0 && stored == 0 && Contents(start) == old(Contents(start)) + Padding(old(stored), partition.size)
    {
      var end := EraseBlocks(0, start);
      return if end == -1 then -1 else 0;
    }
  }

  lemma AgreeAt(w: Wear, n: nat, p: nat)
    requires Agree(w, n) && p <= n
    ensures NextRead(w, p, n, false) == NextWrite(w, p, n)
  {
  }

  class Reader {
    const partition: Partition
    const buffer: array<byte>
    var consumed: nat
    var pos: nat

    ghost predicate Valid()
      reads this, partition, buffer
    {
      && partition.Valid() && buffer.Length == partition.size && consumed <= partition.size
      && pos <= |partition.blocks|
    }

    /** All that is still to be read. */
    ghost function Unread(): seq<byte>
      requires Valid()
      reads this, partition, buffer
    {
      buffer[consumed..] + Stream(partition.wear, partition.blocks, pos, |partition.blocks|)
    }

    constructor (partition: Partition)
      requires partition.Valid()
      ensures Valid() && this.partition == partition && fresh(buffer) && pos == 0
      ensures Unread() == Stream(partition.wear, partition.blocks, 0, |partition.blocks|)
    {
      this.partition := partition;
      buffer := new byte[partition.size](_ => 0);
      consumed := partition.size;
      pos := 0;
    }

    /** Reads the next block that reads well into a part of an array; what does not read well may be left there. */
    method ReadBlock(into: array<byte>, at: nat) returns (failed: bool)
      requires Valid() && at + partition.size <= into.Length
      modifies `pos, partition`failed, into
      ensures into != buffer ==> Valid()
      ensures pos <= |partition.blocks| && into[..at] == old(into[..at]) && into[at + partition.size..] == old(into[at + partition.size..])
      ensures var q := NextRead(partition.wear, old(pos), |partition.blocks|, false);
        if q.None? then failed
        else !failed && pos == q.value + 1 && into[at..at + partition.size] == partition.blocks[q.value]
    {
      hide Stream;
      var before := partition.failed;
      var p := pos;
      ghost var w, n := partition.wear, |partition.blocks|;
      while p < |partition.blocks|
        invariant pos <= p <= n && partition.Valid() && before <= partition.failed
        invariant into[..at] == old(into[..at]) && into[at + partition.size..] == old(into[at + partition.size..])
        invariant NextRead(w, old(pos), n, false) == NextRead(w, p, n, partition.failed != before)
      {
        partition.failed := partition.failed + partition.wear.faults(p);
        if partition.wear.readFails(p) {
          pos := p;
        } else {
          forall i | 0 <= i < partition.size { into[at + i] := partition.blocks[p][i]; }
          pos := p + 1;
          if partition.failed != before {
            before := partition.failed;
          } else if partition.wear.mark(p) == Good {
            assert into[at..at + partition.size] == partition.blocks[p];
            return false;
          }
        }
        p := p + 1;
      }
      return true;
    }

    /** ReadBlock, when reader and writers agree on the blocks, as what it takes off the blocks behind pos. */
    method TakeBlock(into: array<byte>, at: nat, ghost rest: seq<byte>) returns (failed: bool)
      requires Valid() && Agree(partition.wear, |partition.blocks|) && at + partition.size <= into.Length
      requires rest == Stream(partition.wear, partition.blocks, pos, |partition.blocks|)
      modifies `pos, partition`failed, into
      ensures Valid() && into[..at] == old(into[..at])
      ensures var left := Stream(partition.wear, partition.blocks, pos, |partition.blocks|);
        if failed then rest == [] else rest == into[at..at + partition.size] + left
    {
      hide Stream, Agree, Blocked, NextRead, NextWrite;
      ghost var w, n, p := partition.wear, |partition.blocks|, pos;
      AgreeAt(w, n, p);
      failed := ReadBlock(into, at);
      if failed { StreamNone(w, partition.blocks, p, n); } else { StreamNext(w, partition.blocks, p, pos - 1); }
    }

    /** Takes what the buffer still has, as far as it is wanted. */
    method TakeBuffered(data: array<byte>, from: nat, length: nat) returns (read: nat)
      requires Valid() && data != buffer && from < length <= data.Length
      modifies `consumed, data
      ensures Valid() && from <= read <= length && (old(consumed) < partition.size ==> from < read)
      ensures read < length ==> consumed == partition.size
      ensures data[..read] + Unread() == old(data[..from] + Unread())
    {
      hide Stream, Blocked;
      if consumed == partition.size { return from; }
      var avail := partition.size - consumed;
      var copy := if length - from < avail then length - from else avail;
      forall i | 0 <= i < copy { data[from + i] := buffer[consumed + i]; }
      consumed := consumed + copy;
      read := from + copy;
      assert data[..read] == old(data[..from]) + buffer[old(consumed)..consumed];
      assert buffer[old(consumed)..consumed] + buffer[consumed..] == buffer[old(consumed)..];
      assert data[..read] + Unread() == old(data[..from]) + (buffer[old(consumed)..] + Stream(partition.wear, partition.blocks, pos, |partition.blocks|));
    }

    /** Reads complete blocks directly into the caller's data, when the buffer is used up. */
    method TakeWhole(data: array<byte>, from: nat, length: nat) returns (read: nat, failed: bool)
      requires Valid() && Agree(partition.wear, |partition.blocks|) && data != buffer && from <= length <= data.Length
      modifies `pos, partition`failed, data
      ensures Valid() && from <= read <= length && |partition.blocks| == |old(partition.blocks)|
      ensures if failed then |old(data[..from] + Unread())| < length
        else data[..read] + Unread() == old(data[..from] + Unread())
      ensures !failed && consumed == partition.size ==> length - read < partition.size
    {
      hide Stream, Agree, Blocked;
      read, failed := from, false;
      ghost var was := data[..from] + Unread();
      while consumed == partition.size && length - read >= partition.size
        invariant from <= read <= length && Valid() && was == data[..read] + Unread()
      {
        ghost var before := data[..read];
        failed := TakeBlock(data, read, Unread());
        if failed { return; }
        ghost var piece, left := data[read..read + partition.size], Unread();
        assert before + (piece + left) == (before + piece) + left;
        read := read + partition.size;
        assert data[..read] == before + piece;
      }
    }

    /** Reads the next block into the buffer. */
    method Refill() returns (failed: bool)
      requires Valid() && Agree(partition.wear, |partition.blocks|) && consumed == partition.size
      modifies `pos, `consumed, partition`failed, buffer
      ensures Valid() && if failed then old(Unread()) == [] else consumed == 0 && Unread() == old(Unread())
    {
      hide Stream, Agree, Blocked;
      failed := TakeBlock(buffer, 0, Unread());
      if failed { return; }
      consumed := 0;
      assert buffer[0..partition.size] == buffer[consumed..];
    }

    /** Reads on: as many bytes as asked for, exactly when there are so many left. */
    method ReadData(data: array<byte>, length: nat) returns (read: int)
      requires Valid() && Agree(partition.wear, |partition.blocks|) && data != buffer && length <= data.Length
      modifies `pos, `consumed, partition`failed, buffer, data
      ensures Valid()
      ensures if length <= |old(Unread())| then read == length && old(Unread()) == data[..length] + Unread()
        else read == -1
    {
      hide Stream, Agree, Blocked, Unread;
      ghost var was := Unread();
      read := 0;
      while read < length
        invariant 0 <= read <= length && Valid() && was == data[..read] + Unread()
        decreases length - read, if consumed == partition.size then 1 else 0
      {
        read := TakeBuffered(data, read, length);
        var failed;
        read, failed := TakeWhole(data, read, length);
        if failed { return -1; }
        if read >= length { return; }
        if consumed == partition.size && read < length {
          failed := Refill();
          if failed { return -1; }
        }
      }
    }
  }

  /** What is left of so many bytes after whole blocks. */
  function Rest(total: nat, size: nat): nat
    requires size > 0
    decreases total
  {
    if total < size then total else Rest(total - size, size)
  }

  lemma {:induction false} RestUnique(k: nat, size: nat, rest: nat)
    requires rest < size
    ensures Rest(k * size + rest, size) == rest
  {
    if k > 0 {
      assert k * size == (k - 1) * size + size;
      RestUnique(k - 1, size, rest);
    }
  }

  /** What a partition is given, filled up to whole blocks. */
  function Padded(payload: seq<byte>, size: nat): seq<byte>
    requires size > 0
  {
    payload + Padding(Rest(|payload|, size), size)
  }

  function Sum(lengths: seq<nat>, k: nat): nat
    requires k <= |lengths|
  {
    if k == 0 then 0 else Sum(lengths, k - 1) + lengths[k - 1]
  }

  lemma {:induction false} SumGrows(lengths: seq<nat>, j: nat, k: nat)
    requires j <= k <= |lengths|
    ensures Sum(lengths, j) <= Sum(lengths, k)
    decreases k
  {
    if j < k { SumGrows(lengths, j, k - 1); }
  }

  /** Writes the pieces one after the other from the partition's first block on, and closes. */
  method WriteAll(partition: Partition, pieces: seq<seq<byte>>)
    requires partition.Valid()
    requires |Slices.Join(pieces, |pieces|)| <= Room(partition.wear, 0, |partition.blocks|) * partition.size
    modifies partition`blocks
    ensures partition.Valid() && |partition.blocks| == |old(partition.blocks)|
    ensures Padded(Slices.Join(pieces, |pieces|), partition.size) <= Stream(partition.wear, partition.blocks, 0, |partition.blocks|)
  {
    hide Stream, Room, Spent, Fits, Blocked, Rest;
    var writer := new Writer(partition);
    ghost var w, n, size, whole := partition.wear, |partition.blocks|, partition.size, Slices.Join(pieces, |pieces|);
    ghost var room := Room(w, 0, n);
    StreamNone(w, partition.blocks, 0, 0);
    SpentNothing(size, room, 0);
    for i := 0 to |pieces|
      invariant writer.Valid() && writer.partition == partition && fresh(writer) && fresh(writer.buffer) && |partition.blocks| == n
      invariant writer.stored < size && writer.Contents(0) == Slices.Join(pieces, i)
      invariant Spent(size, room, Room(w, writer.pos, n), |Slices.Join(pieces, i)|, writer.stored)
    {
      ghost var p, rest := writer.pos, writer.stored;
      Slices.JoinGrows(pieces, i + 1, |pieces|);
      FitsLeft(size, room, Room(w, p, n), |Slices.Join(pieces, i)|, rest, |pieces[i]|);
      var wrote := writer.WriteData(pieces[i], 0);
      assert wrote == |pieces[i]|;
      SpentMore(size, room, Room(w, p, n), Room(w, writer.pos, n), |Slices.Join(pieces, i)|, rest, |pieces[i]|, writer.stored);
    }
    ghost var stored := writer.stored;
    SpentRest(size, room, Room(w, writer.pos, n), |whole|, stored);
    var closed := writer.Close(0);
    assert closed == 0;
    StreamJoin(w, partition.blocks, 0, writer.pos, n);
  }

  /** Data that fits as a whole fits piece by piece. */
  lemma FitsLeft(size: nat, room: nat, left: nat, total: nat, rest: nat, more: nat)
    requires Spent(size, room, left, total, rest) && size > 0 && total + more <= room * size
    ensures Fits(rest + more, left, size)
  {
    assert room * size == (room - left) * size + left * size;
    assert (left + 1) * size == left * size + size;
  }

  lemma SpentRest(size: nat, room: nat, left: nat, total: nat, rest: nat)
    requires Spent(size, room, left, total, rest) && rest < size && total <= room * size
    ensures rest == Rest(total, size) && (rest > 0 ==> left > 0)
  {
    RestUnique(room - left, size, rest);
    assert (room - left) * size == room * size - left * size;
  }

  /** Reads so many bytes at a time, from the partition's first block on. */
  method ReadAll(partition: Partition, lengths: seq<nat>) returns (got: seq<byte>)
    requires partition.Valid() && Steady(partition.wear, |partition.blocks|)
    requires Sum(lengths, |lengths|) <= |Stream(partition.wear, partition.blocks, 0, |partition.blocks|)|
    modifies partition`failed
    ensures got == Stream(partition.wear, partition.blocks, 0, |partition.blocks|)[..Sum(lengths, |lengths|)]
  {
    hide Stream, Blocked, Steady, Agree, Reader.Unread;
    AgreeExactly(partition.wear, |partition.blocks|);
    var reader := new Reader(partition);
    ghost var all := reader.Unread();
    got := [];
    for i := 0 to |lengths|
      invariant reader.Valid() && reader.partition == partition && fresh(reader) && fresh(reader.buffer)
      invariant |got| == Sum(lengths, i) && all == got + reader.Unread()
    {
      SumGrows(lengths, i + 1, |lengths|);
      var data := new byte[lengths[i]](_ => 0);
      var read := reader.ReadData(data, lengths[i]);
      assert read == lengths[i] && data[..] == data[..lengths[i]];
      got := got + data[..];
    }
    assert got == all[..|got|];
  }

  /** However a payload is cut into writes, and however the reads are cut, and wherever the bad blocks are,
      what is read from the partition is the payload and the zeros that fill its last block. */
  method RoundTrip(size: nat, wear: Wear, blocks: seq<seq<byte>>, pieces: seq<seq<byte>>,
                   lengths: seq<nat>) returns (got: seq<byte>)
    requires size > 0 && Blocked(blocks, size) && Steady(wear, |blocks|)
    requires |Slices.Join(pieces, |pieces|)| <= Room(wear, 0, |blocks|) * size
    requires Sum(lengths, |lengths|) <= |Padded(Slices.Join(pieces, |pieces|), size)|
    ensures got == Padded(Slices.Join(pieces, |pieces|), size)[..Sum(lengths, |lengths|)]
  {
    hide Stream, Blocked, Room, Steady, Padded;
    var partition := new Partition(size, wear, blocks);
    WriteAll(partition, pieces);
    got := ReadAll(partition, lengths);
  }
}
