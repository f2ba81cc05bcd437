/** Reading from a partition, which has no end of its own, up to one of the sizes it may have. */
module PartitionLoad {
  import opened Bytes
  import PatchRun

  type Digest = PatchRun.Digest

  /** A hash that is fed piece by piece. */
  datatype Hasher<!S> = Hasher(init: S, update: (S, seq<byte>) -> S, final: S -> Digest)

  /** Feeding two pieces one after the other is feeding them as one. */
  ghost predicate Streaming<S(!new)>(h: Hasher<S>) {
    && (forall s, a, b :: h.update(h.update(s, a), b) == h.update(s, a + b))
    && (forall s :: h.update(s, []) == s)
  }

  function Sha<S>(h: Hasher<S>, data: seq<byte>): Digest {
    h.final(h.update(h.init, data))
  }

  /** A size the contents may have, and the hash they then have, in hex. */
  datatype Pair = Pair(size: nat, sha1: string)

  /** Is this what the partition holds? */
  ghost predicate Match<S>(h: Hasher<S>, disk: seq<byte>, p: Pair) {
    p.size <= |disk| && PatchRun.Sha1Of(p.sha1) == Some(Sha(h, disk[..p.size]))
  }

  /** Does looking at this pair end the search with an error? */
  predicate Fails(disk: seq<byte>, p: Pair) {
    p.size > |disk| || PatchRun.Sha1Of(p.sha1) == None
  }

  /** What sorting the indices by size may give; pairs of the same size may come in any order. */
  ghost predicate Sorted(pairs: seq<Pair>, order: seq<nat>) {
    && |order| == |pairs|
    && (forall i :: 0 <= i < |order| ==> order[i] < |pairs|)
    && (forall k :: 0 <= k < |pairs| ==> k in order)
    && (forall i, j :: 0 <= i < j < |order| ==> pairs[order[i]].size <= pairs[order[j]].size)
  }

  /** The search arrives at the pair at place i, and it matches. */
  ghost predicate FoundAt<S>(h: Hasher<S>, disk: seq<byte>, pairs: seq<Pair>, order: seq<nat>, i: nat)
    requires Sorted(pairs, order)
  {
    i < |order| && Match(h, disk, pairs[order[i]]) && forall j :: 0 <= j < i ==> !Fails(disk, pairs[order[j]])
  }

  /** This pair matches, and none of a smaller size does. */
  ghost predicate Least<S>(h: Hasher<S>, disk: seq<byte>, pairs: seq<Pair>, k: nat) {
    k < |pairs| && Match(h, disk, pairs[k]) && forall j :: 0 <= j < |pairs| && pairs[j].size < pairs[k].size ==> !Match(h, disk, pairs[j])
  }

  /** The first match in order of size is the least. */
  lemma FirstIsLeast<S>(h: Hasher<S>, disk: seq<byte>, pairs: seq<Pair>, order: seq<nat>, i: nat)
    requires Sorted(pairs, order) && i < |order| && Match(h, disk, pairs[order[i]])
    requires forall j :: 0 <= j < i ==> !Match(h, disk, pairs[order[j]])
    ensures Least(h, disk, pairs, order[i])
  {
    forall k | 0 <= k < |pairs| && pairs[k].size < pairs[order[i]].size ensures !Match(h, disk, pairs[k]) {
      assert k in order;
      var j :| 0 <= j < |order| && order[j] == k;
      assert j < i;
    }
  }

  /** The contents, when a pair matches before an error ends the search, and then those of the least size that matches. */
  method LoadPartitionContents<S(!new)>(h: Hasher<S>, pairs: seq<Pair>, order: seq<nat>,
      disk: seq<byte>) returns (r: Option<seq<byte>>)
    requires Streaming(h) && |pairs| > 0 && Sorted(pairs, order)
    ensures r.Some? <==>
      (forall k :: 0 <= k < |pairs| ==> pairs[k].size > 0) && exists i: nat :: FoundAt(h, disk, pairs, order, i)
    ensures r.Some? ==> exists k: nat :: Least(h, disk, pairs, k) && r.value == disk[..pairs[k].size]
  {
    hide PatchRun.Sha1Of, Streaming, Match, Fails, Least, Sha;
    for i := 0 to |pairs|
      invariant forall k :: 0 <= k < i ==> pairs[k].size > 0
    {
      if pairs[i].size == 0 { return None; }
    }
    var ctx := h.init;
    var largest := pairs[order[|pairs| - 1]].size;
    var data := new byte[largest](_ => 0);
    var fileSize, p := 0, 0;
    StreamStart(h);
    for i := 0 to |pairs|
      invariant fileSize == p <= |disk| && fileSize <= largest
      invariant fileSize == if i == 0 then 0 else pairs[order[i - 1]].size
      invariant data[..fileSize] == disk[..fileSize] && ctx == h.update(h.init, disk[..fileSize])
      invariant forall j :: 0 <= j < i ==> !Fails(disk, pairs[order[j]]) && !Match(h, disk, pairs[order[j]])
    {
      var pair := pairs[order[i]];
      var next := pair.size - fileSize;
      var read := 0;
      if next > 0 {
        read := if next <= |disk| - fileSize then next else |disk| - fileSize;
        forall k | 0 <= k < read { data[p + k] := disk[fileSize + k]; }
        if next != read {
          ShortFails(disk, pair);
          NotFound(h, disk, pairs, order, i);
          return None;
        }
        StreamMore(h, ctx, disk, fileSize, read);
        assert data[..fileSize + read] == data[..fileSize] + disk[fileSize..fileSize + read];
        ctx := h.update(ctx, disk[fileSize..fileSize + read]);
        fileSize := fileSize + read;
      }
      Judge(h, disk, pair, ctx);
      var parsed := PatchRun.ParseSha1(pair.sha1);
      if parsed == None {
        NotFound(h, disk, pairs, order, i);
        return None;
      }
      if parsed.value == h.final(ctx) {
        assert FoundAt(h, disk, pairs, order, i);
        FirstIsLeast(h, disk, pairs, order, i);
        return Some(data[..fileSize]);
      }
      p := p + read;
    }
    return None;
  }

  lemma ShortFails(disk: seq<byte>, p: Pair)
    requires p.size > |disk|
    ensures Fails(disk, p)
  {
  }

  lemma Judge<S>(h: Hasher<S>, disk: seq<byte>, p: Pair, ctx: S)
    requires p.size <= |disk| && ctx == h.update(h.init, disk[..p.size])
    ensures Fails(disk, p) <==> PatchRun.Sha1Of(p.sha1) == None
    ensures Match(h, disk, p) <==> PatchRun.Sha1Of(p.sha1) == Some(h.final(ctx))
  {
  }

  lemma StreamStart<S(!new)>(h: Hasher<S>)
    requires Streaming(h)
    ensures h.update(h.init, []) == h.init
  {
  }

  lemma StreamMore<S(!new)>(h: Hasher<S>, ctx: S, disk: seq<byte>, at: nat, more: nat)
    requires Streaming(h) && at + more <= |disk| && ctx == h.update(h.init, disk[..at])
    ensures h.update(ctx, disk[at..at + more]) == h.update(h.init, disk[..at + more])
  {
    assert disk[..at] + disk[at..at + more] == disk[..at + more];
  }

  /** A pair that ends the search leaves nothing to be found, when none before it matches. */
  lemma NotFound<S>(h: Hasher<S>, disk: seq<byte>, pairs: seq<Pair>, order: seq<nat>, i: nat)
    requires Sorted(pairs, order) && i < |order| && Fails(disk, pairs[order[i]])
    requires forall j :: 0 <= j < i ==> !Match(h, disk, pairs[order[j]])
    ensures forall k: nat :: !FoundAt(h, disk, pairs, order, k)
  {
  }
}
