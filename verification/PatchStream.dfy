/** What a control stream means: "add bytes to old bytes, copy extra bytes, seek in old". */
module PatchStream {
  import opened Bytes

  datatype Triple = Triple(add: int, copy: int, seek: int)

  /** Diff bytes added to the old bytes from position at on; diff bytes outside old stay as they are. */
  function Added(text: seq<byte>, diff: seq<byte>, at: int): (r: seq<byte>)
    ensures |r| == |diff|
  {
    seq(|diff|, i requires 0 <= i < |diff| =>
      if 0 <= at + i < |text| then (diff[i] as int + text[at + i] as int) % 256 else diff[i])
  }

  /** All lengths of the first k triples are non-negative. */
  predicate Counted(ctrl: seq<Triple>) {
    forall t :: t in ctrl ==> t.add >= 0 && t.copy >= 0
  }

  function DiffUsed(ctrl: seq<Triple>, k: nat): (r: int)
    requires k <= |ctrl|
    ensures Counted(ctrl) ==> r >= 0
  {
    if k == 0 then 0 else DiffUsed(ctrl, k - 1) + ctrl[k - 1].add
  }

  function ExtraUsed(ctrl: seq<Triple>, k: nat): (r: int)
    requires k <= |ctrl|
    ensures Counted(ctrl) ==> r >= 0
  {
    if k == 0 then 0 else ExtraUsed(ctrl, k - 1) + ctrl[k - 1].copy
  }

  function OldPos(ctrl: seq<Triple>, k: nat): int
    requires k <= |ctrl|
  {
    if k == 0 then 0 else OldPos(ctrl, k - 1) + ctrl[k - 1].add + ctrl[k - 1].seek
  }

  /** The diff and extra streams hold enough for the first k triples. */
  predicate Supplied(ctrl: seq<Triple>, diff: seq<byte>, extra: seq<byte>, k: nat)
    requires k <= |ctrl|
  {
    DiffUsed(ctrl, k) <= |diff| && ExtraUsed(ctrl, k) <= |extra|
  }

  /** The new file after k triples. */
  function Output(text: seq<byte>, ctrl: seq<Triple>, diff: seq<byte>, extra: seq<byte>, k: nat): (r: seq<byte>)
    requires k <= |ctrl| && Counted(ctrl) && Supplied(ctrl, diff, extra, k)
    ensures |r| == DiffUsed(ctrl, k) + ExtraUsed(ctrl, k)
  {
    if k == 0 then [] else
      var t := ctrl[k - 1];
      var d, e := DiffUsed(ctrl, k - 1), ExtraUsed(ctrl, k - 1);
      Output(text, ctrl, diff, extra, k - 1)
      + Added(text, diff[d..d + t.add], OldPos(ctrl, k - 1))
      + extra[e..e + t.copy]
  }

  /** The read position in old stays inside it, so the decoder's range test never fails. */
  ghost predicate InsideOld(text: seq<byte>, ctrl: seq<Triple>) {
    && (forall k :: 0 <= k <= |ctrl| ==> 0 <= OldPos(ctrl, k) <= |text|)
    && (forall k :: 0 <= k < |ctrl| ==> OldPos(ctrl, k) + ctrl[k].add <= |text|)
  }

  /** A complete patch from text to target: it spells target, uses up its streams, reads inside text,
      and every triple is reached before the target is complete. */
  ghost predicate Spells(text: seq<byte>, target: seq<byte>, ctrl: seq<Triple>, diff: seq<byte>, extra: seq<byte>) {
    && Counted(ctrl)
    && DiffUsed(ctrl, |ctrl|) == |diff|
    && ExtraUsed(ctrl, |ctrl|) == |extra|
    && Output(text, ctrl, diff, extra, |ctrl|) == target
    && InsideOld(text, ctrl)
    && forall k :: 0 <= k < |ctrl| ==> DiffUsed(ctrl, k) + ExtraUsed(ctrl, k) < |target|
  }

  lemma PrefixSlice(s: seq<byte>, s': seq<byte>, a: nat, b: nat)
    requires s <= s' && a <= b <= |s|
    ensures s'[a..b] == s[a..b]
  {
  }

  lemma UsedUnfolds(ctrl: seq<Triple>, k: nat)
    requires k < |ctrl|
    ensures DiffUsed(ctrl, k + 1) == DiffUsed(ctrl, k) + ctrl[k].add && ExtraUsed(ctrl, k + 1) == ExtraUsed(ctrl, k) + ctrl[k].copy
    ensures OldPos(ctrl, k + 1) == OldPos(ctrl, k) + ctrl[k].add + ctrl[k].seek
  {
  }

  lemma OutputUnfolds(text: seq<byte>, ctrl: seq<Triple>, diff: seq<byte>, extra: seq<byte>, k: nat)
    requires k < |ctrl| && Counted(ctrl) && Supplied(ctrl, diff, extra, k + 1) && Supplied(ctrl, diff, extra, k)
    ensures var d, e := DiffUsed(ctrl, k), ExtraUsed(ctrl, k);
      Output(text, ctrl, diff, extra, k + 1)
      == Output(text, ctrl, diff, extra, k) + Added(text, diff[d..d + ctrl[k].add], OldPos(ctrl, k)) + extra[e..e + ctrl[k].copy]
  {
    hide Added, DiffUsed, ExtraUsed, OldPos, Counted;
    UsedUnfolds(ctrl, k);
  }

  lemma {:induction false} UsedExtends(ctrl: seq<Triple>, ctrl': seq<Triple>, k: nat)
    requires k <= |ctrl| && ctrl <= ctrl'
    ensures DiffUsed(ctrl', k) == DiffUsed(ctrl, k) && ExtraUsed(ctrl', k) == ExtraUsed(ctrl, k)
    ensures OldPos(ctrl', k) == OldPos(ctrl, k)
  {
    if k > 0 {
      UsedExtends(ctrl, ctrl', k - 1);
      assert ctrl'[k - 1] == ctrl[k - 1];
    }
  }

  /** Earlier outputs do not depend on what is appended later. */
  lemma {:induction false} OutputExtends(text: seq<byte>, ctrl: seq<Triple>, diff: seq<byte>, extra: seq<byte>,
                                         ctrl': seq<Triple>, diff': seq<byte>, extra': seq<byte>, k: nat)
    requires k <= |ctrl| && Counted(ctrl) && Counted(ctrl') && Supplied(ctrl, diff, extra, k)
    requires ctrl <= ctrl' && diff <= diff' && extra <= extra'
    ensures DiffUsed(ctrl', k) == DiffUsed(ctrl, k) && ExtraUsed(ctrl', k) == ExtraUsed(ctrl, k)
    ensures OldPos(ctrl', k) == OldPos(ctrl, k)
    ensures Output(text, ctrl', diff', extra', k) == Output(text, ctrl, diff, extra, k)
  {
    UsedExtends(ctrl, ctrl', k);
    if k > 0 {
      SuppliedBefore(ctrl, diff, extra, k);
      OutputExtends(text, ctrl, diff, extra, ctrl', diff', extra', k - 1);
      OutputStep(text, ctrl, diff, extra, ctrl', diff', extra', k - 1);
    } else {
      OutputNone(text, ctrl, diff, extra, ctrl', diff', extra');
    }
  }

  lemma SuppliedBefore(ctrl: seq<Triple>, diff: seq<byte>, extra: seq<byte>, k: nat)
    requires 0 < k <= |ctrl| && Counted(ctrl) && Supplied(ctrl, diff, extra, k)
    ensures Supplied(ctrl, diff, extra, k - 1)
  {
    assert ctrl[k - 1] in ctrl;
  }

  lemma OutputStep(text: seq<byte>, ctrl: seq<Triple>, diff: seq<byte>, extra: seq<byte>,
                   ctrl': seq<Triple>, diff': seq<byte>, extra': seq<byte>, k: nat)
    requires k < |ctrl| && k < |ctrl'| && ctrl'[k] == ctrl[k] && diff <= diff' && extra <= extra'
    requires Counted(ctrl) && Counted(ctrl') && Supplied(ctrl, diff, extra, k + 1) && Supplied(ctrl, diff, extra, k)
    requires Supplied(ctrl', diff', extra', k + 1) && Supplied(ctrl', diff', extra', k)
    requires DiffUsed(ctrl', k) == DiffUsed(ctrl, k) && ExtraUsed(ctrl', k) == ExtraUsed(ctrl, k)
    requires OldPos(ctrl', k) == OldPos(ctrl, k)
    requires Output(text, ctrl', diff', extra', k) == Output(text, ctrl, diff, extra, k)
    ensures Output(text, ctrl', diff', extra', k + 1) == Output(text, ctrl, diff, extra, k + 1)
  {
    hide *;
    var d, e, t := DiffUsed(ctrl, k), ExtraUsed(ctrl, k), ctrl[k];
    UsedUnfolds(ctrl, k);
    CountedAt(ctrl, k);
    SuppliedNow(ctrl, diff, extra, k);
    PrefixSlice(diff, diff', d, d + t.add);
    PrefixSlice(extra, extra', e, e + t.copy);
    OutputUnfolds(text, ctrl, diff, extra, k);
    OutputUnfolds(text, ctrl', diff', extra', k);
  }

  lemma SuppliedNow(ctrl: seq<Triple>, diff: seq<byte>, extra: seq<byte>, k: nat)
    requires k < |ctrl| && Counted(ctrl) && Supplied(ctrl, diff, extra, k + 1)
    ensures 0 <= DiffUsed(ctrl, k) && DiffUsed(ctrl, k + 1) <= |diff|
    ensures 0 <= ExtraUsed(ctrl, k) && ExtraUsed(ctrl, k + 1) <= |extra|
  {
  }

  lemma CountedAt(ctrl: seq<Triple>, k: nat)
    requires k < |ctrl| && Counted(ctrl)
    ensures 0 <= ctrl[k].add && 0 <= ctrl[k].copy
  {
    assert ctrl[k] in ctrl;
  }

  lemma OutputNone(text: seq<byte>, ctrl: seq<Triple>, diff: seq<byte>, extra: seq<byte>,
                   ctrl': seq<Triple>, diff': seq<byte>, extra': seq<byte>)
    requires Counted(ctrl) && Counted(ctrl') && Supplied(ctrl, diff, extra, 0) && Supplied(ctrl', diff', extra', 0)
    ensures Output(text, ctrl', diff', extra', 0) == Output(text, ctrl, diff, extra, 0)
  {
  }

  /** The streams are used front to back. */
  lemma {:induction false} UsedGrows(ctrl: seq<Triple>, j: nat, k: nat)
    requires j <= k <= |ctrl| && Counted(ctrl)
    ensures DiffUsed(ctrl, j) <= DiffUsed(ctrl, k) && ExtraUsed(ctrl, j) <= ExtraUsed(ctrl, k)
    decreases k
  {
    if j < k {
      UsedGrows(ctrl, j, k - 1);
      assert ctrl[k - 1] in ctrl;
    }
  }
}
