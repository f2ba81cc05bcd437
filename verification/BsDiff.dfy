/** The differ: scan the new file, extend matches both ways, settle overlaps, emit triples. */
module BsDiff {
  import opened Bytes
  import opened SuffixOrder
  import opened SuffixArrays
  import opened DiffSearch
  import opened PatchStream
  import opened Slices

  /** Does the new byte at t agree with the old one at distance off? */
  predicate Hit(text: seq<byte>, target: seq<byte>, off: int, t: nat)
    requires t < |target|
  {
    0 <= t + off < |text| && text[t + off] == target[t]
  }

  /** How many positions of [a, b) agree at distance off. */
  function Hits(text: seq<byte>, target: seq<byte>, off: int, a: nat, b: nat): (n: nat)
    requires b <= |target|
    decreases b
  {
    if b <= a then 0 else Hits(text, target, off, a, b - 1) + if Hit(text, target, off, b - 1) then 1 else 0
  }

  lemma {:induction false} HitsSplit(text: seq<byte>, target: seq<byte>, off: int, a: nat, m: nat, b: nat)
    requires a <= m <= b <= |target|
    ensures Hits(text, target, off, a, b) == Hits(text, target, off, a, m) + Hits(text, target, off, m, b)
    decreases b
  {
    if m < b { HitsSplit(text, target, off, a, m, b - 1); }
  }

  function Found(sa: seq<int>, text: seq<byte>, target: seq<byte>, t: nat): (r: (nat, nat))
    requires Positions(text, sa) && t <= |target|
    ensures r.1 + r.0 <= |text| && t + r.0 <= |target| && text[r.1..r.1 + r.0] == target[t..t + r.0]
  {
    Search(sa, text, target, t, 0, |text|)
  }

  /** The furthest end of a match found from the positions start..t. */
  function Reach(sa: seq<int>, text: seq<byte>, target: seq<byte>, start: nat, t: nat): (e: nat)
    requires Positions(text, sa) && start <= t <= |target|
    ensures start <= e <= |target| && t + Found(sa, text, target, t).0 <= e
    decreases t
  {
    var here := t + Found(sa, text, target, t).0;
    if t == start then here else
      var before := Reach(sa, text, target, start, t - 1);
      if here > before then here else before
  }

  /** The scan stops at t: the match there is as good as the running alignment, or clearly better. */
  predicate Stops(sa: seq<int>, text: seq<byte>, target: seq<byte>, off: int, start: nat, t: nat)
    requires Positions(text, sa) && start <= t < |target|
  {
    var len := Found(sa, text, target, t).0;
    var score := Hits(text, target, off, t, Reach(sa, text, target, start, t));
    (len == score && len != 0) || len > score + 8
  }

  /** A match stops the scan when it is more than eight bytes longer than the old offset scores, or scores the same and is
      not empty; not when it is only up to eight longer, or shorter. */
  lemma StopsAt(sa: seq<int>, text: seq<byte>, target: seq<byte>, off: int, start: nat, t: nat, len: nat, score: nat)
    requires Positions(text, sa) && start <= t < |target|
    requires Found(sa, text, target, t).0 == len && Hits(text, target, off, t, Reach(sa, text, target, start, t)) == score
    ensures len >= score + 9 || 0 < len == score ==> Stops(sa, text, target, off, start, t)
    ensures score < len <= score + 8 || len < score || len == 0 ==> !Stops(sa, text, target, off, start, t)
  {
    hide Found, Hits, Reach;
  }

  /** No position of [a, b) holds a byte of the old file. */
  ghost predicate Absent(text: seq<byte>, target: seq<byte>, a: nat, b: nat)
    requires b <= |target|
  {
    forall t :: a <= t < b ==> target[t] !in text
  }

  /** Counts the agreeing positions up to the end of the new match. */
  method CountUpTo(text: seq<byte>, target: seq<byte>, off: int, scan: nat, end: nat, scsc0: nat, score0: int)
    returns (scsc: nat, score: int)
    requires scan <= end <= |target| && scsc0 <= |target| && scan + off >= 0
    requires score0 == Hits(text, target, off, scan, scsc0) && Absent(text, target, scsc0, scan)
    requires scsc0 + off >= 0
    ensures scsc == (if end > scsc0 then end else scsc0) && score == Hits(text, target, off, scan, scsc)
  {
    scsc, score := scsc0, score0;
    while scsc < end
      invariant scsc0 <= scsc <= |target| && (scsc <= end || scsc == scsc0)
      invariant score == Hits(text, target, off, scan, scsc)
    {
      if scsc + off < |text| && text[scsc + off] == target[scsc] {
        score := score + 1;
      }
      scsc := scsc + 1;
    }
  }

  /** Dropping position scan from the window: the score loses it exactly when it was counted. */
  lemma RollForward(sa: seq<int>, text: seq<byte>, target: seq<byte>, off: int, scan: nat, scsc: nat)
    requires IsSuffixArray(text, sa) && Positions(text, sa) && scan < |target| && scsc <= |target|
    requires scan + Found(sa, text, target, scan).0 <= scsc && Absent(text, target, scsc, scan)
    ensures Hits(text, target, off, scan + 1, scsc)
         == Hits(text, target, off, scan, scsc) - if Hit(text, target, off, scan) then 1 else 0
    ensures Absent(text, target, scsc, scan + 1)
  {
    SearchFinds(sa, text, target, scan);
    if scan < scsc { HitsSplit(text, target, off, scan, scan + 1, scsc); }
  }

  /** The inner scan loop. The rolling score is always the recount over [scan, scsc). */
  method ScanAhead(sa: seq<int>, text: seq<byte>, target: seq<byte>, start: nat, off: int, len0: int, pos0: int)
    returns (scan: nat, len: int, pos: int, score: int)
    requires IsSuffixArray(text, sa) && Positions(text, sa) && start <= |target| && start + off >= 0
    ensures start <= scan <= |target| && score >= 0
    ensures forall t :: start <= t < scan ==> !Stops(sa, text, target, off, start, t)
    ensures scan < |target| ==>
      && ((len == score && len != 0) || len > score + 8)
      && len > 0 && (len, pos) == Found(sa, text, target, scan)
      && score == Hits(text, target, off, scan, Reach(sa, text, target, start, scan))
    ensures scan == |target| && start < scan ==> (len, pos) == Found(sa, text, target, scan - 1)
    ensures start == |target| ==> len == len0 && pos == pos0
  {
    hide Search, Hits, Found, IsSuffixArray;
    scan, len, pos, score := start, len0, pos0, 0;
    var scsc := scan;
    EmptyWindow(text, target, off, start);
    while scan < |target|
      invariant start <= scan <= |target| && start <= scsc <= |target|
      invariant scsc == if scan == start then start else Reach(sa, text, target, start, scan - 1)
      invariant forall t :: start <= t < scan ==> !Stops(sa, text, target, off, start, t)
      invariant scan == start ==> len == len0 && pos == pos0
      invariant scan > start ==> (len, pos) == Found(sa, text, target, scan - 1)
      invariant score == Hits(text, target, off, scan, scsc)
      invariant Absent(text, target, scsc, scan)
    {
      var found := Found(sa, text, target, scan);
      len, pos := found.0, found.1;
      scsc, score := CountUpTo(text, target, off, scan, scan + len, scsc, score);
      if (len == score && len != 0) || len > score + 8 {
        return;
      }
      RollForward(sa, text, target, off, scan, scsc);
      if scan + off < |text| && text[scan + off] == target[scan] {
        score := score - 1;
      }
      scan := scan + 1;
    }
  }

  lemma EmptyWindow(text: seq<byte>, target: seq<byte>, off: int, a: nat)
    requires a <= |target|
    ensures Hits(text, target, off, a, a) == 0
  {
  }

  /** Twice the agreeing positions less the length: what an extension by n is worth. */
  function Worth(text: seq<byte>, target: seq<byte>, off: int, a: nat, b: nat): int
    requires a <= b <= |target|
  {
    2 * Hits(text, target, off, a, b) - (b - a)
  }

  /** n is the first of 0..limit where f is largest. */
  ghost predicate FirstBest(f: int -> int, n: int, limit: int) {
    && 0 <= n <= limit
    && (forall i :: 0 <= i <= limit ==> f(i) <= f(n))
    && (forall i :: 0 <= i < n ==> f(i) < f(n))
  }

  lemma BestStart(f: int -> int)
    ensures FirstBest(f, 0, 0)
  {
  }

  /** A new value replaces the best when it is greater. */
  lemma BestNext(f: int -> int, n: int, i: nat)
    requires FirstBest(f, n, i)
    ensures 0 <= n <= i && FirstBest(f, if f(i + 1) > f(n) then i + 1 else n, i + 1)
  {
  }

  ghost function ForwardWorth(text: seq<byte>, target: seq<byte>, lastscan: nat, lastpos: nat): int -> int {
    i => if 0 <= i && lastscan + i <= |target| then Worth(text, target, lastpos - lastscan, lastscan, lastscan + i) else 0
  }

  ghost function BackwardWorth(text: seq<byte>, target: seq<byte>, scan: nat, pos: nat): int -> int {
    i => if 0 <= i <= scan <= |target| then Worth(text, target, pos - scan, scan - i, scan) else 0
  }

  const OLD: seq<byte> := [1, 2, 3]
  const ENDS_WRONG: seq<byte> := [1, 2, 9]
  const BEGINS_WRONG: seq<byte> := [9, 2, 3]

  /** What extensions are worth: two for a byte that agrees, less one for each byte. */
  lemma WorthExample()
    ensures var f := ForwardWorth(OLD, ENDS_WRONG, 0, 0); f(0) == 0 && f(1) == 1 && f(2) == 2 && f(3) == 1
    ensures var f := BackwardWorth(OLD, BEGINS_WRONG, 3, 3); f(0) == 0 && f(1) == 1 && f(2) == 2 && f(3) == 1
  {
    HitsExample();
    hide Hits;
    var f, g := ForwardWorth(OLD, ENDS_WRONG, 0, 0), BackwardWorth(OLD, BEGINS_WRONG, 3, 3);
    assert f(0) == Worth(OLD, ENDS_WRONG, 0, 0, 0) && f(1) == Worth(OLD, ENDS_WRONG, 0, 0, 1);
    assert f(2) == Worth(OLD, ENDS_WRONG, 0, 0, 2) && f(3) == Worth(OLD, ENDS_WRONG, 0, 0, 3);
    assert g(0) == Worth(OLD, BEGINS_WRONG, 0, 3, 3) && g(1) == Worth(OLD, BEGINS_WRONG, 0, 2, 3);
    assert g(2) == Worth(OLD, BEGINS_WRONG, 0, 1, 3) && g(3) == Worth(OLD, BEGINS_WRONG, 0, 0, 3);
  }

  lemma HitsExample()
    ensures Hits(OLD, ENDS_WRONG, 0, 0, 0) == 0 && Hits(OLD, ENDS_WRONG, 0, 0, 1) == 1
    ensures Hits(OLD, ENDS_WRONG, 0, 0, 2) == 2 && Hits(OLD, ENDS_WRONG, 0, 0, 3) == 2
    ensures Hits(OLD, BEGINS_WRONG, 0, 3, 3) == 0 && Hits(OLD, BEGINS_WRONG, 0, 2, 3) == 1
    ensures Hits(OLD, BEGINS_WRONG, 0, 1, 3) == 2 && Hits(OLD, BEGINS_WRONG, 0, 0, 3) == 2
  {
    assert Hits(OLD, ENDS_WRONG, 0, 0, 2) == 2 by { assert Hits(OLD, ENDS_WRONG, 0, 0, 1) == 1; }
    assert Hits(OLD, BEGINS_WRONG, 0, 1, 3) == 2 by { assert Hits(OLD, BEGINS_WRONG, 0, 1, 2) == 1; }
    assert Hits(OLD, BEGINS_WRONG, 0, 0, 3) == 2 by {
      assert Hits(OLD, BEGINS_WRONG, 0, 0, 1) == 0 && Hits(OLD, BEGINS_WRONG, 0, 0, 2) == 1;
    }
  }

  /** The forward extension of the previous match. */
  method ExtendForward(text: seq<byte>, target: seq<byte>, lastscan: nat, lastpos: nat, scan: nat) returns (lenf: int)
    requires lastscan <= scan <= |target| && lastpos <= |text|
    ensures FirstBest(ForwardWorth(text, target, lastscan, lastpos), lenf, Min(scan - lastscan, |text| - lastpos))
  {
    hide FirstBest;
    ghost var f := ForwardWorth(text, target, lastscan, lastpos);
    BestStart(f);
    var s, Sf, i := 0, 0, 0;
    lenf := 0;
    assert f(0) == 0 by {
      EmptyWindow(text, target, lastpos - lastscan, lastscan);
      assert f(0) == Worth(text, target, lastpos - lastscan, lastscan, lastscan + 0);
    }
    while lastscan + i < scan && lastpos + i < |text|
      invariant 0 <= i <= Min(scan - lastscan, |text| - lastpos)
      invariant s == Hits(text, target, lastpos - lastscan, lastscan, lastscan + i)
      invariant FirstBest(f, lenf, i) && Sf * 2 - lenf == f(lenf)
    {
      if text[lastpos + i] == target[lastscan + i] { s := s + 1; }
      BestNext(f, lenf, i);
      i := i + 1;
      assert f(i) == Worth(text, target, lastpos - lastscan, lastscan, lastscan + i);
      if s * 2 - i > Sf * 2 - lenf { Sf, lenf := s, i; }
    }
  }

  lemma HitsFront(text: seq<byte>, target: seq<byte>, off: int, a: nat, b: nat)
    requires 0 < a <= b <= |target|
    ensures Hits(text, target, off, a - 1, b) == Hits(text, target, off, a, b) + if Hit(text, target, off, a - 1) then 1 else 0
  {
    HitsSplit(text, target, off, a - 1, a, b);
  }

  /** The backward extension of the new match. */
  method ExtendBackward(text: seq<byte>, target: seq<byte>, lastscan: nat, scan: nat, pos: nat) returns (lenb: int)
    requires lastscan <= scan <= |target| && pos <= |text|
    ensures FirstBest(BackwardWorth(text, target, scan, pos), lenb, Min(scan - lastscan, pos))
  {
    hide FirstBest;
    ghost var f := BackwardWorth(text, target, scan, pos);
    BestStart(f);
    var s, Sb, i := 0, 0, 1;
    lenb := 0;
    assert f(0) == 0 by {
      EmptyWindow(text, target, pos - scan, scan);
      assert f(0) == Worth(text, target, pos - scan, scan - 0, scan);
    }
    while scan >= lastscan + i && pos >= i
      invariant 1 <= i <= Min(scan - lastscan, pos) + 1
      invariant s == Hits(text, target, pos - scan, scan - (i - 1), scan)
      invariant FirstBest(f, lenb, i - 1) && Sb * 2 - lenb == f(lenb)
    {
      HitsFront(text, target, pos - scan, scan - (i - 1), scan);
      if text[pos - i] == target[scan - i] { s := s + 1; }
      assert f(i) == Worth(text, target, pos - scan, scan - i, scan);
      BestNext(f, lenb, i - 1);
      if s * 2 - i > Sb * 2 - lenb { Sb, lenb := s, i; }
      i := i + 1;
    }
  }

  /** What giving the first i bytes of the overlap at b to the previous match gains over the new one. */
  ghost function SplitGain(text: seq<byte>, target: seq<byte>, off1: int, off2: int, b: nat): int -> int {
    i => if 0 <= i && b + i <= |target| then Hits(text, target, off1, b, b + i) - Hits(text, target, off2, b, b + i) else 0
  }

  /** Where the overlap of the two extensions, [b, b + overlap), is divided. */
  method DivideOverlap(text: seq<byte>, target: seq<byte>, b: nat, overlap: nat, old1: nat, old2: nat) returns (lens: int)
    requires b + overlap <= |target| && old1 + overlap <= |text| && old2 + overlap <= |text|
    ensures FirstBest(SplitGain(text, target, old1 - b, old2 - b, b), lens, overlap)
  {
    hide FirstBest;
    ghost var f := SplitGain(text, target, old1 - b, old2 - b, b);
    var s, Ss := 0, 0;
    lens := 0;
    assert f(0) == 0 by {
      EmptyWindow(text, target, old1 - b, b);
      EmptyWindow(text, target, old2 - b, b);
    }
    BestStart(f);
    for i := 0 to overlap
      invariant s == f(i) && FirstBest(f, lens, i) && Ss == f(lens)
    {
      if target[b + i] == text[old1 + i] { s := s + 1; }
      if target[b + i] == text[old2 + i] { s := s - 1; }
      assert f(i + 1) == Hits(text, target, old1 - b, b, b + (i + 1)) - Hits(text, target, old2 - b, b, b + (i + 1));
      BestNext(f, lens, i);
      if s > Ss { Ss, lens := s, i + 1; }
    }
  }

  /** Both extensions, with their overlap divided: the piece between the two matches is covered without a gap. */
  method Fit(text: seq<byte>, target: seq<byte>, lastscan: nat, lastpos: nat, scan: nat, pos: nat)
    returns (lenf: int, lenb: int, ghost f: int, ghost b: int, ghost lens: int)
    requires lastscan <= scan <= |target| && lastpos <= |text| && pos <= |text|
    ensures FirstBest(ForwardWorth(text, target, lastscan, lastpos), f, Min(scan - lastscan, |text| - lastpos))
    ensures if scan < |target| then FirstBest(BackwardWorth(text, target, scan, pos), b, Min(scan - lastscan, pos)) else b == 0
    ensures if lastscan + f <= scan - b then lenf == f && lenb == b else
      && FirstBest(SplitGain(text, target, lastpos - lastscan, pos - scan, scan - b), lens, lastscan + f - (scan - b))
      && lastscan + lenf == scan - lenb == scan - b + lens
    ensures 0 <= lenf && 0 <= lenb <= pos && lastscan + lenf <= scan - lenb && lastpos + lenf <= |text|
    ensures scan == |target| ==> lenb == 0
  {
    hide Hits;
    lenf := ExtendForward(text, target, lastscan, lastpos, scan);
    lenb := 0;
    if scan < |target| {
      lenb := ExtendBackward(text, target, lastscan, scan, pos);
    }
    f, b, lens := lenf, lenb, 0;
    if lastscan + lenf > scan - lenb {
      var overlap := (lastscan + lenf) - (scan - lenb);
      var cut := DivideOverlap(text, target, scan - lenb, overlap, lastpos + lenf - overlap, pos - lenb);
      lens := cut;
      lenf := lenf + cut - overlap;
      lenb := lenb - cut;
    }
  }

  /** The n new bytes at a less the old ones at b. */
  function Delta(text: seq<byte>, target: seq<byte>, a: nat, b: nat, n: nat): seq<byte>
    requires a + n <= |target| && b + n <= |text|
  {
    seq(n, i requires 0 <= i < n => (target[a + i] as int - text[b + i] as int) % 256)
  }

  lemma DeltaAdded(text: seq<byte>, target: seq<byte>, a: nat, b: nat, n: nat)
    requires a + n <= |target| && b + n <= |text|
    ensures Added(text, Delta(text, target, a, b, n), b) == target[a..a + n]
  {
  }

  /** Appends the differences to db. */
  method EmitDiff(text: seq<byte>, target: seq<byte>, db: array<byte>, dblen: nat, a: nat, b: nat, n: nat)
    requires a + n <= |target| && b + n <= |text| && dblen + n <= db.Length
    modifies db
    ensures db[..dblen + n] == old(db[..dblen]) + Delta(text, target, a, b, n)
  {
    for i := 0 to n
      invariant db[..dblen + i] == old(db[..dblen]) + Delta(text, target, a, b, n)[..i]
    {
      db[dblen + i] := (target[a + i] as int - text[b + i] as int) % 256;
    }
  }

  /** Appends new bytes to eb. */
  method EmitExtra(target: seq<byte>, eb: array<byte>, eblen: nat, a: nat, n: nat)
    requires a + n <= |target| && eblen + n <= eb.Length
    modifies eb
    ensures eb[..eblen + n] == old(eb[..eblen]) + target[a..a + n]
  {
    for i := 0 to n
      invariant eb[..eblen + i] == old(eb[..eblen]) + target[a..a + i]
    {
      eb[eblen + i] := target[a + i];
    }
  }

  /** The triples so far spell the new file up to lastscan, and leave the decoder at lastpos. */
  ghost predicate Emitted(text: seq<byte>, target: seq<byte>, ctrl: seq<Triple>, diff: seq<byte>, extra: seq<byte>,
                          lastscan: nat, lastpos: nat)
  {
    && Counted(ctrl)
    && DiffUsed(ctrl, |ctrl|) == |diff|
    && ExtraUsed(ctrl, |ctrl|) == |extra|
    && lastscan <= |target|
    && Output(text, ctrl, diff, extra, |ctrl|) == target[..lastscan]
    && OldPos(ctrl, |ctrl|) == lastpos
    && InsideOld(text, ctrl)
    && forall k :: 0 <= k < |ctrl| ==> DiffUsed(ctrl, k) + ExtraUsed(ctrl, k) < |target|
  }

  lemma EmittedStep(text: seq<byte>, target: seq<byte>, ctrl: seq<Triple>, diff: seq<byte>, extra: seq<byte>,
                    lastscan: nat, lastpos: nat, lenf: nat, next: nat, nextpos: nat)
    requires Emitted(text, target, ctrl, diff, extra, lastscan, lastpos) && lastscan < |target|
    requires lastscan + lenf <= next <= |target| && lastpos + lenf <= |text| && nextpos <= |text|
    ensures Emitted(text, target, ctrl + [Triple(lenf, next - (lastscan + lenf), nextpos - (lastpos + lenf))],
                    diff + Delta(text, target, lastscan, lastpos, lenf), extra + target[lastscan + lenf..next], next, nextpos)
  {
    hide Output, Added, OldPos;
    var t := Triple(lenf, next - (lastscan + lenf), nextpos - (lastpos + lenf));
    var ctrl', diff', extra' :=
      ctrl + [t], diff + Delta(text, target, lastscan, lastpos, lenf), extra + target[lastscan + lenf..next];
    assert Counted(ctrl');
    OutputExtends(text, ctrl, diff, extra, ctrl', diff', extra', |ctrl|);
    forall k | 0 <= k < |ctrl'| ensures DiffUsed(ctrl', k) + ExtraUsed(ctrl', k) < |target| {
      UsedPrefix(ctrl, ctrl', k);
    }
    assert InsideOld(text, ctrl') by {
      forall k | 0 <= k <= |ctrl| ensures OldPos(ctrl', k) == OldPos(ctrl, k) { UsedPrefix(ctrl, ctrl', k); }
      OutputSnoc(text, ctrl, diff, extra, t, Delta(text, target, lastscan, lastpos, lenf), target[lastscan + lenf..next]);
    }
    DeltaAdded(text, target, lastscan, lastpos, lenf);
    OutputSnoc(text, ctrl, diff, extra, t, Delta(text, target, lastscan, lastpos, lenf), target[lastscan + lenf..next]);
    assert target[..next] == target[..lastscan] + target[lastscan..lastscan + lenf] + target[lastscan + lenf..next];
  }

  lemma CountedSnoc(ctrl: seq<Triple>, t: Triple)
    requires Counted(ctrl) && t.add >= 0 && t.copy >= 0
    ensures Counted(ctrl + [t])
  {
  }

  /** One triple more. */
  lemma OutputSnoc(text: seq<byte>, ctrl: seq<Triple>, diff: seq<byte>, extra: seq<byte>, t: Triple,
                   d: seq<byte>, e: seq<byte>)
    requires Counted(ctrl) && DiffUsed(ctrl, |ctrl|) == |diff| && ExtraUsed(ctrl, |ctrl|) == |extra|
    requires t.add == |d| && t.copy == |e|
    ensures Counted(ctrl + [t]) && DiffUsed(ctrl + [t], |ctrl| + 1) == |diff + d| && ExtraUsed(ctrl + [t], |ctrl| + 1) == |extra + e|
    ensures Output(text, ctrl + [t], diff + d, extra + e, |ctrl| + 1)
         == Output(text, ctrl, diff, extra, |ctrl|) + Added(text, d, OldPos(ctrl, |ctrl|)) + e
    ensures OldPos(ctrl + [t], |ctrl| + 1) == OldPos(ctrl, |ctrl|) + t.add + t.seek
  {
    hide Added, Counted, Output, DiffUsed, ExtraUsed, OldPos;
    CountedSnoc(ctrl, t);
    OutputExtends(text, ctrl, diff, extra, ctrl + [t], diff + d, extra + e, |ctrl|);
    var more := ctrl + [t];
    assert more[|ctrl|] == t;
    UsedUnfolds(more, |ctrl|);
    OutputUnfolds(text, more, diff + d, extra + e, |ctrl|);
    SliceRight(diff, d, |diff|, |diff| + |d|);
    SliceRight(extra, e, |extra|, |extra| + |e|);
    assert d[0..|d|] == d && e[0..|e|] == e;
  }

  lemma {:induction false} UsedPrefix(ctrl: seq<Triple>, ctrl': seq<Triple>, k: nat)
    requires ctrl <= ctrl' && k <= |ctrl|
    ensures DiffUsed(ctrl', k) == DiffUsed(ctrl, k) && ExtraUsed(ctrl', k) == ExtraUsed(ctrl, k)
    ensures OldPos(ctrl', k) == OldPos(ctrl, k)
  {
    if k > 0 { UsedPrefix(ctrl, ctrl', k - 1); }
  }

  lemma EmittedNone(text: seq<byte>, target: seq<byte>)
    ensures Emitted(text, target, [], [], [], 0, 0)
  {
  }

  lemma EmittedAll(text: seq<byte>, target: seq<byte>, ctrl: seq<Triple>, diff: seq<byte>, extra: seq<byte>, lastpos: nat)
    requires Emitted(text, target, ctrl, diff, extra, |target|, lastpos)
    ensures Spells(text, target, ctrl, diff, extra)
  {
  }

  /** Triples, diff bytes and extra bytes that turn text into target, for every text and target. */
  method Diff(text: seq<byte>, target: seq<byte>) returns (ctrl: seq<Triple>, diff: seq<byte>, extra: seq<byte>)
    ensures Spells(text, target, ctrl, diff, extra) && |ctrl| <= |target| + 1
  {
    var I := new int[|text| + 1];
    var V := new int[|text| + 1];
    QSufSort(text, I, V);
    ctrl, diff, extra := DiffWith(I[..], text, target);
  }

  /** The scanning part, with the suffixes of text already sorted. */
  method DiffWith(sa: seq<int>, text: seq<byte>, target: seq<byte>)
    returns (ctrl: seq<Triple>, diff: seq<byte>, extra: seq<byte>)
    requires IsSuffixArray(text, sa)
    ensures Spells(text, target, ctrl, diff, extra) && |ctrl| <= |target| + 1
  {
    hide Search, Found, Stops, Reach, Hits, IsSuffixArray, Emitted, FirstBest, Spells;
    SuffixPositions(text, sa);
    var db, eb := new byte[|target| + 1], new byte[|target| + 1];
    var dblen, eblen := 0, 0;
    ctrl := [];
    var scan, len, pos, lastscan, lastpos, lastoffset := 0, 0, 0, 0, 0, 0;
    EmittedNone(text, target);
    assert db[..0] == [] && eb[..0] == [];
    while scan < |target|
      invariant 0 <= lastscan <= scan <= |target| && 0 <= lastpos <= |text| && 0 <= pos <= |text|
      invariant 0 <= len && (scan < |target| ==> scan + len <= |target|) && scan + lastoffset >= 0
      invariant 0 <= dblen && 0 <= eblen && dblen + eblen == lastscan && db.Length == eb.Length == |target| + 1 && db != eb
      invariant Emitted(text, target, ctrl, db[..dblen], eb[..eblen], lastscan, lastpos)
      invariant scan == |target| ==> lastscan == |target|
      invariant |ctrl| <= scan + 1 && (0 < |ctrl| && scan < |target| ==> 0 < len)
      decreases if scan < |target| then |target| - scan - len + 1 else 0
    {
      var oldscore;
      scan, len, pos, oldscore := ScanAhead(sa, text, target, scan + len, lastoffset, len, pos);
      if len != oldscore || scan == |target| {
        var lenf, lenb, f, b, lens := Fit(text, target, lastscan, lastpos, scan, pos);
        EmittedStep(text, target, ctrl, db[..dblen], eb[..eblen], lastscan, lastpos, lenf, scan - lenb, pos - lenb);
        EmitDiff(text, target, db, dblen, lastscan, lastpos, lenf);
        EmitExtra(target, eb, eblen, lastscan + lenf, (scan - lenb) - (lastscan + lenf));
        dblen := dblen + lenf;
        eblen := eblen + ((scan - lenb) - (lastscan + lenf));
        ctrl := ctrl + [Triple(lenf, (scan - lenb) - (lastscan + lenf), (pos - lenb) - (lastpos + lenf))];
        lastscan, lastpos, lastoffset := scan - lenb, pos - lenb, pos - scan;
      }
    }
    EmittedAll(text, target, ctrl, db[..dblen], eb[..eblen], lastpos);
    diff, extra := db[..dblen], eb[..eblen];
  }

  lemma SuffixPositions(text: seq<byte>, sa: seq<int>)
    requires IsSuffixArray(text, sa)
    ensures Positions(text, sa)
  {
  }
}
