/** Counting keys below, equal to and above a pivot: why the three-way partition stays inside its range. */
module SuffixTally {

  /** -1, 0 or 1 as the key of the suffix is below, equal to or above x. */
  function Kind(i: int, V: seq<int>, h: int, x: int): int {
    if 0 <= i + h < |V| && V[i + h] < x then -1 else if 0 <= i + h < |V| && V[i + h] == x then 0 else 1
  }

  lemma KindMeans(i: int, V: seq<int>, h: int, x: int)
    requires 0 <= i + h < |V|
    ensures Kind(i, V, h, x) == if V[i + h] < x then -1 else if V[i + h] == x then 0 else 1
  {
  }

  function Tally(I: seq<int>, V: seq<int>, h: int, x: int, a: int, b: int, kind: int): nat
    requires 0 <= a && b <= |I|
    decreases b - a
  {
    if b <= a then 0 else Tally(I, V, h, x, a, b - 1, kind) + if Kind(I[b - 1], V, h, x) == kind then 1 else 0
  }

  lemma {:induction false} TallyTotal(I: seq<int>, V: seq<int>, h: int, x: int, a: int, b: int)
    requires 0 <= a <= b <= |I|
    ensures Tally(I, V, h, x, a, b, -1) + Tally(I, V, h, x, a, b, 0) + Tally(I, V, h, x, a, b, 1) == b - a
    decreases b - a
  {
    if a < b { TallyTotal(I, V, h, x, a, b - 1); }
  }

  lemma {:induction false} TallyJoin(I: seq<int>, V: seq<int>, h: int, x: int, a: int, m: int, b: int, kind: int)
    requires 0 <= a <= m <= b <= |I|
    ensures Tally(I, V, h, x, a, b, kind) == Tally(I, V, h, x, a, m, kind) + Tally(I, V, h, x, m, b, kind)
    decreases b - m
  {
    if m < b { TallyJoin(I, V, h, x, a, m, b - 1, kind); }
  }

  lemma {:induction false} TallyFull(I: seq<int>, V: seq<int>, h: int, x: int, a: int, b: int, kind: int)
    requires 0 <= a <= b <= |I| && forall p :: a <= p < b ==> Kind(I[p], V, h, x) == kind
    ensures Tally(I, V, h, x, a, b, kind) == b - a
    decreases b - a
  {
    if a < b { TallyFull(I, V, h, x, a, b - 1, kind); }
  }

  lemma {:induction false} TallyUpdate(I: seq<int>, V: seq<int>, h: int, x: int, a: int, b: int, kind: int, p: int, i: int)
    requires 0 <= a <= p < b <= |I|
    ensures Tally(I[p := i], V, h, x, a, b, kind) + (if Kind(I[p], V, h, x) == kind then 1 else 0)
         == Tally(I, V, h, x, a, b, kind) + (if Kind(i, V, h, x) == kind then 1 else 0)
    decreases b
  {
    if p < b - 1 {
      TallyUpdate(I, V, h, x, a, b - 1, kind, p, i);
    } else {
      TallySame(I, I[p := i], V, h, x, a, b - 1, kind);
    }
  }

  lemma {:induction false} TallySame(I: seq<int>, J: seq<int>, V: seq<int>, h: int, x: int, a: int, b: int, kind: int)
    requires |I| == |J| && 0 <= a && b <= |I| && forall p :: a <= p < b ==> I[p] == J[p]
    ensures Tally(I, V, h, x, a, b, kind) == Tally(J, V, h, x, a, b, kind)
    decreases b - a
  {
    if a < b { TallySame(I, J, V, h, x, a, b - 1, kind); }
  }

  lemma TallySwap(I: seq<int>, V: seq<int>, h: int, x: int, a: int, b: int, kind: int, p: int, q: int)
    requires 0 <= a <= p < b <= |I| && a <= q < b
    ensures Tally(I[p := I[q]][q := I[p]], V, h, x, a, b, kind) == Tally(I, V, h, x, a, b, kind)
  {
    TallyUpdate(I, V, h, x, a, b, kind, p, I[q]);
    TallyUpdate(I[p := I[q]], V, h, x, a, b, kind, q, I[p]);
  }

  /** A run of one kind and a further entry of it outside the run. */
  lemma TallyOneMore(I: seq<int>, V: seq<int>, h: int, x: int, a: int, b: int, kind: int, l: int, r: int, p: int)
    requires 0 <= a <= l <= r <= b <= |I| && forall k :: l <= k < r ==> Kind(I[k], V, h, x) == kind
    requires a <= p < b && !(l <= p < r) && Kind(I[p], V, h, x) == kind
    ensures Tally(I, V, h, x, a, b, kind) > r - l
  {
    TallyJoin(I, V, h, x, a, l, b, kind);
    TallyJoin(I, V, h, x, l, r, b, kind);
    TallyFull(I, V, h, x, l, r, kind);
    if p < l {
      TallyJoin(I, V, h, x, a, p, l, kind);
      TallyJoin(I, V, h, x, p, p + 1, l, kind);
      TallyFull(I, V, h, x, p, p + 1, kind);
    } else {
      TallyJoin(I, V, h, x, r, p, b, kind);
      TallyJoin(I, V, h, x, p, p + 1, b, kind);
      TallyFull(I, V, h, x, p, p + 1, kind);
    }
  }

  /** The partition between two steps: [a, i) is below, [jj, jj + j) equal and [kk, kk + k) above;
      the bounds jj and kk are the counts over the whole range. */
  ghost predicate Parting(I: seq<int>, V: seq<int>, h: int, x: int, a: int, i: int, jj: int, j: int, kk: int,
                          k: int, b: int) {
    && 0 <= a <= i <= jj <= jj + j <= kk <= kk + k <= b <= |I|
    && (forall p :: a <= p < i ==> Kind(I[p], V, h, x) == -1)
    && (forall p :: jj <= p < jj + j ==> Kind(I[p], V, h, x) == 0)
    && (forall p :: kk <= p < kk + k ==> Kind(I[p], V, h, x) == 1)
    && Tally(I, V, h, x, a, b, -1) == jj - a
    && Tally(I, V, h, x, a, b, 0) == kk - jj
  }

  lemma PartingStep(I: seq<int>, V: seq<int>, h: int, x: int, a: int, i: int, jj: int, j: int, kk: int, k: int, b: int)
    requires Parting(I, V, h, x, a, i, jj, j, kk, k, b) && i < jj
    ensures Kind(I[i], V, h, x) == -1 ==> Parting(I, V, h, x, a, i + 1, jj, j, kk, k, b)
    ensures Kind(I[i], V, h, x) == 0 ==>
      jj + j < kk && Parting(I[i := I[jj + j]][jj + j := I[i]], V, h, x, a, i, jj, j + 1, kk, k, b)
    ensures Kind(I[i], V, h, x) == 1 ==>
      kk + k < b && Parting(I[i := I[kk + k]][kk + k := I[i]], V, h, x, a, i, jj, j, kk, k + 1, b)
  {
    hide Tally, Kind;
    TallyTotal(I, V, h, x, a, b);
    if Kind(I[i], V, h, x) == 0 {
      TallyOneMore(I, V, h, x, a, b, 0, jj, jj + j, i);
      TallySwap(I, V, h, x, a, b, -1, i, jj + j);
      TallySwap(I, V, h, x, a, b, 0, i, jj + j);
    } else if Kind(I[i], V, h, x) == 1 {
      TallyOneMore(I, V, h, x, a, b, 1, kk, kk + k, i);
      TallySwap(I, V, h, x, a, b, -1, i, kk + k);
      TallySwap(I, V, h, x, a, b, 0, i, kk + k);
    }
  }

  lemma PartingStep2(I: seq<int>, V: seq<int>, h: int, x: int, a: int, jj: int, j: int, kk: int, k: int, b: int)
    requires Parting(I, V, h, x, a, jj, jj, j, kk, k, b) && jj + j < kk
    ensures Kind(I[jj + j], V, h, x) == 0 ==> Parting(I, V, h, x, a, jj, jj, j + 1, kk, k, b)
    ensures Kind(I[jj + j], V, h, x) != 0 ==>
      kk + k < b && Parting(I[jj + j := I[kk + k]][kk + k := I[jj + j]], V, h, x, a, jj, jj, j, kk, k + 1, b)
  {
    hide Tally;
    TallyTotal(I, V, h, x, a, b);
    if Kind(I[jj + j], V, h, x) == -1 {
      TallyOneMore(I, V, h, x, a, b, -1, a, jj, jj + j);
    } else if Kind(I[jj + j], V, h, x) == 1 {
      TallyOneMore(I, V, h, x, a, b, 1, kk, kk + k, jj + j);
      TallySwap(I, V, h, x, a, b, -1, jj + j, kk + k);
      TallySwap(I, V, h, x, a, b, 0, jj + j, kk + k);
    }
  }

  lemma PartingStart(I: seq<int>, V: seq<int>, h: int, x: int, a: int, b: int, p: int)
    requires 0 <= a <= p < b <= |I| && Kind(I[p], V, h, x) == 0
    ensures Tally(I, V, h, x, a, b, 0) >= 1
    ensures var jj := a + Tally(I, V, h, x, a, b, -1);
            Parting(I, V, h, x, a, a, jj, 0, jj + Tally(I, V, h, x, a, b, 0), 0, b)
  {
    TallyTotal(I, V, h, x, a, b);
    TallyOneMore(I, V, h, x, a, b, 0, a, a, p);
  }

  /** When the first two parts are full, the rest is above. */
  lemma PartingDone(I: seq<int>, V: seq<int>, h: int, x: int, a: int, jj: int, kk: int, k: int, b: int)
    requires Parting(I, V, h, x, a, jj, jj, kk - jj, kk, k, b)
    ensures forall p :: kk <= p < b ==> Kind(I[p], V, h, x) == 1
  {
    hide Tally;
    forall p | kk <= p < b ensures Kind(I[p], V, h, x) == 1 {
      if Kind(I[p], V, h, x) == -1 {
        TallyOneMore(I, V, h, x, a, b, -1, a, jj, p);
      } else if Kind(I[p], V, h, x) == 0 {
        TallyOneMore(I, V, h, x, a, b, 0, jj, kk, p);
      }
    }
  }
}
