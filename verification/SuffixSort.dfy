/** The in-place suffix sort of the binary differ. */
module SuffixSort {
  import opened Bytes
  import opened SuffixOrder
  import opened SuffixGroups
  import opened SuffixTally

  ghost predicate Untouched(I0: seq<int>, I: seq<int>, a: int, b: int) {
    |I0| == |I| && forall p :: 0 <= p < |I| && !(a <= p < b) ==> I[p] == I0[p]
  }

  /** [a, b) is being refined, and (I0, s0) was the state when that began. */
  ghost predicate Working(text: seq<byte>, I0: seq<int>, s0: Shadow, I: seq<int>, V: seq<int>, s: Shadow,
                          h: nat, a: int, b: int)
  {
    && State(text, I, V, s, h)
    && Pending(text, I, s, a, b)
    && |s0.order| == |s0.last| == |s.order|
    && Within(s0, s, a, b)
    && Untouched(I0, I, a, b)
    && s.last == s0.last
  }

  lemma Exchanged(text: seq<byte>, I0: seq<int>, s0: Shadow, I: seq<int>, V: seq<int>, s: Shadow,
                  h: nat, lo: int, hi: int, a: int, b: int)
    requires Working(text, I0, s0, I, V, s, h, lo, hi) && lo <= a < hi && lo <= b < hi
    ensures 0 <= a < |s.order| && 0 <= b < |s.order| && |I| == |s.order| && Inverse(s.order, s.slot)
    ensures Working(text, I0, s0, I[a := I[b]][b := I[a]], V, Exchange(s, a, b), h, lo, hi)
  {
    hide Ordered, Alike, Entries, Leads, Numbered;
    ExchangeState(text, I, V, s, h, a, b);
    ExchangePending(text, I, s, lo, hi, a, b);
    ExchangeWithin(s0, s, lo, hi, a, b);
  }

  lemma InReach(text: seq<byte>, I0: seq<int>, s0: Shadow, I: seq<int>, V: seq<int>, s: Shadow, h: nat, a: int, b: int)
    requires Working(text, I0, s0, I, V, s, h, a, b)
    ensures 0 <= a <= b <= |I| == |V| && Inverse(s.order, s.slot) && |s.order| == |I|
    ensures forall p :: a <= p < b ==> 0 <= I[p] == s.order[p] && I[p] + h < |V|
  {
  }

  lemma GatherStart(text: seq<byte>, I: seq<int>, s: Shadow, V: seq<int>, h: nat, a: int, b: int)
    requires Working(text, I, s, I, V, s, h, a, b) && a < b
    ensures 0 <= a < |I| && 0 <= I[a] && I[a] + h < |V| && Gathered(I, V, h, a, a + 1, a + 1, b, V[I[a] + h])
  {
    InReach(text, I, s, I, V, s, h, a, b);
  }

  /** Once the keys of [a, m) equal x and those of [m, b) exceed it, [a, m) is a group of its own. */
  lemma FrontDone(text: seq<byte>, I0: seq<int>, s0: Shadow, I: seq<int>, V: seq<int>, s: Shadow,
                  h: nat, a: int, m: int, b: int, x: int)
    requires Working(text, I0, s0, I, V, s, h, a, b) && Gathered(I, V, h, a, m, b, b, x)
    ensures Pending(text, I, s, a, m) && Uniform(text, s, h + h, a, m)
  {
    hide Ordered, Alike, Entries, Numbered, Groups, Inverse, Within, Leads, Untouched;
    InReach(text, I0, s0, I, V, s, h, a, b);
    FrontLeads(text, I, V, s, h, a, m, b);
    EqualKeysUniform(text, I, V, s, h, a, m);
  }

  /** Keys so far: [k, m) hold x, [m, to) hold more, and all of [k, end) is in reach. */
  ghost predicate Gathered(I: seq<int>, V: seq<int>, h: int, k: int, m: int, to: int, end: int, x: int) {
    && 0 <= k <= m <= to <= end <= |I|
    && (forall p :: k <= p < end ==> 0 <= I[p] && 0 <= I[p] + h < |V|)
    && (forall p :: k <= p < m ==> V[I[p] + h] == x)
    && (forall p :: m <= p < to ==> V[I[p] + h] > x)
  }

  lemma GatherSwap(I: seq<int>, V: seq<int>, h: int, k: int, m: int, to: int, end: int, x: int)
    requires Gathered(I, V, h, k, m, to, end, x) && to < end && V[I[to] + h] == x
    ensures Gathered(I[m := I[to]][to := I[m]], V, h, k, m + 1, to + 1, end, x)
  {
  }

  lemma GatherLess(I: seq<int>, V: seq<int>, h: int, k: int, m: int, to: int, end: int, x: int)
    requires Gathered(I, V, h, k, m, to, end, x) && to < end
    ensures 0 <= I[to] && 0 <= I[to] + h < |V|
    ensures V[I[to] + h] < x ==> Gathered(I, V, h, k, k, to, end, V[I[to] + h])
    ensures V[I[to] + h] > x ==> Gathered(I, V, h, k, m, to + 1, end, x)
  {
  }

  /** One exchange of two open entries. */
  method Swap(ghost text: seq<byte>, I: array<int>, ghost V: seq<int>, ghost lo: int, ghost hi: int, ghost h: int,
              ghost I0: seq<int>, ghost s0: Shadow, ghost s: Shadow, a: int, b: int)
    returns (ghost t: Shadow)
    requires 0 <= h && Working(text, I0, s0, I[..], V, s, h, lo, hi)
    requires 0 <= lo <= a < hi && lo <= b < hi <= I.Length
    modifies I
    ensures Working(text, I0, s0, I[..], V, t, h, lo, hi)
    ensures I[..] == old(I[..])[a := old(I[b])][b := old(I[a])]
  {
    hide *;
    Exchanged(text, I0, s0, I[..], V, s, h, lo, hi, a, b);
    t := Exchange(s, a, b);
    ghost var was := I[..];
    I[a], I[b] := I[b], I[a];
    assert I[..] == was[a := was[b]][b := was[a]];
  }

  /** The inner loop of the short case: brings the smallest keys of [k, end) to the front. */
  method Gather(ghost text: seq<byte>, I: array<int>, V: array<int>, k: int, end: int, h: int, ghost s: Shadow)
    returns (j: int, ghost t: Shadow)
    requires I != V && 0 <= h && k < end
    requires Working(text, I[..], s, I[..], V[..], s, h, k, end)
    modifies I
    ensures Working(text, old(I[..]), s, I[..], V[..], t, h, k, end)
    ensures 1 <= j <= end - k && Pending(text, I[..], t, k, k + j) && Uniform(text, t, h + h, k, k + j)
  {
    hide *;
    ghost var I0, W := I[..], V[..];
    t := s;
    InReach(text, I0, s, I[..], W, t, h, k, end);
    j := 1;
    var x := V[I[k] + h];
    var i := 1;
    GatherStart(text, I0, s, W, h, k, end);
    while k + i < end
      invariant 1 <= j <= i && 0 <= k && k + i <= end <= I.Length && V[..] == W
      invariant Working(text, I0, s, I[..], W, t, h, k, end)
      invariant Gathered(I[..], W, h, k, k + j, k + i, end, x)
    {
      GatherLess(I[..], W, h, k, k + j, k + i, end, x);
      var key := V[I[k + i] + h];
      if key < x {
        x, j := key, 0;
      }
      if key == x {
        GatherSwap(I[..], W, h, k, k + j, k + i, end, x);
        t := Swap(text, I, W, k, end, h, I0, s, t, k + j, k + i);
        j := j + 1;
      }
      i := i + 1;
    }
    FrontDone(text, I0, s, I[..], W, t, h, k, k + j, end, x);
  }

  lemma LeadsBehind(text: seq<byte>, s: Shadow, a: int, m: int, b: int)
    requires Shaped(text, s) && 0 <= a <= m <= b <= |s.order| && Leads(text, s, a, b)
    ensures Leads(text, s, m, b)
  {
  }

  lemma WorkingParts(text: seq<byte>, I0: seq<int>, s0: Shadow, I: seq<int>, V: seq<int>, s: Shadow, h: nat, a: int, b: int)
    requires Working(text, I0, s0, I, V, s, h, a, b)
    ensures State(text, I, V, s, h) && Shaped(text, s) && Inverse(s.order, s.slot)
    ensures |I| == |V| == |s.order| == |s.last| == |text| + 1 && 0 <= a <= b <= |I| && |s0.order| == |s0.last| == |s.order|
    ensures Open(text, I, s, a, b) && Starts(s.last, a) && Leads(text, s, a, b) && Pending(text, I, s, a, b)
    ensures Within(s0, s, a, b) && Untouched(I0, I, a, b)
    ensures forall p :: a <= p < b ==> 0 <= I[p] == s.order[p] && I[p] + h < |V|
  {
    InReach(text, I0, s0, I, V, s, h, a, b);
  }

  lemma PartedMeans(text: seq<byte>, I0: seq<int>, s0: Shadow, I: seq<int>, V: seq<int>, s: Shadow,
                    h: nat, x: int, a: int, jj: int, kk: int, b: int)
    requires Working(text, I0, s0, I, V, s, h, a, b) && a <= jj <= kk <= b
    requires forall p :: a <= p < jj ==> Kind(I[p], V, h, x) == -1
    requires forall p :: jj <= p < kk ==> Kind(I[p], V, h, x) == 0
    requires forall p :: kk <= p < b ==> Kind(I[p], V, h, x) == 1
    ensures Pending(text, I, s, a, jj) && Leads(text, s, jj, kk) && Uniform(text, s, h + h, jj, kk) && Leads(text, s, kk, b)
    ensures Open(text, I, s, jj, kk) && Open(text, I, s, kk, b)
  {
    hide *;
    WorkingParts(text, I0, s0, I, V, s, h, a, b);
    KeysParted(I, V, s, h, x, a, jj, kk, b);
    OpenPart(text, I, s, a, b, a, jj);
    OpenPart(text, I, s, a, b, jj, kk);
    OpenPart(text, I, s, a, b, kk, b);
    OpenPart(text, I, s, a, b, jj, b);
    LeadsBehind(text, s, a, jj, b);
    LeadsBehind(text, s, a, kk, b);
    FrontLeads(text, I, V, s, h, a, jj, b);
    FrontLeads(text, I, V, s, h, jj, kk, b);
    EqualKeysUniform(text, I, V, s, h, jj, kk);
    PendingIs(text, I, s, a, jj);
  }

  lemma OpenPart(text: seq<byte>, I: seq<int>, s: Shadow, a: int, b: int, c: int, d: int)
    requires Shaped(text, s) && |I| == |s.last| == |text| + 1 && Open(text, I, s, a, b) && a <= c <= d <= b
    ensures Open(text, I, s, c, d)
  {
  }

  lemma PendingIs(text: seq<byte>, I: seq<int>, s: Shadow, a: int, b: int)
    requires Shaped(text, s) && |I| == |s.order| == |s.last| == |text| + 1 && 0 <= a <= b <= |I|
    requires Open(text, I, s, a, b) && Starts(s.last, a) && Leads(text, s, a, b)
    ensures Pending(text, I, s, a, b)
  {
  }

  lemma KeysParted(I: seq<int>, V: seq<int>, s: Shadow, h: nat, x: int, a: int, jj: int, kk: int, b: int)
    requires 0 <= a <= jj <= kk <= b <= |I| == |s.order|
    requires forall p :: a <= p < b ==> 0 <= I[p] == s.order[p] && I[p] + h < |V|
    requires forall p :: a <= p < jj ==> Kind(I[p], V, h, x) == -1
    requires forall p :: jj <= p < kk ==> Kind(I[p], V, h, x) == 0
    requires forall p :: kk <= p < b ==> Kind(I[p], V, h, x) == 1
    ensures forall p, q :: a <= p < jj <= q < b ==> V[s.order[p] + h] < V[s.order[q] + h]
    ensures forall p, q :: jj <= p < kk <= q < b ==> V[s.order[p] + h] < V[s.order[q] + h]
    ensures forall p, q :: jj <= p < kk && jj <= q < kk ==> V[s.order[p] + h] == V[s.order[q] + h]
  {
  }

  /** The first loop of the partition: every entry of the first part goes where its key belongs. */
  method PartFront(ghost text: seq<byte>, ghost I0: seq<int>, I: array<int>, V: array<int>, start: int, jj: int, kk: int,
                   ghost end: int, h: int, x: int, ghost s: Shadow)
    returns (j: int, k: int, ghost t: Shadow)
    requires I != V && 0 <= h && 0 <= start <= jj <= kk <= end <= I.Length
    requires Working(text, I0, s, I[..], V[..], s, h, start, end) && Parting(I[..], V[..], h, x, start, start, jj, 0, kk, 0, end)
    modifies I
    ensures Working(text, I0, s, I[..], V[..], t, h, start, end)
    ensures 0 <= j && 0 <= k && jj + j <= kk && kk + k <= end && Parting(I[..], V[..], h, x, start, jj, jj, j, kk, k, end)
  {
    hide *;
    ghost var W := V[..];
    t := s;
    var i := start;
    j, k := 0, 0;
    while i < jj
      invariant V[..] == W && Working(text, I0, s, I[..], W, t, h, start, end)
      invariant 0 <= start <= i <= jj <= jj + j <= kk <= kk + k <= end <= I.Length
      invariant Parting(I[..], W, h, x, start, i, jj, j, kk, k, end)
      decreases (jj - i) + (kk - j) + (end - k)
    {
      InReach(text, I0, s, I[..], W, t, h, start, end);
      KindMeans(I[i], W, h, x);
      PartingStep(I[..], W, h, x, start, i, jj, j, kk, k, end);
      if V[I[i] + h] < x {
        i := i + 1;
      } else if V[I[i] + h] == x {
        t := Swap(text, I, W, start, end, h, I0, s, t, i, jj + j);
        j := j + 1;
      } else {
        t := Swap(text, I, W, start, end, h, I0, s, t, i, kk + k);
        k := k + 1;
      }
    }
  }

  /** The second loop: what is left of the middle part. */
  method PartMiddle(ghost text: seq<byte>, ghost I0: seq<int>, I: array<int>, V: array<int>, ghost start: int, jj: int, kk: int,
                    ghost end: int, h: int, x: int, j0: int, k0: int, ghost s: Shadow, ghost t0: Shadow)
    returns (ghost k: int, ghost t: Shadow)
    requires I != V && 0 <= h && 0 <= start <= jj <= jj + j0 <= kk <= kk + k0 <= end <= I.Length && 0 <= j0 && 0 <= k0
    requires Working(text, I0, s, I[..], V[..], t0, h, start, end) && Parting(I[..], V[..], h, x, start, jj, jj, j0, kk, k0, end)
    modifies I
    ensures Working(text, I0, s, I[..], V[..], t, h, start, end)
    ensures 0 <= k && kk + k <= end && Parting(I[..], V[..], h, x, start, jj, jj, kk - jj, kk, k, end)
  {
    hide *;
    ghost var W := V[..];
    t := t0;
    var j, m := j0, k0;
    while jj + j < kk
      invariant V[..] == W && Working(text, I0, s, I[..], W, t, h, start, end)
      invariant 0 <= start <= jj <= jj + j <= kk <= kk + m <= end <= I.Length
      invariant Parting(I[..], W, h, x, start, jj, jj, j, kk, m, end)
      decreases (kk - j) + (end - m)
    {
      InReach(text, I0, s, I[..], W, t, h, start, end);
      KindMeans(I[jj + j], W, h, x);
      PartingStep2(I[..], W, h, x, start, jj, j, kk, m, end);
      if V[I[jj + j] + h] == x {
        j := j + 1;
      } else {
        t := Swap(text, I, W, start, end, h, I0, s, t, jj + j, kk + m);
        m := m + 1;
      }
    }
    k := m;
  }

  /** The three-way partition of the long case, around the key of the middle entry. */
  method Partition(ghost text: seq<byte>, I: array<int>, V: array<int>, start: int, len: int, h: int, ghost s: Shadow)
    returns (jj: int, kk: int, ghost t: Shadow)
    requires I != V && 0 <= h && 0 < len
    requires Working(text, I[..], s, I[..], V[..], s, h, start, start + len)
    modifies I
    ensures Working(text, old(I[..]), s, I[..], V[..], t, h, start, start + len)
    ensures start <= jj < kk <= start + len
    ensures Pending(text, I[..], t, start, jj) && Leads(text, t, kk, start + len) && Open(text, I[..], t, kk, start + len)
    ensures Leads(text, t, jj, kk) && Uniform(text, t, h + h, jj, kk) && Open(text, I[..], t, jj, kk)
  {
    hide *;
    ghost var I0, W, end := I[..], V[..], start + len;
    InReach(text, I0, s, I[..], W, s, h, start, end);
    var x := V[I[start + len / 2] + h];
    KindMeans(I[start + len / 2], W, h, x);
    jj, kk := CountKinds(I, V, start, len, h, x);
    PartingStart(I0, W, h, x, start, end, start + len / 2);
    jj := jj + start;
    kk := kk + jj;
    var j, k;
    j, k, t := PartFront(text, I0, I, V, start, jj, kk, end, h, x, s);
    ghost var m;
    m, t := PartMiddle(text, I0, I, V, start, jj, kk, end, h, x, j, k, s, t);
    PartingDone(I[..], W, h, x, start, jj, kk, m, end);
    PartingMeans(I[..], W, h, x, start, jj, kk, m, end);
    PartedMeans(text, I0, s, I[..], W, t, h, x, start, jj, kk, end);
  }

  lemma PartingMeans(I: seq<int>, V: seq<int>, h: int, x: int, a: int, jj: int, kk: int, k: int, b: int)
    requires Parting(I, V, h, x, a, jj, jj, kk - jj, kk, k, b)
    ensures 0 <= a <= jj <= kk <= b <= |I|
    ensures forall p :: a <= p < jj ==> Kind(I[p], V, h, x) == -1
    ensures forall p :: jj <= p < kk ==> Kind(I[p], V, h, x) == 0
  {
  }

  /** The counting loop in front of the partition. */
  method CountKinds(I: array<int>, V: array<int>, start: int, len: int, h: int, x: int) returns (jj: int, kk: int)
    requires 0 <= start && 0 <= len && start + len <= I.Length
    requires forall p :: start <= p < start + len ==> 0 <= I[p] + h < V.Length
    ensures jj == Tally(I[..], V[..], h, x, start, start + len, -1)
    ensures kk == Tally(I[..], V[..], h, x, start, start + len, 0)
  {
    jj, kk := 0, 0;
    for i := start to start + len
      invariant jj == Tally(I[..], V[..], h, x, start, i, -1)
      invariant kk == Tally(I[..], V[..], h, x, start, i, 0)
    {
      if V[I[i] + h] < x { jj := jj + 1; }
      if V[I[i] + h] == x { kk := kk + 1; }
    }
  }

  /** V after the suffixes at [a, m) have been given the number of group [a, b). */
  ghost predicate Renumbering(V0: seq<int>, V: seq<int>, s: Shadow, a: int, m: int, b: int) {
    && |V| == |V0| == |s.slot|
    && forall x :: 0 <= x < |V| ==> V[x] == if a <= s.slot[x] < m then b - 1 else V0[x]
  }

  lemma RenumberingStart(text: seq<byte>, I: seq<int>, V: seq<int>, s: Shadow, h: nat, a: int, b: int)
    requires State(text, I, V, s, h) && Pending(text, I, s, a, b)
    ensures Renumbering(V, V, s, a, a, b) && 0 <= a <= b <= |I| == |V| == |s.last|
  {
  }

  lemma RenumberingStep(text: seq<byte>, I: seq<int>, V0: seq<int>, s: Shadow, h: nat, V: seq<int>, a: int, m: int, b: int)
    requires State(text, I, V0, s, h) && Pending(text, I, s, a, b) && a <= m < b && Renumbering(V0, V, s, a, m, b)
    ensures 0 <= I[m] < |V| && Renumbering(V0, V[I[m] := b - 1], s, a, m + 1, b)
  {
    hide Ordered, Alike, Leads, Groups;
    assert I[m] == s.order[m];
    forall x | 0 <= x < |V| ensures x == I[m] <==> s.slot[x] == m {
      assert s.order[s.slot[x]] == x;
    }
  }

  lemma RenumberingDone(text: seq<byte>, I: seq<int>, V0: seq<int>, s: Shadow, h: nat, V: seq<int>, a: int, b: int)
    requires State(text, I, V0, s, h) && Pending(text, I, s, a, b) && a < b && Renumbering(V0, V, s, a, b, b)
    ensures State(text, if b - a == 1 then I[a := -1] else I, V, Renumber(s, a, b), h)
    ensures Starts(Renumber(s, a, b).last, b)
  {
    hide Ordered, Alike, Leads, Groups, Entries;
    RenumberState(text, I, V0, s, h, a, b, if b - a == 1 then I[a := -1] else I, V);
  }

  /** Numbers a finished group and marks it when it is a single suffix. */
  method NumberGroup(ghost text: seq<byte>, I: array<int>, V: array<int>, a: int, b: int, ghost h: int, ghost s: Shadow)
    requires I != V && 0 <= h && a < b
    requires State(text, I[..], V[..], s, h) && Pending(text, I[..], s, a, b)
    modifies I, V
    ensures 0 <= a && b <= |s.last| && State(text, I[..], V[..], Renumber(s, a, b), h)
    ensures I[..] == if b - a == 1 then old(I[..])[a := -1] else old(I[..])
  {
    hide *;
    ghost var W, J := V[..], I[..];
    RenumberingStart(text, J, W, s, h, a, b);
    for i := a to b
      invariant I[..] == J && I.Length == V.Length && Renumbering(W, V[..], s, a, i, b)
    {
      RenumberingStep(text, J, W, s, h, V[..], a, i, b);
      ghost var was := V[..];
      V[I[i]] := b - 1;
      assert V[..] == was[J[i] := b - 1];
    }
    RenumberingDone(text, J, W, s, h, V[..], a, b);
    if a == b - 1 {
      I[a] := -1;
      assert I[..] == J[a := -1];
    }
  }

  /** What refining [a, b) up to k has achieved, from (I0, s0); the rest is still to be done. */
  ghost predicate SoFar(text: seq<byte>, I0: seq<int>, s0: Shadow, I: seq<int>, V: seq<int>, s: Shadow,
                        h: nat, a: int, k: int, b: int)
  {
    && State(text, I, V, s, h)
    && 0 <= a <= k <= b <= |I|
    && |s0.order| == |s0.last| == |s.order|
    && Within(s0, s, a, b)
    && Untouched(I0, I, a, b)
    && Refined(text, I, s, h + h, a, k)
    && Pending(text, I, s, k, b)
  }

  lemma SoFarStart(text: seq<byte>, I: seq<int>, V: seq<int>, s: Shadow, h: nat, a: int, b: int)
    requires State(text, I, V, s, h) && Pending(text, I, s, a, b)
    ensures SoFar(text, I, s, I, V, s, h, a, a, b)
    ensures Working(text, I, s, I, V, s, h, a, b)
  {
    hide Ordered, Alike, Entries, Leads, Groups;
    assert forall p :: 0 <= p < |s.order| ==> s.slot[s.order[p]] == p;
    assert Alike(text, s.order, s.last, h + h, a, a) by {
      AlikeEmpty(text, s, h + h, a);
    }
  }

  lemma AlikeEmpty(text: seq<byte>, s: Shadow, g: nat, a: int)
    requires Shaped(text, s) && 0 <= a <= |s.order|
    ensures Alike(text, s.order, s.last, g, a, a)
  {
  }

  /** Reordering inside the pending part keeps what is done. */
  lemma SoFarWorked(text: seq<byte>, I0: seq<int>, s0: Shadow, I: seq<int>, V: seq<int>, s: Shadow,
                    h: nat, a: int, k: int, b: int, I1: seq<int>, t: Shadow)
    requires SoFar(text, I0, s0, I, V, s, h, a, k, b)
    requires Working(text, I, s, I1, V, t, h, k, b)
    ensures SoFar(text, I0, s0, I1, V, t, h, a, k, b)
  {
    hide *;
    SoFarParts(text, I0, s0, I, V, s, h, a, k, b);
    WorkingParts(text, I, s, I1, V, t, h, k, b);
    WithinJoin(s0, s, t, a, b, k, b);
    UntouchedJoin(I0, I, I1, a, k, b);
    RefinedKept(text, I, s, I1, t, h + h, a, k, b);
    SoFarIs(text, I0, s0, I1, V, t, h, a, k, b);
  }

  lemma SoFarIs(text: seq<byte>, I0: seq<int>, s0: Shadow, I: seq<int>, V: seq<int>, s: Shadow, h: nat, a: int, k: int, b: int)
    requires State(text, I, V, s, h) && Shaped(text, s) && |I| == |text| + 1 && 0 <= a <= k <= b <= |I|
    requires |s0.order| == |s0.last| == |s.order|
    requires Within(s0, s, a, b) && Untouched(I0, I, a, b) && Refined(text, I, s, h + h, a, k) && Pending(text, I, s, k, b)
    ensures SoFar(text, I0, s0, I, V, s, h, a, k, b)
  {
  }

  lemma StateShaped(text: seq<byte>, I: seq<int>, V: seq<int>, s: Shadow, h: nat)
    requires State(text, I, V, s, h)
    ensures Shaped(text, s) && |I| == |V| == |s.order| == |s.last| == |text| + 1 && Inverse(s.order, s.slot)
  {
  }

  lemma UntouchedJoin(I0: seq<int>, I1: seq<int>, I: seq<int>, a: int, m: int, b: int)
    requires a <= m <= b && Untouched(I0, I1, a, b) && Untouched(I1, I, m, b)
    ensures Untouched(I0, I, a, b)
  {
  }

  /** What is done stays done when only what is behind it changes. */
  lemma RefinedKept(text: seq<byte>, I: seq<int>, s: Shadow, I1: seq<int>, t: Shadow, g: nat, a: int, k: int, b: int)
    requires Shaped(text, s) && Shaped(text, t) && |I| == |I1| == |text| + 1 && 0 <= a <= k <= b <= |I|
    requires Refined(text, I, s, g, a, k) && Within(s, t, k, b) && Untouched(I, I1, k, b)
    ensures Refined(text, I1, t, g, a, k)
  {
    hide Groups, Alike, Inverse;
    AlikeKept(text, s, t, g, a, k, b);
  }

  lemma RefinedJoin(text: seq<byte>, I: seq<int>, s: Shadow, g: nat, a: int, m: int, b: int)
    requires Shaped(text, s) && |I| == |text| + 1 && 0 <= a <= m <= b <= |I|
    requires Refined(text, I, s, g, a, m) && Refined(text, I, s, g, m, b)
    ensures Refined(text, I, s, g, a, b)
  {
    hide Groups, Alike, Inverse;
    AlikeJoin(text, s, g, a, m, b);
  }

  lemma AlikeKept(text: seq<byte>, s: Shadow, t: Shadow, g: nat, a: int, k: int, b: int)
    requires Shaped(text, s) && Shaped(text, t) && 0 <= a <= k <= b <= |s.order| && Within(s, t, k, b)
    requires Alike(text, s.order, s.last, g, a, k)
    ensures Alike(text, t.order, t.last, g, a, k)
  {
  }

  /** Renumbering the front [k, m) of the pending part adds it to what is done. */
  lemma SoFarNumbered(text: seq<byte>, I0: seq<int>, s0: Shadow, I: seq<int>, V: seq<int>, s: Shadow,
                      h: nat, a: int, k: int, m: int, b: int, I1: seq<int>, V1: seq<int>)
    requires SoFar(text, I0, s0, I, V, s, h, a, k, b) && k < m <= b
    requires Leads(text, s, k, m) && Uniform(text, s, h + h, k, m)
    requires I1 == if m - k == 1 then I[k := -1] else I
    requires State(text, I1, V1, Renumber(s, k, m), h)
    ensures SoFar(text, I0, s0, I1, V1, Renumber(s, k, m), h, a, m, b)
  {
    hide State, Leads, Refined, Uniform, Groups, Renumber, Open, Starts;
    StateShaped(text, I, V, s, h);
    StateShaped(text, I1, V1, Renumber(s, k, m), h);
    NumberedWithin(s0, s, a, k, m, b);
    NumberedRefined(text, I, s, h + h, a, k, m, b, I1);
    NumberedPending(text, I, s, k, m, b, I1);
  }

  lemma NumberedWithin(s0: Shadow, s: Shadow, a: int, k: int, m: int, b: int)
    requires |s0.order| == |s0.last| && 0 <= a <= k <= m <= b <= |s0.order| && Within(s0, s, a, b)
    ensures Within(s0, Renumber(s, k, m), a, b)
  {
  }

  lemma NumberedRefined(text: seq<byte>, I: seq<int>, s: Shadow, g: nat, a: int, k: int, m: int, b: int, I1: seq<int>)
    requires Shaped(text, s) && |I| == |text| + 1 && 0 <= a <= k < m <= b <= |I|
    requires Refined(text, I, s, g, a, k) && Uniform(text, s, g, k, m)
    requires I1 == if m - k == 1 then I[k := -1] else I
    requires Shaped(text, Renumber(s, k, m))
    ensures Refined(text, I1, Renumber(s, k, m), g, a, m)
  {
    hide Groups, Alike;
    NumberedAlike(text, I, s, g, a, k, m);
    forall p | a <= p < m && I1[p] >= 0 ensures s.order[p] + g <= |text| {
      if k <= p {
        var q := if p == k then k + 1 else k;
        assert Agree(text, s.order[p], s.order[q], g);
      }
    }
  }

  lemma NumberedPending(text: seq<byte>, I: seq<int>, s: Shadow, k: int, m: int, b: int, I1: seq<int>)
    requires Shaped(text, s) && |I| == |text| + 1 && Pending(text, I, s, k, b) && k < m <= b
    requires I1 == if m - k == 1 then I[k := -1] else I
    requires Shaped(text, Renumber(s, k, m))
    ensures Pending(text, I1, Renumber(s, k, m), m, b)
  {
    hide Groups, Inverse;
  }

  lemma NumberedAlike(text: seq<byte>, I: seq<int>, s: Shadow, g: nat, a: int, k: int, m: int)
    requires Shaped(text, s) && |I| == |text| + 1 && 0 <= a <= k < m <= |I| && Starts(s.last, k)
    requires Alike(text, s.order, s.last, g, a, k) && Uniform(text, s, g, k, m)
    ensures Alike(text, s.order, Renumber(s, k, m).last, g, a, m)
  {
    var t := Renumber(s, k, m);
    assert forall p :: 0 <= p < |t.last| ==> t.last[p] == if k <= p < m then m - 1 else s.last[p];
    forall p | 0 <= p < k ensures s.last[p] < k {
      assert s.last[p] <= s.last[k - 1];
    }
  }

  /** [a, b) has been refined, from (I0, s0). */
  ghost predicate Done(text: seq<byte>, I0: seq<int>, s0: Shadow, I: seq<int>, V: seq<int>, s: Shadow, h: nat,
                       a: int, b: int) {
    && State(text, I, V, s, h)
    && 0 <= a <= b <= |I|
    && |s0.order| == |s0.last| == |s.order|
    && Within(s0, s, a, b)
    && Untouched(I0, I, a, b)
    && Refined(text, I, s, h + h, a, b)
  }

  lemma SoFarDone(text: seq<byte>, I0: seq<int>, s0: Shadow, I: seq<int>, V: seq<int>, s: Shadow, h: nat, a: int, b: int)
    requires SoFar(text, I0, s0, I, V, s, h, a, b, b)
    ensures Done(text, I0, s0, I, V, s, h, a, b)
  {
  }

  lemma SoFarMeans(text: seq<byte>, I0: seq<int>, s0: Shadow, I: seq<int>, V: seq<int>, s: Shadow, h: nat,
                   a: int, k: int, b: int)
    requires SoFar(text, I0, s0, I, V, s, h, a, k, b)
    ensures State(text, I, V, s, h) && Pending(text, I, s, k, b) && 0 <= a <= k <= b <= |I| && |s.order| == |I|
    ensures Working(text, I, s, I, V, s, h, k, b)
  {
    hide Ordered, Alike, Entries, Leads, Groups;
    assert forall p :: 0 <= p < |s.order| ==> s.slot[s.order[p]] == p;
  }

  lemma WorkingPending(text: seq<byte>, I0: seq<int>, s0: Shadow, I: seq<int>, V: seq<int>, s: Shadow, h: nat,
                       a: int, b: int)
    requires Working(text, I0, s0, I, V, s, h, a, b)
    ensures State(text, I, V, s, h) && Pending(text, I, s, a, b)
  {
  }

  /** The short case: repeatedly take the smallest keys off the front. */
  method SplitShort(ghost text: seq<byte>, I: array<int>, V: array<int>, start: int, len: int, h: int, ghost s: Shadow)
    returns (ghost t: Shadow)
    requires I != V && 0 <= h && 0 < len
    requires State(text, I[..], V[..], s, h) && Pending(text, I[..], s, start, start + len)
    modifies I, V
    ensures Done(text, old(I[..]), s, I[..], V[..], t, h, start, start + len)
  {
    hide *;
    ghost var I0, end := I[..], start + len;
    t := s;
    SoFarStart(text, I0, V[..], s, h, start, end);
    var k := start;
    while k < start + len
      invariant start <= k <= end
      invariant SoFar(text, I0, s, I[..], V[..], t, h, start, k, end)
    {
      SoFarMeans(text, I0, s, I[..], V[..], t, h, start, k, end);
      ghost var I1, W := I[..], V[..];
      var j, u := Gather(text, I, V, k, start + len, h, t);
      SoFarWorked(text, I0, s, I1, W, t, h, start, k, end, I[..], u);
      WorkingPending(text, I1, t, I[..], W, u, h, k, end);
      PendingLeads(text, I[..], W, u, h, k, k + j);
      ghost var I2 := I[..];
      NumberGroup(text, I, V, k, k + j, h, u);
      SoFarNumbered(text, I0, s, I2, W, u, h, start, k, k + j, end, I[..], V[..]);
      t := Renumber(u, k, k + j);
      k := k + j;
    }
    SoFarDone(text, I0, s, I[..], V[..], t, h, start, end);
  }

  lemma PendingLeads(text: seq<byte>, I: seq<int>, V: seq<int>, s: Shadow, h: nat, a: int, b: int)
    requires State(text, I, V, s, h) && Pending(text, I, s, a, b)
    ensures Shaped(text, s) && 0 <= a <= b <= |s.order| && |s.order| == |I| && Leads(text, s, a, b)
  {
  }

  lemma DoneEmpty(text: seq<byte>, I0: seq<int>, s0: Shadow, I: seq<int>, V: seq<int>, s: Shadow, h: nat, a: int, b: int)
    requires Working(text, I0, s0, I, V, s, h, a, b)
    ensures Done(text, I, s, I, V, s, h, a, a)
  {
    hide Ordered, Entries, Leads, Groups;
    AlikeEmpty(text, s, h + h, a);
  }

  /** After the left part: the middle and the right part are as the partition left them. */
  lemma LeftDone(text: seq<byte>, I0: seq<int>, s0: Shadow, I1: seq<int>, V1: seq<int>, s1: Shadow,
                 I: seq<int>, V: seq<int>,
                 s: Shadow, h: nat, a: int, m: int, b: int)
    requires Working(text, I0, s0, I1, V1, s1, h, a, b) && a <= m <= b
    requires Done(text, I1, s1, I, V, s, h, a, m)
    ensures SoFar(text, I0, s0, I, V, s, h, a, m, b)
  {
    hide Ordered, Entries, Groups, Numbered, Alike;
    WithinJoin(s0, s1, s, a, b, a, m);
    assert Leads(text, s1, m, b);
    LeadsAfter(text, s1, s, a, m, m, b);
    hide Leads;
    OpenAfter(text, I1, s1, I, s, a, m, m, b);
  }

  lemma MiddlePending(text: seq<byte>, I0: seq<int>, s0: Shadow, I1: seq<int>, V1: seq<int>, s1: Shadow,
                      I: seq<int>, V: seq<int>,
                      s: Shadow, h: nat, a: int, jj: int, kk: int, b: int)
    requires Working(text, I0, s0, I1, V1, s1, h, a, b) && a <= jj <= kk <= b
    requires Done(text, I1, s1, I, V, s, h, a, jj) && SoFar(text, I0, s0, I, V, s, h, a, jj, b)
    requires Leads(text, s1, jj, kk) && Uniform(text, s1, h + h, jj, kk)
    ensures State(text, I, V, s, h) && Pending(text, I, s, jj, kk) && Leads(text, s, jj, kk) && Uniform(text, s, h + h, jj, kk)
  {
    hide Ordered, Entries, Groups, Numbered, Alike, Leads, Uniform, Refined;
    LeadsAfter(text, s1, s, a, jj, jj, kk);
  }

  lemma RightDone(text: seq<byte>, I0: seq<int>, s0: Shadow, I1: seq<int>, V1: seq<int>, s1: Shadow,
                  I: seq<int>, V: seq<int>,
                  s: Shadow, h: nat, a: int, m: int, b: int)
    requires SoFar(text, I0, s0, I1, V1, s1, h, a, m, b)
    requires Done(text, I1, s1, I, V, s, h, m, b)
    ensures Done(text, I0, s0, I, V, s, h, a, b)
  {
    hide *;
    SoFarParts(text, I0, s0, I1, V1, s1, h, a, m, b);
    DoneParts(text, I1, s1, I, V, s, h, m, b);
    WithinJoin(s0, s1, s, a, b, m, b);
    UntouchedJoin(I0, I1, I, a, m, b);
    RefinedKept(text, I1, s1, I, s, h + h, a, m, b);
    RefinedJoin(text, I, s, h + h, a, m, b);
    DoneIs(text, I0, s0, I, V, s, h, a, b);
  }

  lemma SoFarParts(text: seq<byte>, I0: seq<int>, s0: Shadow, I: seq<int>, V: seq<int>, s: Shadow, h: nat, a: int, k: int, b: int)
    requires SoFar(text, I0, s0, I, V, s, h, a, k, b)
    ensures Shaped(text, s) && Inverse(s.order, s.slot) && |I| == |s.order| == |s.last| == |text| + 1
    ensures 0 <= a <= k <= b <= |I| && |s0.order| == |s0.last| == |s.order|
    ensures Within(s0, s, a, b) && Untouched(I0, I, a, b) && Refined(text, I, s, h + h, a, k)
  {
  }

  lemma DoneParts(text: seq<byte>, I0: seq<int>, s0: Shadow, I: seq<int>, V: seq<int>, s: Shadow, h: nat, a: int, b: int)
    requires Done(text, I0, s0, I, V, s, h, a, b)
    ensures State(text, I, V, s, h) && Shaped(text, s) && |I| == |s.order| == |s.last| == |text| + 1
    ensures 0 <= a <= b <= |I| && |s0.order| == |s0.last| == |s.order|
    ensures Within(s0, s, a, b) && Untouched(I0, I, a, b) && Refined(text, I, s, h + h, a, b)
  {
  }

  lemma DoneIs(text: seq<byte>, I0: seq<int>, s0: Shadow, I: seq<int>, V: seq<int>, s: Shadow, h: nat, a: int, b: int)
    requires State(text, I, V, s, h) && Shaped(text, s) && |I| == |text| + 1 && 0 <= a <= b <= |I|
    requires |s0.order| == |s0.last| == |s.order|
    requires Within(s0, s, a, b) && Untouched(I0, I, a, b) && Refined(text, I, s, h + h, a, b)
    ensures Done(text, I0, s0, I, V, s, h, a, b)
  {
  }

  lemma StartsKept(s1: Shadow, s: Shadow, m: int, b: int)
    requires |s1.order| == |s1.last| && 0 <= m <= b <= |s1.order| && Within(s1, s, m, b) && Starts(s1.last, m)
    ensures Starts(s.last, m)
  {
  }

  lemma AlikeJoin(text: seq<byte>, s: Shadow, g: nat, a: int, m: int, b: int)
    requires Shaped(text, s) && 0 <= a <= m <= b <= |s.order| && Starts(s.last, m)
    requires Alike(text, s.order, s.last, g, a, m) && Alike(text, s.order, s.last, g, m, b)
    ensures Alike(text, s.order, s.last, g, a, b)
  {
    forall p | 0 <= p < m ensures s.last[p] < m {
      assert s.last[p] <= s.last[m - 1];
    }
  }

  /** Refines the group front [start, start + len) by the numbers h further on. */
  method Split(ghost text: seq<byte>, I: array<int>, V: array<int>, start: int, len: int, h: int, ghost s: Shadow)
    returns (ghost t: Shadow)
    requires I != V && 0 <= h && 0 < len
    requires State(text, I[..], V[..], s, h) && Pending(text, I[..], s, start, start + len)
    modifies I, V
    ensures Done(text, old(I[..]), s, I[..], V[..], t, h, start, start + len)
    decreases len
  {
    hide *;
    if len < 16 {
      t := SplitShort(text, I, V, start, len, h, s);
      return;
    }
    ghost var I0, end := I[..], start + len;
    SoFarStart(text, I0, V[..], s, h, start, end);
    var jj, kk, u := Partition(text, I, V, start, len, h, s);
    ghost var I1, W := I[..], V[..];
    WorkingPending(text, I0, s, I1, W, u, h, start, end);
    t := u;
    if jj > start {
      t := Split(text, I, V, start, jj - start, h, u);
    } else {
      DoneEmpty(text, I0, s, I1, W, u, h, start, end);
    }
    LeftDone(text, I0, s, I1, W, u, I[..], V[..], t, h, start, jj, end);
    MiddlePending(text, I0, s, I1, W, u, I[..], V[..], t, h, start, jj, kk, end);
    ghost var I2, V2, t2 := I[..], V[..], t;
    NumberGroup(text, I, V, jj, kk, h, t);
    SoFarNumbered(text, I0, s, I2, V2, t2, h, start, jj, kk, end, I[..], V[..]);
    t := Renumber(t2, jj, kk);
    if start + len > kk {
      ghost var I3, V3, t3 := I[..], V[..], t;
      SoFarMeans(text, I0, s, I3, V3, t3, h, start, kk, end);
      t := Split(text, I, V, kk, start + len - kk, h, t3);
      RightDone(text, I0, s, I3, V3, t3, I[..], V[..], t, h, start, kk, end);
    } else {
      SoFarDone(text, I0, s, I[..], V[..], t, h, start, end);
    }
  }
}
