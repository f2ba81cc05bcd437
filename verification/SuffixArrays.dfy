/** The whole suffix sort: bucket phase, doubling passes and the final inversion. */
module SuffixArrays {
  import opened Bytes
  import opened SuffixOrder
  import opened SuffixGroups
  import opened SuffixBuckets
  import opened SuffixSort

  /** The five loops over the 256 buckets, up to the placing of the suffixes: each bucket now ends
      at its last used slot, and every suffix sits in its slot. */
  method PlaceSuffixes(text: seq<byte>, I: array<int>) returns (buckets: array<int>)
    requires I.Length == |text| + 1
    modifies I
    ensures fresh(buckets) && buckets.Length == 256
    ensures forall c :: 0 <= c < 256 ==> buckets[c] == Smaller(text, c + 1)
    ensures Filled(text, I[..], |text|)
  {
    buckets := new int[256](_ => 0);
    CountBytes(text, buckets);
    for i := 1 to 256
      invariant forall c :: 0 <= c < i ==> buckets[c] == Smaller(text, c + 1)
      invariant forall c :: i <= c < 256 ==> buckets[c] == Occurs(text, c, |text|)
    {
      buckets[i] := buckets[i] + buckets[i - 1];
    }
    for i := 256 downto 1
      invariant forall c :: 0 <= c < i ==> buckets[c] == Smaller(text, c + 1)
      invariant forall c :: i <= c < 256 ==> buckets[c] == Smaller(text, c)
    {
      buckets[i] := buckets[i - 1];
    }
    buckets[0] := 0;
    FillSlots(text, I, buckets);
  }

  method CountBytes(text: seq<byte>, buckets: array<int>)
    requires buckets.Length == 256 && forall c :: 0 <= c < 256 ==> buckets[c] == 0
    modifies buckets
    ensures forall c :: 0 <= c < 256 ==> buckets[c] == Occurs(text, c, |text|)
  {
    for i := 0 to |text|
      invariant forall c :: 0 <= c < 256 ==> buckets[c] == Occurs(text, c, i)
    {
      buckets[text[i]] := buckets[text[i]] + 1;
    }
  }

  /** The suffixes before n sit in their slots. */
  ghost predicate Filled(text: seq<byte>, I: seq<int>, n: nat)
    requires n <= |text|
  {
    |I| == |text| + 1 && forall k :: 0 <= k < n ==> 0 < SlotOf(text, k) <= |text| && I[SlotOf(text, k)] == k
  }

  lemma FillOne(text: seq<byte>, I: seq<int>, n: nat)
    requires n < |text| && Filled(text, I, n)
    ensures 0 < SlotOf(text, n) <= |text| && Filled(text, I[SlotOf(text, n) := n], n + 1)
    ensures SlotOf(text, n) == Smaller(text, text[n]) + Occurs(text, text[n], n) + 1
  {
    hide SlotOf;
    SlotFacts(text, n);
    forall k | 0 <= k < n ensures SlotOf(text, k) != SlotOf(text, n) {
      SlotOrder(text, k, n);
    }
  }

  lemma SlotFacts(text: seq<byte>, i: nat)
    requires i < |text|
    ensures 0 < SlotOf(text, i) == Smaller(text, text[i]) + Occurs(text, text[i], i) + 1 <= |text|
  {
    SlotInBucket(text, i);
  }

  lemma OccursEnds(text: seq<byte>)
    ensures forall c: nat :: Occurs(text, c, 0) == 0
    ensures forall c: nat :: Smaller(text, c + 1) == Smaller(text, c) + Occurs(text, c, |text|)
  {
  }

  lemma OccursNext(text: seq<byte>, i: nat)
    requires i < |text|
    ensures forall c: int :: Occurs(text, c, i + 1) == Occurs(text, c, i) + (if c == text[i] then 1 else 0)
  {
  }

  method FillSlots(text: seq<byte>, I: array<int>, buckets: array<int>)
    requires I.Length == |text| + 1 && buckets.Length == 256 && I != buckets
    requires forall c :: 0 <= c < 256 ==> buckets[c] == Smaller(text, c)
    modifies I, buckets
    ensures forall c :: 0 <= c < 256 ==> buckets[c] == Smaller(text, c + 1)
    ensures Filled(text, I[..], |text|)
  {
    hide SlotOf, Filled, Occurs, Smaller;
    OccursEnds(text);
    FilledNone(text, I[..]);
    for i := 0 to |text|
      invariant forall c :: 0 <= c < 256 ==> buckets[c] == Smaller(text, c) + Occurs(text, c, i)
      invariant Filled(text, I[..], i)
    {
      FillOne(text, I[..], i);
      OccursNext(text, i);
      ghost var was := I[..];
      var c := text[i];
      buckets[c] := buckets[c] + 1;
      I[buckets[c]] := i;
      assert I[..] == was[SlotOf(text, i) := i];
    }
  }

  lemma FilledNone(text: seq<byte>, I: seq<int>)
    requires |I| == |text| + 1
    ensures Filled(text, I, 0)
  {
  }

  /** Everything before the doubling passes. */
  method Begin(text: seq<byte>, I: array<int>, V: array<int>) returns (ghost s: Shadow)
    requires I != V && I.Length == V.Length == |text| + 1
    modifies I, V
    ensures State(text, I[..], V[..], s, 1) && I[0] == -1
  {
    hide SlotOf, Smaller, Filled, Laid, Bucketed, Marked, State;
    var buckets := PlaceSuffixes(text, I);
    ghost var placed := I[..];
    I[0] := |text|;
    ghost var order := I[..];
    assert order == placed[0 := |text|];
    FilledBucketed(text, placed);
    BucketedInverse(text, order);
    for i := 0 to |text|
      invariant forall k :: 0 <= k < i ==> V[k] == Smaller(text, text[k] as int + 1)
      invariant forall c :: 0 <= c < 256 ==> buckets[c] == Smaller(text, c + 1)
      invariant I[..] == order
    {
      V[i] := buckets[text[i]];
    }
    V[|text|] := 0;
    ghost var numbers := V[..];
    assert forall k :: 0 <= k <= |text| ==> numbers[k] == LastOf(text, k);
    MarkedStart(text, order);
    for i := 1 to 256
      invariant V[..] == numbers
      invariant Marked(text, I[..], FirstShadow(text, order))
      invariant forall c :: 0 <= c < 256 ==> buckets[c] == Smaller(text, c + 1)
    {
      if buckets[i] == buckets[i - 1] + 1 {
        ghost var was := I[..];
        MarkOne(text, was, order, i);
        I[buckets[i]] := -1;
        assert I[..] == was[Smaller(text, i + 1) := -1];
      }
    }
    ghost var was := I[..];
    MarkFirst(text, was, order);
    I[0] := -1;
    assert I[..] == was[0 := -1];
    s := FirstShadow(text, order);
    BucketState(text, I[..], V[..], order);
  }

  lemma FilledBucketed(text: seq<byte>, I: seq<int>)
    requires Filled(text, I, |text|)
    ensures |I| == |text| + 1 && Bucketed(text, I[0 := |text|])
  {
  }

  /** One doubling pass, up to position i: what lies before is refined, and the last len positions
      before i are finished but not yet recorded as one run. */
  ghost predicate Passing(text: seq<byte>, I: seq<int>, V: seq<int>, s: Shadow, h: nat, i: int, len: int) {
    && State(text, I, V, s, h)
    && 0 <= len <= i <= |I|
    && Starts(s.last, i)
    && Refined(text, I, s, h + h, 0, i)
    && AllSingle(s.last, i - len, i) && Negative(I, i - len, i)
    && (h > |text| ==> len == i)
  }

  lemma PassStart(text: seq<byte>, I: seq<int>, V: seq<int>, s: Shadow, h: nat)
    requires State(text, I, V, s, h)
    ensures Passing(text, I, V, s, h, 0, 0)
  {
  }

  /** Skipping a recorded run. */
  lemma PassSkip(text: seq<byte>, I: seq<int>, V: seq<int>, s: Shadow, h: nat, i: int, len: int)
    requires Passing(text, I, V, s, h, i, len) && i < |I| && I[i] < 0
    ensures Passing(text, I, V, s, h, i - I[i], len - I[i])
  {
    hide Ordered, Inverse, Groups, Numbered;
    var j := i - I[i];
    assert AllSingle(s.last, i, j) && Negative(I, i, j);
    assert Starts(s.last, j) by { assert Single(s.last, j - 1); }
    assert AllSingle(s.last, i - len, j);
    SkipAlike(text, s, h + h, i, j);
  }

  lemma SkipAlike(text: seq<byte>, s: Shadow, g: nat, i: int, j: int)
    requires Shaped(text, s) && 0 <= i <= j <= |s.order| && Starts(s.last, i)
    requires Alike(text, s.order, s.last, g, 0, i) && AllSingle(s.last, i, j)
    ensures Alike(text, s.order, s.last, g, 0, j)
  {
    forall p | 0 <= p < i ensures s.last[p] < i {
      assert s.last[p] <= s.last[i - 1];
    }
    forall p | i <= p < j ensures s.last[p] == p {
      assert Single(s.last, p);
    }
  }

  /** Recording a run at its head keeps the state. */
  lemma RecordRun(text: seq<byte>, I: seq<int>, V: seq<int>, s: Shadow, h: nat, i: int, len: int)
    requires Passing(text, I, V, s, h, i, len) && 0 < len
    ensures 0 <= i - len < |I| && Passing(text, I[i - len := -len], V, s, h, i, len)
  {
    hide Ordered, Inverse, Groups, Numbered, Alike, Starts;
    var J := I[i - len := -len];
    forall p | 0 <= p < |I| && J[p] < 0 ensures p - J[p] <= |J| && AllSingle(s.last, p, p - J[p]) && Negative(J, p, p - J[p]) {
      assert I[p] < 0;
    }
  }

  /** An open entry starts a group that is wholly pending. */
  lemma GroupPending(text: seq<byte>, I: seq<int>, V: seq<int>, s: Shadow, h: nat, i: int, len: int)
    requires Passing(text, I, V, s, h, i, len) && i < |I| && I[i] >= 0
    ensures 0 <= I[i] < |V| && i <= V[I[i]] < |I| && Pending(text, I, s, i, V[I[i]] + 1) && h <= |text|
  {
    hide Ordered, Inverse, Alike;
    assert V[I[i]] == s.last[i];
    forall p | 0 <= p < |I| && I[p] < 0 ensures Single(s.last, p) {
      assert AllSingle(s.last, p, p - I[p]);
    }
    forall p | i <= p <= s.last[i] ensures I[p] >= 0 && s.last[p] == s.last[i] {
      assert s.last[i] <= s.last[p] <= s.last[s.last[i]];
      if i < p {
        assert s.last[i] <= s.last[p - 1];
        assert !Single(s.last, p);
      }
    }
  }

  /** After the group has been refined. */
  lemma PassGroup(text: seq<byte>, I0: seq<int>, V0: seq<int>, s0: Shadow, h: nat, i: int, len: int,
                  I: seq<int>, V: seq<int>, s: Shadow, j: int)
    requires Passing(text, I0, V0, s0, h, i, len) && i < j && h <= |text|
    requires Done(text, I0, s0, I, V, s, h, i, j)
    ensures Passing(text, I, V, s, h, j, 0)
  {
    hide Ordered, Inverse, Groups, Numbered, Alike, Entries;
    StartsKept(s0, s, i, j);
    AlikeKept(text, s0, s, h + h, 0, i, j);
    AlikeJoin(text, s, h + h, 0, i, j);
  }

  /** A finished pass has doubled the prefix length. */
  lemma PassEnd(text: seq<byte>, I: seq<int>, V: seq<int>, s: Shadow, h: nat, len: int)
    requires Passing(text, I, V, s, h, |text| + 1, len)
    ensures State(text, I, V, s, h + h)
  {
    hide Ordered, Inverse, Groups, Numbered, Alike, Starts;
  }

  lemma PassBounds(text: seq<byte>, I: seq<int>, V: seq<int>, s: Shadow, h: nat, i: int, len: int)
    requires Passing(text, I, V, s, h, i, len)
    ensures 0 <= len <= i <= |I| == |V| == |text| + 1 && (h > |text| ==> len == i)
    ensures State(text, I, V, s, h)
  {
  }

  /** One pass of the doubling loop. */
  method Pass(text: seq<byte>, I: array<int>, V: array<int>, h: int, ghost s: Shadow) returns (ghost t: Shadow)
    requires I != V && 0 < h && I.Length == |text| + 1
    requires State(text, I[..], V[..], s, h)
    modifies I, V
    ensures State(text, I[..], V[..], t, h + h)
    ensures h > |text| ==> I[0] == -(|text| + 1)
  {
    hide *;
    var len, i := 0, 0;
    t := s;
    PassStart(text, I[..], V[..], s, h);
    while i < |text| + 1
      invariant 0 <= i <= |text| + 1 && Passing(text, I[..], V[..], t, h, i, len)
      decreases |text| + 1 - i
    {
      PassBounds(text, I[..], V[..], t, h, i, len);
      if I[i] < 0 {
        PassSkip(text, I[..], V[..], t, h, i, len);
        len, i := len - I[i], i - I[i];
        PassBounds(text, I[..], V[..], t, h, i, len);
      } else {
        if len != 0 {
          Record(text, I, V, t, h, i, len);
        }
        PassBounds(text, I[..], V[..], t, h, i, len);
        GroupPending(text, I[..], V[..], t, h, i, len);
        ghost var run := len;
        len := V[I[i]] + 1 - i;
        ghost var I0, V0, s0 := I[..], V[..], t;
        t := Split(text, I, V, i, len, h, t);
        PassGroup(text, I0, V0, s0, h, i, run, I[..], V[..], t, i + len);
        i := i + len;
        len := 0;
        PassBounds(text, I[..], V[..], t, h, i, len);
      }
    }
    PassBounds(text, I[..], V[..], t, h, i, len);
    if len != 0 {
      Record(text, I, V, t, h, i, len);
    }
    PassEnd(text, I[..], V[..], t, h, len);
  }

  /** Writes the length of the run of finished positions that ends at i to the head of the run. */
  method Record(ghost text: seq<byte>, I: array<int>, ghost V: array<int>, ghost t: Shadow, ghost h: int, i: int, len: int)
    requires I != V && 0 <= h && len != 0 && Passing(text, I[..], V[..], t, h, i, len)
    modifies I
    ensures 0 <= i - len < I.Length && I[i - len] == -len && Passing(text, I[..], V[..], t, h, i, len)
    ensures forall p :: i <= p < I.Length ==> I[p] == old(I[p])
  {
    hide *;
    PassBounds(text, I[..], V[..], t, h, i, len);
    RecordRun(text, I[..], V[..], t, h, i, len);
    ghost var was := I[..];
    I[i - len] := -len;
    assert I[..] == was[i - len := -len];
  }

  lemma AllDone(text: seq<byte>, I: seq<int>, V: seq<int>, s: Shadow, h: nat)
    requires State(text, I, V, s, h) && I[0] == -(|text| + 1)
    ensures Inverse(s.order, s.slot) && |s.order| == |V| == |text| + 1
    ensures forall i :: 0 <= i <= |text| ==> V[i] == s.slot[i]
    ensures IsSuffixArray(text, s.order)
  {
    hide Alike;
    assert AllSingle(s.last, 0, |text| + 1);
    forall i | 0 <= i <= |text| ensures V[i] == s.slot[i] {
      NumberOf(V, s, i);
      assert Single(s.last, s.slot[i]);
    }
    forall i | 0 <= i <= |text| ensures i in s.order {
      assert s.order[s.slot[i]] == i;
    }
    forall p, q | 0 <= p < q <= |text| ensures Before(text, s.order[p], s.order[q]) {
      assert Single(s.last, p) && Single(s.last, q);
    }
  }

  /** Sorts the suffixes of the text: for every text it terminates with I holding its suffix array. */
  method QSufSort(text: seq<byte>, I: array<int>, V: array<int>)
    requires I != V && I.Length == V.Length == |text| + 1
    modifies I, V
    ensures IsSuffixArray(text, I[..])
  {
    hide State, Inverse, IsSuffixArray;
    ghost var s := Begin(text, I, V);
    var h := 1;
    while I[0] != -(|text| + 1)
      invariant h > 0 && State(text, I[..], V[..], s, h)
      decreases if I[0] == -(|text| + 1) then 0 else if h > |text| then 1 else 2 + |text| - h
    {
      s := Pass(text, I, V, h, s);
      h := h + h;
    }
    AllDone(text, I[..], V[..], s, h);
    Invert(text, I, V, s);
  }

  method Invert(text: seq<byte>, I: array<int>, V: array<int>, ghost s: Shadow)
    requires I != V && I.Length == V.Length == |text| + 1 == |s.order| && Inverse(s.order, s.slot)
    requires forall i :: 0 <= i <= |text| ==> V[i] == s.slot[i]
    modifies I
    ensures I[..] == s.order
  {
    for i := 0 to |text| + 1
      invariant forall k :: 0 <= k <= |text| ==> V[k] == s.slot[k]
      invariant forall k :: 0 <= k < i ==> I[s.slot[k]] == k
    {
      I[V[i]] := i;
    }
    forall p | 0 <= p <= |text| ensures I[p] == s.order[p] {
      assert s.slot[s.order[p]] == p;
    }
  }
}
