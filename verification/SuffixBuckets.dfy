/** The counting sort by first byte that starts the suffix sort. */
module SuffixBuckets {
  import opened Bytes
  import opened SuffixOrder
  import opened SuffixGroups

  /** How often c occurs in the first n bytes. */
  function Occurs(text: seq<byte>, c: int, n: nat): (r: nat)
    requires n <= |text|
  {
    if n == 0 then 0 else Occurs(text, c, n - 1) + if text[n - 1] == c then 1 else 0
  }

  /** How many bytes of the text are below c. */
  function Smaller(text: seq<byte>, c: nat): nat {
    if c == 0 then 0 else Smaller(text, c - 1) + Occurs(text, c - 1, |text|)
  }

  /** Where the counting sort puts the suffix at i; slot 0 is the empty suffix's. */
  function SlotOf(text: seq<byte>, i: nat): int
    requires i <= |text|
  {
    if i == |text| then 0 else Smaller(text, text[i]) + Occurs(text, text[i], i) + 1
  }

  lemma {:induction false} OccursGrows(text: seq<byte>, c: int, m: nat, n: nat)
    requires m <= n <= |text|
    ensures Occurs(text, c, m) <= Occurs(text, c, n)
    ensures m < n && text[m] == c ==> Occurs(text, c, m) < Occurs(text, c, n)
    decreases n
  {
    if m < n { OccursGrows(text, c, m, n - 1); }
  }

  lemma {:induction false} SmallerGrows(text: seq<byte>, c: nat, d: nat)
    requires c <= d
    ensures Smaller(text, c) <= Smaller(text, d)
    decreases d
  {
    if c < d { SmallerGrows(text, c, d - 1); }
  }

  /** Every byte counts once among the 256 buckets. */
  lemma {:induction false} SmallerAll(text: seq<byte>)
    ensures Smaller(text, 256) == |text|
    decreases |text|
  {
    if |text| == 0 {
      SmallerEmpty(text, 256);
    } else {
      var front := text[..|text| - 1];
      SmallerAll(front);
      SmallerSnoc(text, 256);
    }
  }

  lemma {:induction false} SmallerEmpty(text: seq<byte>, c: nat)
    requires |text| == 0
    ensures Smaller(text, c) == 0
  {
    if c > 0 { SmallerEmpty(text, c - 1); }
  }

  lemma {:induction false} OccursPrefix(text: seq<byte>, m: nat, c: int, n: nat)
    requires n <= m <= |text|
    ensures Occurs(text[..m], c, n) == Occurs(text, c, n)
    decreases n
  {
    if n > 0 { OccursPrefix(text, m, c, n - 1); }
  }

  lemma {:induction false} SmallerSnoc(text: seq<byte>, c: nat)
    requires 0 < |text|
    ensures Smaller(text, c) == Smaller(text[..|text| - 1], c) + if text[|text| - 1] < c then 1 else 0
    decreases c
  {
    if c > 0 {
      SmallerSnoc(text, c - 1);
      OccursPrefix(text, |text| - 1, c - 1, |text| - 1);
    }
  }

  /** A suffix's slot lies in the bucket of its first byte. */
  lemma SlotInBucket(text: seq<byte>, i: nat)
    requires i < |text|
    ensures Smaller(text, text[i]) < SlotOf(text, i) <= Smaller(text, text[i] as int + 1) <= |text|
  {
    OccursGrows(text, text[i], i, |text|);
    SmallerGrows(text, text[i] as int + 1, 256);
    SmallerAll(text);
  }

  /** Slots tell suffixes apart, and a smaller first byte has the smaller slot. */
  lemma SlotOrder(text: seq<byte>, i: nat, j: nat)
    requires i < |text| && j < |text|
    ensures text[i] < text[j] ==> SlotOf(text, i) < SlotOf(text, j) && Smaller(text, text[i] as int + 1) < Smaller(text, text[j] as int + 1)
    ensures SlotOf(text, i) == SlotOf(text, j) ==> i == j
  {
    SlotInBucket(text, i);
    SlotInBucket(text, j);
    if text[i] < text[j] {
      SmallerGrows(text, text[i] as int + 1, text[j]);
    } else if text[j] < text[i] {
      SmallerGrows(text, text[j] as int + 1, text[i]);
    } else if i < j {
      OccursGrows(text, text[i], i, j);
    } else {
      OccursGrows(text, text[i], j, i);
    }
  }

  lemma {:induction false} FindOccurrence(text: seq<byte>, c: int, m: nat, n: nat) returns (k: nat)
    requires n <= |text| && m < Occurs(text, c, n)
    ensures k < n && text[k] == c && Occurs(text, c, k) == m
    decreases n
  {
    if m < Occurs(text, c, n - 1) {
      k := FindOccurrence(text, c, m, n - 1);
    } else {
      k := n - 1;
    }
  }

  lemma {:induction false} FindBucket(text: seq<byte>, p: int, c: nat) returns (d: nat)
    requires 0 < p <= Smaller(text, c)
    ensures d < c && Smaller(text, d) < p <= Smaller(text, d + 1)
    decreases c
  {
    if p <= Smaller(text, c - 1) {
      d := FindBucket(text, p, c - 1);
    } else {
      d := c - 1;
    }
  }

  /** Every slot is taken. */
  lemma FindSlot(text: seq<byte>, p: int) returns (i: nat)
    requires 0 <= p <= |text|
    ensures i <= |text| && SlotOf(text, i) == p
  {
    if p == 0 {
      i := |text|;
    } else {
      SmallerAll(text);
      var c := FindBucket(text, p, 256);
      i := FindOccurrence(text, c, p - Smaller(text, c) - 1, |text|);
    }
  }

  /** The group an entry of the bucket sort falls in: the last slot of its bucket. */
  function LastOf(text: seq<byte>, i: nat): int
    requires i <= |text|
  {
    if i == |text| then 0 else Smaller(text, text[i] as int + 1)
  }

  /** The order the bucket sort leaves in I, before finished entries are marked. */
  ghost predicate Bucketed(text: seq<byte>, order: seq<int>) {
    && |order| == |text| + 1
    && forall i :: 0 <= i <= |text| ==> 0 <= SlotOf(text, i) <= |text| && order[SlotOf(text, i)] == i
  }

  ghost predicate Laid(text: seq<byte>, order: seq<int>) {
    && |order| == |text| + 1
    && forall p :: 0 <= p < |order| ==> 0 <= order[p] <= |text| && SlotOf(text, order[p]) == p
  }

  ghost function FirstShadow(text: seq<byte>, order: seq<int>): Shadow
    requires Laid(text, order)
  {
    Shadow(order, seq(|text| + 1, i requires 0 <= i <= |text| => SlotOf(text, i)),
           seq(|text| + 1, p requires 0 <= p <= |text| => LastOf(text, order[p])))
  }

  lemma BucketedInverse(text: seq<byte>, order: seq<int>)
    requires Bucketed(text, order)
    ensures Laid(text, order)
  {
    forall p | 0 <= p <= |text| ensures 0 <= order[p] <= |text| && SlotOf(text, order[p]) == p {
      var i := FindSlot(text, p);
    }
  }

  lemma BucketGroups(text: seq<byte>, order: seq<int>)
    requires Laid(text, order)
    ensures Groups(FirstShadow(text, order).last)
  {
    hide LastOf, SlotOf;
    var last := FirstShadow(text, order).last;
    assert forall p :: 0 <= p < |last| ==> last[p] == LastOf(text, order[p]);
    forall p | 0 <= p < |last| ensures p <= last[p] < |last| && last[last[p]] == last[p] {
      LastInGroup(text, order, p);
    }
    forall p, q | 0 <= p <= q < |last| ensures last[p] <= last[q] {
      LastMonotone(text, order[p], order[q]);
    }
  }

  lemma LastMonotone(text: seq<byte>, i: nat, j: nat)
    requires i <= |text| && j <= |text| && SlotOf(text, i) <= SlotOf(text, j)
    ensures LastOf(text, i) <= LastOf(text, j)
  {
    if j < |text| { SlotInBucket(text, j); }
    if i < |text| { SlotInBucket(text, i); }
    if i < |text| && j < |text| {
      SlotOrder(text, j, i);
      SmallerGrows(text, text[i] as int + 1, text[j] as int + 1);
    }
  }

  lemma LastInGroup(text: seq<byte>, order: seq<int>, p: nat)
    requires p <= |text| && Laid(text, order)
    ensures p <= LastOf(text, order[p]) <= |text| && LastOf(text, order[LastOf(text, order[p])]) == LastOf(text, order[p])
  {
    var i := order[p];
    if i < |text| {
      SlotInBucket(text, i);
      InBucket(text, order[LastOf(text, i)], text[i], LastOf(text, i));
    }
  }

  lemma BucketOrder(text: seq<byte>, order: seq<int>, p: nat, q: nat)
    requires Laid(text, order)
    requires p <= |text| && q <= |text|
    ensures LastOf(text, order[p]) < LastOf(text, order[q]) ==> Before(text, order[p], order[q])
    ensures LastOf(text, order[p]) == LastOf(text, order[q]) && p != q ==> Agree(text, order[p], order[q], 1)
  {
    var i, j := order[p], order[q];
    if i < |text| { SlotInBucket(text, i); }
    if j < |text| { SlotInBucket(text, j); }
    if i < |text| && j < |text| {
      SlotOrder(text, i, j);
      SlotOrder(text, j, i);
      if text[i] == text[j] {
        assert text[i..i + 1] == [text[i]] && text[j..j + 1] == [text[j]];
      }
    } else if i == |text| && j == |text| {
      assert p == q;
    }
  }

  /** Marking finished entries: I holds the order, except that some single suffixes are marked -1. */
  ghost predicate Marked(text: seq<byte>, I: seq<int>, s: Shadow) {
    && |I| == |s.order| == |s.last| == |text| + 1
    && forall p :: 0 <= p < |I| ==> I[p] == s.order[p] || (I[p] == -1 && Single(s.last, p))
  }

  lemma BucketState(text: seq<byte>, I: seq<int>, V: seq<int>, order: seq<int>)
    requires Laid(text, order) && Bucketed(text, order)
    requires Marked(text, I, FirstShadow(text, order)) && I[0] < 0
    requires |V| == |text| + 1 && forall i :: 0 <= i <= |text| ==> V[i] == LastOf(text, i)
    ensures State(text, I, V, FirstShadow(text, order), 1)
  {
    hide LastOf, SlotOf, Groups, Ordered, Alike, Entries;
    BucketGroups(text, order);
    BucketOrdered(text, order);
    BucketEntries(text, order, I);
  }

  lemma BucketOrdered(text: seq<byte>, order: seq<int>)
    requires Laid(text, order)
    ensures Ordered(text, order, FirstShadow(text, order).last)
    ensures Alike(text, order, FirstShadow(text, order).last, 1, 0, |order|)
  {
    hide LastOf, SlotOf;
    var last := FirstShadow(text, order).last;
    assert forall p :: 0 <= p < |last| ==> last[p] == LastOf(text, order[p]);
    forall p, q | 0 <= p < |order| && 0 <= q < |order|
      ensures last[p] < last[q] ==> Before(text, order[p], order[q])
      ensures last[p] == last[q] && p != q ==> Agree(text, order[p], order[q], 1)
    {
      BucketOrder(text, order, p, q);
    }
  }

  lemma BucketEntries(text: seq<byte>, order: seq<int>, I: seq<int>)
    requires Laid(text, order)
    requires Marked(text, I, FirstShadow(text, order)) && I[0] < 0
    ensures Entries(text, I, FirstShadow(text, order), 1, 0, |I|)
  {
    hide LastOf, SlotOf, Starts;
    var s := FirstShadow(text, order);
    EmptySlot(text);
    forall p | 0 <= p < |I|
      ensures if I[p] < 0 then p - I[p] <= |I| && AllSingle(s.last, p, p - I[p]) && Negative(I, p, p - I[p])
              else I[p] == s.order[p] && s.order[p] + 1 <= |text|
    {
    }
  }

  lemma MarkedStart(text: seq<byte>, order: seq<int>)
    requires Laid(text, order)
    ensures Marked(text, order, FirstShadow(text, order))
  {
  }

  lemma MarkOne(text: seq<byte>, I: seq<int>, order: seq<int>, c: nat)
    requires Laid(text, order) && c < 256 && Marked(text, I, FirstShadow(text, order))
    requires Smaller(text, c + 1) == Smaller(text, c) + 1
    ensures Smaller(text, c + 1) <= |text| && Marked(text, I[Smaller(text, c + 1) := -1], FirstShadow(text, order))
  {
    BucketSingle(text, order, c);
  }

  lemma MarkFirst(text: seq<byte>, I: seq<int>, order: seq<int>)
    requires Laid(text, order) && Marked(text, I, FirstShadow(text, order))
    ensures |I| == |text| + 1 && Marked(text, I[0 := -1], FirstShadow(text, order))
  {
  }

  lemma EmptySlot(text: seq<byte>)
    ensures SlotOf(text, |text|) == 0
  {
  }

  /** A bucket of one is a single suffix. */
  lemma BucketSingle(text: seq<byte>, order: seq<int>, c: nat)
    requires Laid(text, order)
    requires c < 256 && Smaller(text, c + 1) == Smaller(text, c) + 1
    ensures Smaller(text, c + 1) <= |text| && Single(FirstShadow(text, order).last, Smaller(text, c + 1))
  {
    hide SlotOf, Smaller;
    SmallerAll(text);
    SmallerGrows(text, c + 1, 256);
    var b := Smaller(text, c + 1);
    InBucket(text, order[b], c, b);
    var k := order[b - 1];
    if k < |text| {
      SlotInBucket(text, k);
      if text[k] >= c { SmallerGrows(text, c, text[k]); }
      SmallerGrows(text, text[k] as int + 1, c);
    }
  }

  lemma InBucket(text: seq<byte>, i: nat, c: nat, p: int)
    requires i <= |text| && SlotOf(text, i) == p && Smaller(text, c) < p <= Smaller(text, c + 1)
    ensures i < |text| && text[i] == c
  {
    SlotInBucket(text, i);
    if text[i] < c { SmallerGrows(text, text[i] as int + 1, c); }
    if text[i] > c { SmallerGrows(text, c + 1, text[i]); }
  }
}
