/** The state of the suffix sort between two steps, on values: what every step keeps. */
module SuffixGroups {
  import opened Bytes
  import opened SuffixOrder

  /** What I would hold had finished entries not been overwritten (order), its inverse (slot),
      and the last position of the group each position belongs to (last). */
  datatype Shadow = Shadow(order: seq<int>, slot: seq<int>, last: seq<int>)

  ghost predicate Inverse(order: seq<int>, slot: seq<int>) {
    && |slot| == |order|
    && (forall p :: 0 <= p < |order| ==> 0 <= order[p] < |order| && slot[order[p]] == p)
    && (forall i :: 0 <= i < |slot| ==> 0 <= slot[i] < |slot| && order[slot[i]] == i)
  }

  ghost predicate Groups(last: seq<int>) {
    && (forall p :: 0 <= p < |last| ==> p <= last[p] < |last| && last[last[p]] == last[p])
    && (forall p, q :: 0 <= p <= q < |last| ==> last[p] <= last[q])
  }

  ghost predicate Starts(last: seq<int>, p: int)
    requires 0 <= p <= |last|
  {
    p == 0 || last[p - 1] < p
  }

  ghost predicate Single(last: seq<int>, p: int)
    requires 0 <= p < |last|
  {
    last[p] == p && Starts(last, p)
  }

  ghost predicate AllSingle(last: seq<int>, from: int, to: int)
    requires 0 <= from && to <= |last|
  {
    forall p :: from <= p < to ==> Single(last, p)
  }

  /** Different groups are in suffix order. */
  ghost predicate Ordered(text: seq<byte>, order: seq<int>, last: seq<int>)
    requires |order| == |last| && forall p :: 0 <= p < |order| ==> 0 <= order[p] <= |text|
  {
    forall p, q :: 0 <= p < |order| && 0 <= q < |order| && last[p] < last[q] ==> Before(text, order[p], order[q])
  }

  /** Two suffixes in one group, at positions in [from, to), agree on h bytes. */
  ghost predicate Alike(text: seq<byte>, order: seq<int>, last: seq<int>, h: nat, from: int, to: int)
    requires |order| == |last| && forall p :: 0 <= p < |order| ==> 0 <= order[p] <= |text|
    requires 0 <= from && to <= |order|
  {
    forall p, q :: from <= p < to && from <= q < to && p != q && last[p] == last[q] ==>
      Agree(text, order[p], order[q], h)
  }

  ghost predicate Negative(I: seq<int>, from: int, to: int)
    requires 0 <= from && to <= |I|
  {
    forall p :: from <= p < to ==> I[p] < 0
  }

  /** An entry of I is the suffix at that position, or minus the length of a run of finished positions. */
  ghost predicate Entries(text: seq<byte>, I: seq<int>, s: Shadow, h: nat, from: int, to: int)
    requires |I| == |s.order| == |s.last| && 0 <= from && to <= |I|
  {
    forall p :: from <= p < to ==>
      if I[p] < 0 then p - I[p] <= |I| && AllSingle(s.last, p, p - I[p]) && Negative(I, p, p - I[p])
      else I[p] == s.order[p] && s.order[p] + h <= |text|
  }

  ghost predicate Shaped(text: seq<byte>, s: Shadow) {
    && |s.order| == |s.last| == |text| + 1
    && Inverse(s.order, s.slot)
    && Groups(s.last)
  }

  ghost predicate Numbered(V: seq<int>, s: Shadow) {
    && |V| == |s.order| == |s.last|
    && (forall p :: 0 <= p < |s.order| ==> 0 <= s.order[p] < |V| && V[s.order[p]] == s.last[p])
  }

  /** The invariant of the sort at prefix length h. */
  ghost predicate State(text: seq<byte>, I: seq<int>, V: seq<int>, s: Shadow, h: nat) {
    && Shaped(text, s)
    && |I| == |V| == |text| + 1
    && Numbered(V, s)
    && Ordered(text, s.order, s.last)
    && Alike(text, s.order, s.last, h, 0, |I|)
    && Entries(text, I, s, h, 0, |I|)
  }

  /** The suffixes at [a, b) precede those of the same group that stand behind them. */
  ghost predicate Leads(text: seq<byte>, s: Shadow, a: int, b: int)
    requires Shaped(text, s) && 0 <= a <= b <= |s.order|
  {
    forall p, q :: a <= p < b <= q < |s.order| && s.last[q] == s.last[p] ==> Before(text, s.order[p], s.order[q])
  }

  /** [a, b) is part of one group, and its entries of I are open. */
  ghost predicate Open(text: seq<byte>, I: seq<int>, s: Shadow, a: int, b: int)
    requires Shaped(text, s) && |I| == |text| + 1
  {
    && 0 <= a <= b <= |I|
    && (forall p :: a <= p < b ==> I[p] >= 0 && s.last[p] == s.last[a])
    && (a < b ==> b - 1 <= s.last[a])
  }

  /** [a, b) is the front of a group, still to be refined, and precedes the rest of that group. */
  ghost predicate Pending(text: seq<byte>, I: seq<int>, s: Shadow, a: int, b: int)
    requires Shaped(text, s) && |I| == |text| + 1
  {
    Open(text, I, s, a, b) && Starts(s.last, a) && Leads(text, s, a, b)
  }

  /** s to s1 moved suffixes only inside [a, b), and left other groups alone. */
  ghost predicate Within(s: Shadow, s1: Shadow, a: int, b: int)
    requires 0 <= a <= b <= |s.order| && |s.order| == |s.last|
  {
    && |s1.order| == |s1.last| == |s.order| == |s.slot|
    && (forall p :: 0 <= p < |s.order| && !(a <= p < b) ==> s1.order[p] == s.order[p] && s1.last[p] == s.last[p])
    && (forall p :: a <= p < b ==> 0 <= s1.order[p] < |s.slot| && a <= s.slot[s1.order[p]] < b)
  }

  /** [a, b) has been refined to prefix length g: no group crosses its ends, and no open entry is out of reach. */
  ghost predicate Refined(text: seq<byte>, I: seq<int>, s: Shadow, g: nat, a: int, b: int)
    requires Shaped(text, s) && |I| == |text| + 1 && 0 <= a <= b <= |I|
  {
    && Starts(s.last, b)
    && Alike(text, s.order, s.last, g, a, b)
    && (forall p :: a <= p < b && I[p] >= 0 ==> s.order[p] + g <= |text|)
  }

  lemma NumberOf(V: seq<int>, s: Shadow, i: int)
    requires Numbered(V, s) && Inverse(s.order, s.slot) && 0 <= i < |V|
    ensures V[i] == s.last[s.slot[i]]
  {
    assert s.order[s.slot[i]] == i;
  }

  /** Two suffixes that agree on h bytes are ordered by the numbers h further on. */
  lemma KeyOrder(text: seq<byte>, V: seq<int>, s: Shadow, h: nat, x: int, y: int)
    requires Shaped(text, s) && Numbered(V, s) && Ordered(text, s.order, s.last)
    requires 0 <= x && 0 <= y && Agree(text, x, y, h) && V[x + h] < V[y + h]
    ensures Before(text, x, y)
  {
    NumberOf(V, s, x + h);
    NumberOf(V, s, y + h);
    var p, q := s.slot[x + h], s.slot[y + h];
    assert s.last[p] < s.last[q];
    assert s.order[p] == x + h && s.order[q] == y + h;
    BeforeShift(text, x, y, h);
  }

  lemma KeyEqual(text: seq<byte>, V: seq<int>, s: Shadow, h: nat, x: int, y: int)
    requires Shaped(text, s) && Numbered(V, s) && Alike(text, s.order, s.last, h, 0, |s.order|)
    requires 0 <= x && 0 <= y && x != y && Agree(text, x, y, h) && V[x + h] == V[y + h]
    ensures Agree(text, x, y, h + h)
  {
    NumberOf(V, s, x + h);
    NumberOf(V, s, y + h);
    var p, q := s.slot[x + h], s.slot[y + h];
    assert s.order[p] == x + h && s.order[q] == y + h;
    assert p != q;
    AgreeJoin(text, x, y, h, h);
  }

  /** All suffixes at [a, b) agree on g bytes. */
  ghost predicate Uniform(text: seq<byte>, s: Shadow, g: nat, a: int, b: int)
    requires Shaped(text, s) && 0 <= a <= b <= |s.order|
  {
    forall p, q :: a <= p < b && a <= q < b && p != q ==> Agree(text, s.order[p], s.order[q], g)
  }

  /** Exchanging two positions of I moves the shadow along. */
  ghost function Exchange(s: Shadow, a: int, b: int): Shadow
    requires 0 <= a < |s.order| && 0 <= b < |s.order| && Inverse(s.order, s.slot)
  {
    Shadow(s.order[a := s.order[b]][b := s.order[a]], s.slot[s.order[a] := b][s.order[b] := a], s.last)
  }

  lemma ExchangeInverse(s: Shadow, a: int, b: int)
    requires 0 <= a < |s.order| && 0 <= b < |s.order| && Inverse(s.order, s.slot)
    ensures Inverse(Exchange(s, a, b).order, Exchange(s, a, b).slot)
  {
    var t := Exchange(s, a, b);
    forall p | 0 <= p < |s.order| ensures t.slot[t.order[p]] == p {
      assert s.slot[s.order[p]] == p && s.slot[s.order[a]] == a && s.slot[s.order[b]] == b;
    }
    forall i | 0 <= i < |s.slot| ensures 0 <= t.slot[i] < |t.slot| && t.order[t.slot[i]] == i {
      assert s.order[s.slot[i]] == i;
    }
  }

  /** Where the exchanged suffix came from. */
  ghost function Came(a: int, b: int, p: int): int {
    if p == a then b else if p == b then a else p
  }

  lemma ExchangeOrder(text: seq<byte>, s: Shadow, a: int, b: int)
    requires Shaped(text, s) && Ordered(text, s.order, s.last)
    requires 0 <= a < |s.order| && 0 <= b < |s.order| && s.last[a] == s.last[b]
    requires forall p :: 0 <= p < |s.order| ==> 0 <= Exchange(s, a, b).order[p] <= |text|
    ensures Ordered(text, Exchange(s, a, b).order, s.last)
  {
    hide Before;
    var t := Exchange(s, a, b);
    forall p, q | 0 <= p < |s.order| && 0 <= q < |s.order| && s.last[p] < s.last[q] ensures Before(text, t.order[p], t.order[q]) {
      assert s.last[Came(a, b, p)] < s.last[Came(a, b, q)];
    }
  }

  lemma ExchangeOrdered(text: seq<byte>, s: Shadow, h: nat, a: int, b: int)
    requires Shaped(text, s) && Ordered(text, s.order, s.last) && Alike(text, s.order, s.last, h, 0, |s.order|)
    requires 0 <= a < |s.order| && 0 <= b < |s.order| && s.last[a] == s.last[b]
    requires forall p :: 0 <= p < |s.order| ==> 0 <= Exchange(s, a, b).order[p] <= |text|
    ensures Ordered(text, Exchange(s, a, b).order, s.last)
    ensures Alike(text, Exchange(s, a, b).order, s.last, h, 0, |s.order|)
  {
    ExchangeOrder(text, s, a, b);
    hide Ordered, Before;
    var t := Exchange(s, a, b);
    forall p, q | 0 <= p < |s.order| && 0 <= q < |s.order| && p != q && s.last[p] == s.last[q]
      ensures Agree(text, t.order[p], t.order[q], h)
    {
      assert Came(a, b, p) != Came(a, b, q) && s.last[Came(a, b, p)] == s.last[Came(a, b, q)];
    }
  }

  lemma ExchangeState(text: seq<byte>, I: seq<int>, V: seq<int>, s: Shadow, h: nat, a: int, b: int)
    requires State(text, I, V, s, h)
    requires 0 <= a < |I| && 0 <= b < |I| && I[a] >= 0 && I[b] >= 0 && s.last[a] == s.last[b]
    ensures State(text, I[a := I[b]][b := I[a]], V, Exchange(s, a, b), h)
  {
    hide Ordered, Alike;
    var t := Exchange(s, a, b);
    ExchangeInverse(s, a, b);
    assert forall p :: 0 <= p < |s.order| ==> t.order[p] == s.order[Came(a, b, p)];
    ExchangeOrdered(text, s, h, a, b);
    assert Numbered(V, t) by {
      forall p | 0 <= p < |s.order| ensures V[t.order[p]] == t.last[p] {
        assert V[s.order[Came(a, b, p)]] == s.last[Came(a, b, p)];
      }
    }
    ExchangeEntries(text, I, s, h, a, b);
  }

  lemma ExchangeEntries(text: seq<byte>, I: seq<int>, s: Shadow, h: nat, a: int, b: int)
    requires Shaped(text, s) && |I| == |text| + 1 && Entries(text, I, s, h, 0, |I|)
    requires 0 <= a < |I| && 0 <= b < |I| && I[a] >= 0 && I[b] >= 0
    ensures Entries(text, I[a := I[b]][b := I[a]], Exchange(s, a, b), h, 0, |I|)
  {
    hide Starts;
    var J := I[a := I[b]][b := I[a]];
    assert forall p :: 0 <= p < |I| ==> J[p] == I[Came(a, b, p)];
  }

  lemma ExchangePending(text: seq<byte>, I: seq<int>, s: Shadow, lo: int, hi: int, a: int, b: int)
    requires Shaped(text, s) && |I| == |text| + 1 && Pending(text, I, s, lo, hi)
    requires lo <= a < hi && lo <= b < hi
    requires Shaped(text, Exchange(s, a, b))
    ensures Pending(text, I[a := I[b]][b := I[a]], Exchange(s, a, b), lo, hi)
  {
    var t := Exchange(s, a, b);
    forall p, q | lo <= p < hi <= q < |s.order| && t.last[q] == t.last[p] ensures Before(text, t.order[p], t.order[q]) {
      assert t.order[p] == s.order[Came(a, b, p)] && s.last[Came(a, b, p)] == s.last[q];
    }
  }

  lemma ExchangeWithin(s0: Shadow, s: Shadow, lo: int, hi: int, a: int, b: int)
    requires |s0.order| == |s0.last| && 0 <= lo <= hi <= |s0.order| && Within(s0, s, lo, hi)
    requires Inverse(s.order, s.slot) && lo <= a < hi && lo <= b < hi
    ensures Within(s0, Exchange(s, a, b), lo, hi)
  {
  }

  lemma WithinJoin(s0: Shadow, s1: Shadow, s2: Shadow, lo: int, hi: int, a: int, b: int)
    requires |s0.order| == |s0.last| && 0 <= lo <= a <= b <= hi <= |s0.order|
    requires Inverse(s1.order, s1.slot) && Within(s0, s1, lo, hi) && Within(s1, s2, a, b)
    ensures Within(s0, s2, lo, hi)
  {
    forall p | lo <= p < hi ensures 0 <= s2.order[p] < |s0.slot| && lo <= s0.slot[s2.order[p]] < hi {
      if a <= p < b {
        var q := s1.slot[s2.order[p]];
        assert s1.order[q] == s2.order[p];
      }
    }
  }

  /** Smaller keys in front: the front precedes the rest of its group. */
  lemma FrontLeads(text: seq<byte>, I: seq<int>, V: seq<int>, s: Shadow, h: nat, a: int, m: int, b: int)
    requires State(text, I, V, s, h) && Open(text, I, s, a, b) && Leads(text, s, a, b) && a <= m <= b
    requires forall p, q :: a <= p < m <= q < b ==> V[s.order[p] + h] < V[s.order[q] + h]
    ensures Leads(text, s, a, m)
  {
    forall p, q | a <= p < m <= q < |s.order| && s.last[q] == s.last[p] ensures Before(text, s.order[p], s.order[q]) {
      if q < b {
        KeyOrder(text, V, s, h, s.order[p], s.order[q]);
      }
    }
  }

  /** Equal keys: twice the agreement. */
  lemma EqualKeysUniform(text: seq<byte>, I: seq<int>, V: seq<int>, s: Shadow, h: nat, a: int, b: int)
    requires State(text, I, V, s, h) && Open(text, I, s, a, b)
    requires forall p, q :: a <= p < b && a <= q < b ==> V[s.order[p] + h] == V[s.order[q] + h]
    ensures Uniform(text, s, h + h, a, b)
  {
    forall p, q | a <= p < b && a <= q < b && p != q ensures Agree(text, s.order[p], s.order[q], h + h) {
      assert s.slot[s.order[p]] == p && s.slot[s.order[q]] == q;
      KeyEqual(text, V, s, h, s.order[p], s.order[q]);
    }
  }

  /** What a step inside [lo, hi) leaves standing behind it. */
  lemma LeadsAfter(text: seq<byte>, s: Shadow, t: Shadow, lo: int, hi: int, a: int, b: int)
    requires Shaped(text, s) && Shaped(text, t) && 0 <= lo <= hi <= a <= b <= |s.order| && Within(s, t, lo, hi)
    ensures Leads(text, s, a, b) ==> Leads(text, t, a, b)
    ensures forall g: nat :: Uniform(text, s, g, a, b) ==> Uniform(text, t, g, a, b)
  {
  }

  lemma OpenAfter(text: seq<byte>, I: seq<int>, s: Shadow, I1: seq<int>, t: Shadow, lo: int, hi: int, a: int, b: int)
    requires Shaped(text, s) && Shaped(text, t) && 0 <= lo <= hi <= a <= b <= |s.order| && Within(s, t, lo, hi)
    requires |I| == |I1| == |text| + 1 && (forall p :: a <= p < b ==> I1[p] == I[p])
    requires Open(text, I, s, a, b)
    ensures Open(text, I1, t, a, b)
  {
  }

  /** Giving [a, b) its own group number b - 1. */
  ghost function Renumber(s: Shadow, a: int, b: int): Shadow
    requires 0 <= a <= b <= |s.last|
  {
    s.(last := seq(|s.last|, p requires 0 <= p < |s.last| => if a <= p < b then b - 1 else s.last[p]))
  }

  lemma RenumberShaped(text: seq<byte>, I: seq<int>, s: Shadow, a: int, b: int)
    requires Shaped(text, s) && |I| == |text| + 1 && Pending(text, I, s, a, b) && a < b
    ensures Shaped(text, Renumber(s, a, b))
  {
    var t := Renumber(s, a, b);
    assert forall p :: 0 <= p < |t.last| ==> t.last[p] == if a <= p < b then b - 1 else s.last[p];
    forall p | 0 <= p < |t.last| ensures p <= t.last[p] < |t.last| && t.last[t.last[p]] == t.last[p] {
      if p < a { assert s.last[p] <= s.last[a - 1] < a; }
    }
    forall p, q | 0 <= p <= q < |t.last| ensures t.last[p] <= t.last[q] {
      if p < a { assert s.last[p] <= s.last[a - 1] < a; }
    }
  }

  lemma RenumberState(text: seq<byte>, I: seq<int>, V: seq<int>, s: Shadow, h: nat, a: int, b: int,
                      I1: seq<int>, V1: seq<int>)
    requires State(text, I, V, s, h) && Pending(text, I, s, a, b) && a < b
    requires |V1| == |V| && forall x :: 0 <= x < |V| ==> V1[x] == if a <= s.slot[x] < b then b - 1 else V[x]
    requires I1 == if b - a == 1 then I[a := -1] else I
    ensures State(text, I1, V1, Renumber(s, a, b), h)
    ensures Starts(Renumber(s, a, b).last, b)
  {
    hide Ordered, Alike, Entries, Leads;
    RenumberShaped(text, I, s, a, b);
    RenumberOrdered(text, I, s, a, b);
    RenumberAlike(text, I, s, h, a, b);
    RenumberEntries(text, I, s, h, a, b, I1);
  }

  lemma RenumberAlike(text: seq<byte>, I: seq<int>, s: Shadow, h: nat, a: int, b: int)
    requires Shaped(text, s) && |I| == |text| + 1 && Pending(text, I, s, a, b) && a < b
    requires Alike(text, s.order, s.last, h, 0, |I|)
    ensures Alike(text, s.order, Renumber(s, a, b).last, h, 0, |I|)
  {
    hide Leads;
    var t := Renumber(s, a, b);
    assert forall p :: 0 <= p < |t.last| ==> t.last[p] == if a <= p < b then b - 1 else s.last[p];
    forall p, q | 0 <= p < |I| && 0 <= q < |I| && p != q && t.last[p] == t.last[q] ensures s.last[p] == s.last[q] {
      if p < a { assert s.last[p] <= s.last[a - 1] < a; }
      if q < a { assert s.last[q] <= s.last[a - 1] < a; }
    }
  }

  lemma RenumberOrdered(text: seq<byte>, I: seq<int>, s: Shadow, a: int, b: int)
    requires Shaped(text, s) && |I| == |text| + 1 && Pending(text, I, s, a, b) && a < b
    requires Ordered(text, s.order, s.last)
    ensures Ordered(text, s.order, Renumber(s, a, b).last)
  {
    var t := Renumber(s, a, b);
    assert forall p :: 0 <= p < |t.last| ==> t.last[p] == if a <= p < b then b - 1 else s.last[p];
    forall p, q | 0 <= p < |t.last| && 0 <= q < |t.last| && t.last[p] < t.last[q] ensures Before(text, s.order[p], s.order[q]) {
      if p < a { assert s.last[p] <= s.last[a - 1] < a; }
      if q < a { assert s.last[q] <= s.last[a - 1] < a; }
      if s.last[p] == s.last[q] {
        assert a <= p < b <= q;
      } else {
        assert s.last[p] < s.last[q];
      }
    }
  }

  lemma RenumberEntries(text: seq<byte>, I: seq<int>, s: Shadow, h: nat, a: int, b: int, I1: seq<int>)
    requires Shaped(text, s) && |I| == |text| + 1 && Pending(text, I, s, a, b) && a < b
    requires Entries(text, I, s, h, 0, |I|)
    requires I1 == if b - a == 1 then I[a := -1] else I
    ensures Entries(text, I1, Renumber(s, a, b), h, 0, |I|)
  {
    hide Leads, Pending, Shaped, Renumber;
    RenumberSizes(text, I, s, a, b);
    var t := Renumber(s, a, b);
    forall q | 0 <= q < |I| && Single(s.last, q) ensures Single(t.last, q) {
      RenumberSingle(text, I, s, a, b, q);
    }
    if b - a == 1 {
      RenumberAlone(text, I, s, a, b);
      assert AllSingle(t.last, a, a + 1);
    }
    forall p | 0 <= p < |I| && I[p] < 0 ensures AllSingle(t.last, p, p - I[p]) {
      assert AllSingle(s.last, p, p - I[p]);
    }
  }

  lemma RenumberSizes(text: seq<byte>, I: seq<int>, s: Shadow, a: int, b: int)
    requires Shaped(text, s) && |I| == |text| + 1 && Pending(text, I, s, a, b) && a < b
    ensures 0 <= a < b <= |I| == |s.order| == |s.last| && Renumber(s, a, b).order == s.order && |Renumber(s, a, b).last| == |s.last|
    ensures forall p :: a <= p < b ==> I[p] >= 0
  {
  }

  lemma RenumberAlone(text: seq<byte>, I: seq<int>, s: Shadow, a: int, b: int)
    requires Shaped(text, s) && |I| == |text| + 1 && Pending(text, I, s, a, b) && b - a == 1
    ensures Single(Renumber(s, a, b).last, a)
  {
    hide Leads;
  }

  lemma RenumberSingle(text: seq<byte>, I: seq<int>, s: Shadow, a: int, b: int, q: int)
    requires Shaped(text, s) && |I| == |text| + 1 && Pending(text, I, s, a, b) && a < b
    requires 0 <= q < |I| && Single(s.last, q)
    ensures Single(Renumber(s, a, b).last, q)
  {
    var t := Renumber(s, a, b);
    assert forall p :: 0 <= p < |t.last| ==> t.last[p] == if a <= p < b then b - 1 else s.last[p];
    if a <= q < b {
      assert q == a && s.last[a] == a && b - 1 <= s.last[a];
    } else if q == b {
      assert s.last[b - 1] < b;
    }
  }
}
