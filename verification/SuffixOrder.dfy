/** The order of the suffixes of a text, and the facts prefix doubling rests on. */
module SuffixOrder {
  import opened Bytes

  /** The suffix that starts at i comes before the one that starts at j; the empty suffix comes first. */
  ghost predicate Before(text: seq<byte>, i: nat, j: nat)
    requires i <= |text| && j <= |text|
    decreases |text| - i
  {
    j < |text| && (i == |text| || text[i] < text[j] || (text[i] == text[j] && Before(text, i + 1, j + 1)))
  }

  /** The suffixes at i and j both have h bytes, and the same ones. */
  ghost predicate Agree(text: seq<byte>, i: nat, j: nat, h: nat) {
    i + h <= |text| && j + h <= |text| && text[i..i + h] == text[j..j + h]
  }

  /** What the differ relies on: every suffix start once, in strictly increasing order. */
  ghost predicate IsSuffixArray(text: seq<byte>, sa: seq<int>) {
    && |sa| == |text| + 1
    && (forall p :: 0 <= p < |sa| ==> 0 <= sa[p] <= |text|)
    && (forall i :: 0 <= i <= |text| ==> i in sa)
    && (forall p, q :: 0 <= p < q < |sa| ==> Before(text, sa[p], sa[q]))
  }

  lemma {:induction false} BeforeShift(text: seq<byte>, i: nat, j: nat, h: nat)
    requires Agree(text, i, j, h)
    ensures Before(text, i, j) <==> Before(text, i + h, j + h)
    decreases h
  {
    if h > 0 {
      assert text[i] == text[i..i + h][0] == text[j..j + h][0] == text[j];
      assert text[i + 1..i + 1 + (h - 1)] == text[i..i + h][1..];
      assert text[j + 1..j + 1 + (h - 1)] == text[j..j + h][1..];
      BeforeShift(text, i + 1, j + 1, h - 1);
    }
  }

  lemma AgreeJoin(text: seq<byte>, i: nat, j: nat, h: nat, g: nat)
    requires Agree(text, i, j, h) && Agree(text, i + h, j + h, g)
    ensures Agree(text, i, j, h + g)
  {
    assert text[i..i + (h + g)] == text[i..i + h] + text[i + h..i + h + g];
    assert text[j..j + (h + g)] == text[j..j + h] + text[j + h..j + h + g];
  }

  /** Two suffixes have n bytes in common and then part: the first ends, or has the smaller byte. */
  ghost predicate PartsAt(text: seq<byte>, i: nat, j: nat, n: nat) {
    Agree(text, i, j, n) && j + n < |text| && (i + n == |text| || text[i + n] < text[j + n])
  }

  lemma PartsOn(text: seq<byte>, i: nat, j: nat, m: nat)
    requires i < |text| && j < |text| && text[i] == text[j] && PartsAt(text, i + 1, j + 1, m)
    ensures PartsAt(text, i, j, m + 1)
  {
    assert text[i..i + 1] == [text[i]] == text[j..j + 1];
    AgreeJoin(text, i, j, 1, m);
    hide Agree;
  }

  lemma {:induction false} PartingPlace(text: seq<byte>, i: nat, j: nat) returns (n: nat)
    requires i <= |text| && j <= |text| && Before(text, i, j)
    ensures PartsAt(text, i, j, n)
    decreases |text| - i
  {
    n := 0;
    if i < |text| && text[i] == text[j] {
      var m := PartingPlace(text, i + 1, j + 1);
      PartsOn(text, i, j, m);
      n := m + 1;
    }
  }

  /** The order is the lexicographic one. */
  lemma BeforeMeans(text: seq<byte>, i: nat, j: nat)
    requires i <= |text| && j <= |text|
    ensures Before(text, i, j) <==> exists n: nat :: PartsAt(text, i, j, n)
  {
    if Before(text, i, j) { var n := PartingPlace(text, i, j); }
    if n: nat :| PartsAt(text, i, j, n) { BeforeShift(text, i, j, n); }
  }

  lemma {:induction false} BeforeOneWay(text: seq<byte>, i: nat, j: nat)
    requires i <= |text| && j <= |text| && Before(text, i, j)
    ensures i != j && !Before(text, j, i)
    decreases |text| - i
  {
    if i < |text| && text[i] == text[j] { BeforeOneWay(text, i + 1, j + 1); }
  }

  /** So there is only one suffix array: how many suffixes come before one says where it stands. */
  lemma {:induction false} SuffixArrayUnique(text: seq<byte>, a: seq<int>, b: seq<int>, n: nat)
    requires IsSuffixArray(text, a) && IsSuffixArray(text, b) && n <= |a|
    ensures a[..n] == b[..n]
  {
    if n > 0 {
      SuffixArrayUnique(text, a, b, n - 1);
      var p := n - 1;
      if a[p] != b[p] {
        PlaceLater(text, a, b, p);
        PlaceLater(text, b, a, p);
      }
    }
  }

  /** What stands at the first difference of two such arrays comes, in the other, later, so before what stands there. */
  lemma PlaceLater(text: seq<byte>, a: seq<int>, b: seq<int>, p: nat)
    requires IsSuffixArray(text, a) && IsSuffixArray(text, b) && p < |a| && a[..p] == b[..p] && a[p] != b[p]
    ensures Before(text, b[p], a[p]) && !Before(text, a[p], b[p])
  {
    assert a[p] in b;
    var q :| 0 <= q < |b| && b[q] == a[p];
    if q < p {
      assert a[q] == a[..p][q] == b[..p][q] == a[p];
      BeforeOneWay(text, a[q], a[p]);
    }
    BeforeOneWay(text, b[p], a[p]);
  }
}
