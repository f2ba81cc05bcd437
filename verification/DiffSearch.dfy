/** Looking a piece of the new file up in the sorted suffixes of the old one. */
module DiffSearch {
  import opened Bytes
  import opened SuffixOrder

  /** How far text from i on and target from j on agree. */
  function MatchLen(text: seq<byte>, i: nat, target: seq<byte>, j: nat): (n: nat)
    requires i <= |text| && j <= |target|
    ensures i + n <= |text| && j + n <= |target|
    ensures i + n < |text| && j + n < |target| ==> text[i + n] != target[j + n]
    decreases |text| - i
  {
    if i < |text| && j < |target| && text[i] == target[j] then 1 + MatchLen(text, i + 1, target, j + 1) else 0
  }

  /** So far they do agree. */
  lemma {:induction false} MatchLenAgrees(text: seq<byte>, i: nat, target: seq<byte>, j: nat)
    requires i <= |text| && j <= |target|
    ensures var n := MatchLen(text, i, target, j); text[i..i + n] == target[j..j + n]
    decreases |text| - i
  {
    var n := MatchLen(text, i, target, j);
    if n > 0 {
      MatchLenAgrees(text, i + 1, target, j + 1);
      assert text[i..i + n] == [text[i]] + text[i + 1..i + n];
      assert target[j..j + n] == [target[j]] + target[j + 1..j + n];
    }
  }

  lemma MatchLenStep(text: seq<byte>, i: nat, target: seq<byte>, j: nat)
    requires i < |text| && j < |target|
    ensures MatchLen(text, i, target, j) == if text[i] == target[j] then 1 + MatchLen(text, i + 1, target, j + 1) else 0
  {
  }

  lemma MatchLenEnd(text: seq<byte>, i: nat, target: seq<byte>, j: nat)
    requires i <= |text| && j <= |target|
    ensures i == |text| || j == |target| ==> MatchLen(text, i, target, j) == 0
  {
  }

  /** The comparing loop. */
  method MatchLength(text: seq<byte>, i: nat, target: seq<byte>, j: nat) returns (n: nat)
    requires i <= |text| && j <= |target|
    ensures n == MatchLen(text, i, target, j)
  {
    hide *;
    MatchLenEnd(text, i, target, j);
    n := 0;
    while i + n < |text| && j + n < |target|
      invariant i + n <= |text| && j + n <= |target|
      invariant MatchLen(text, i, target, j) == n + MatchLen(text, i + n, target, j + n)
    {
      MatchLenStep(text, i + n, target, j + n);
      if text[i + n] != target[j + n] { break; }
      n := n + 1;
      MatchLenEnd(text, i + n, target, j + n);
    }
  }

  /** memcmp over n bytes: negative, zero or positive. */
  function MemCmp(text: seq<byte>, i: nat, target: seq<byte>, j: nat, n: nat): int
    requires i + n <= |text| && j + n <= |target|
    decreases n
  {
    if n == 0 then 0
    else if text[i] != target[j] then text[i] as int - target[j] as int
    else MemCmp(text, i + 1, target, j + 1, n - 1)
  }

  predicate Positions(text: seq<byte>, sa: seq<int>) {
    |sa| == |text| + 1 && forall p :: 0 <= p < |sa| ==> 0 <= sa[p] <= |text|
  }

  /** Do so many bytes of the target from scan on stand at a place of the old file? */
  predicate Matches(text: seq<byte>, target: seq<byte>, scan: nat, n: nat, at: nat) {
    at + n <= |text| && scan + n <= |target| && text[at..at + n] == target[scan..scan + n]
  }

  /** The longer of the matches at two places. */
  function Longer(text: seq<byte>, target: seq<byte>, scan: nat, i: nat, j: nat): (r: (nat, nat))
    requires i <= |text| && j <= |text| && scan <= |target|
    ensures Matches(text, target, scan, r.0, r.1)
  {
    var x := MatchLen(text, i, target, scan);
    var y := MatchLen(text, j, target, scan);
    MatchLenAgrees(text, i, target, scan);
    MatchLenAgrees(text, j, target, scan);
    if x > y then (x, i) else (y, j)
  }

  /** The binary search: the length and the old position of the match it settles for. */
  function Search(sa: seq<int>, text: seq<byte>, target: seq<byte>, scan: nat, st: nat, en: nat): (r: (nat, nat))
    requires Positions(text, sa) && scan <= |target| && st <= en <= |text|
    ensures Matches(text, target, scan, r.0, r.1)
    decreases en - st
  {
    if en - st < 2 then Longer(text, target, scan, sa[st], sa[en])
    else
      var x := st + (en - st) / 2;
      var n := if |text| - sa[x] < |target| - scan then |text| - sa[x] else |target| - scan;
      if MemCmp(text, sa[x], target, scan, n) < 0
      then Search(sa, text, target, scan, x, en)
      else Search(sa, text, target, scan, st, x)
  }

  /** First bytes go up along a suffix array. */
  lemma FirstBytesSorted(text: seq<byte>, sa: seq<int>, p: nat, q: nat)
    requires IsSuffixArray(text, sa) && p < q < |sa|
    ensures sa[q] < |text| && (sa[p] < |text| ==> text[sa[p]] <= text[sa[q]])
  {
    assert Before(text, sa[p], sa[q]);
  }

  /** A range of the suffix array that holds a suffix starting with the sought byte keeps one. */
  lemma {:induction false} SearchKeeps(sa: seq<int>, text: seq<byte>, target: seq<byte>, scan: nat, st: nat,
      en: nat, p: nat)
    requires IsSuffixArray(text, sa) && scan < |target| && st <= p <= en <= |text|
    requires sa[p] < |text| && text[sa[p]] == target[scan]
    ensures Positions(text, sa) && Search(sa, text, target, scan, st, en).0 > 0
    decreases en - st
  {
    if en - st >= 2 {
      var x := st + (en - st) / 2;
      FirstBytesSorted(text, sa, 0, x);
      var n := if |text| - sa[x] < |target| - scan then |text| - sa[x] else |target| - scan;
      if MemCmp(text, sa[x], target, scan, n) < 0 {
        if p < x { FirstBytesSorted(text, sa, p, x); SearchKeeps(sa, text, target, scan, x, en, x); }
        else { SearchKeeps(sa, text, target, scan, x, en, p); }
      } else {
        if p > x { FirstBytesSorted(text, sa, x, p); SearchKeeps(sa, text, target, scan, st, x, x); }
        else { SearchKeeps(sa, text, target, scan, st, x, p); }
      }
    }
  }

  /** The search comes back empty-handed exactly when the byte does not occur in the old file. */
  lemma SearchFinds(sa: seq<int>, text: seq<byte>, target: seq<byte>, scan: nat)
    requires IsSuffixArray(text, sa) && scan < |target|
    ensures Positions(text, sa)
    ensures Search(sa, text, target, scan, 0, |text|).0 > 0 <==> target[scan] in text
  {
    var (n, at) := Search(sa, text, target, scan, 0, |text|);
    if n > 0 {
      assert text[at] == text[at..at + n][0] == target[scan..scan + n][0] == target[scan];
    }
    if target[scan] in text {
      var i :| 0 <= i < |text| && text[i] == target[scan];
      assert i in sa;
      var p :| 0 <= p < |sa| && sa[p] == i;
      SearchKeeps(sa, text, target, scan, 0, |text|, p);
    }
  }
}
