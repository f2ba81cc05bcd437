/** Facts about slices of sequences that the parsers lean on. */
module Slices {

  lemma Cut3<T>(a: seq<T>, b: seq<T>, c: seq<T>)
    ensures (a + b + c)[..|a|] == a
    ensures (a + b + c)[|a|..|a| + |b|] == b
    ensures (a + b + c)[|a| + |b|..] == c
  {
  }

  lemma SliceSlice<T>(s: seq<T>, a: nat, b: nat, c: nat, d: nat)
    requires a <= b <= |s| && c <= d <= b - a
    ensures s[a..b][c..d] == s[a + c..a + d]
  {
    assert forall i :: 0 <= i < d - c ==> s[a..b][c..d][i] == s[a..b][c + i] == s[a + c..a + d][i];
  }

  lemma SliceLeft<T>(s: seq<T>, t: seq<T>, a: nat, b: nat)
    requires a <= b <= |s|
    ensures (s + t)[a..b] == s[a..b]
  {
  }

  lemma SliceRight<T>(s: seq<T>, t: seq<T>, a: nat, b: nat)
    requires |s| <= a <= b <= |s| + |t|
    ensures (s + t)[a..b] == t[a - |s|..b - |s|]
  {
  }

  /** Concatenation of the first k parts. */
  function Join<T>(parts: seq<seq<T>>, k: nat): seq<T>
    requires k <= |parts|
  {
    if k == 0 then [] else Join(parts, k - 1) + parts[k - 1]
  }

  lemma {:induction false} JoinGrows<T>(parts: seq<seq<T>>, j: nat, k: nat)
    requires j <= k <= |parts|
    ensures Join(parts, j) <= Join(parts, k)
    decreases k
  {
    if j < k { JoinGrows(parts, j, k - 1); }
  }

  /** Where the j-th part stands. */
  lemma JoinAt<T>(parts: seq<seq<T>>, j: nat, k: nat)
    requires j < k <= |parts|
    ensures |Join(parts, j + 1)| <= |Join(parts, k)| && |Join(parts, j)| + |parts[j]| == |Join(parts, j + 1)|
    ensures Join(parts, k)[|Join(parts, j)|..|Join(parts, j + 1)|] == parts[j]
  {
    JoinGrows(parts, j + 1, k);
    SliceRight(Join(parts, j), parts[j], |Join(parts, j)|, |Join(parts, j + 1)|);
    assert Join(parts, k)[..|Join(parts, j + 1)|] == Join(parts, j + 1);
  }

  /** Looking through a surrounding file into the part that stands behind before. */
  lemma Inside<T>(before: seq<T>, s: seq<T>, behind: seq<T>, a: nat, b: nat)
    requires a <= b <= |s|
    ensures (before + s + behind)[|before| + a..|before| + b] == s[a..b]
  {
  }

  /** Data laid over a sequence at some place. */
  function Overlay<T>(s: seq<T>, at: nat, data: seq<T>): (r: seq<T>)
    requires at + |data| <= |s|
    ensures |r| == |s|
  {
    s[..at] + data + s[at + |data|..]
  }

  lemma OverlayMore<T>(s: seq<T>, at: nat, a: seq<T>, b: seq<T>)
    requires at + |a| + |b| <= |s|
    ensures Overlay(Overlay(s, at, a), at + |a|, b) == Overlay(s, at, a + b)
  {
  }

  /** Writing one more element behind what was laid over. */
  lemma OverlayOne<T>(s: seq<T>, at: nat, data: seq<T>, x: T)
    requires at + |data| < |s|
    ensures Overlay(s, at, data)[at + |data| := x] == Overlay(s, at, data + [x])
  {
  }
}
