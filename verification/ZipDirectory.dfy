/** The directory of an open zip: entries kept sorted by name, and a hash table over them. */
module ZipDirectory {
  import opened Bytes
  import opened HashSlots
  import opened HashTables

  /** A directory entry; id stands for the fields that no search looks at. */
  datatype Entry = Entry(name: seq<byte>, id: nat)

  /** strncmp over n bytes of names without NUL bytes. */
  function StrnCmp(a: seq<byte>, b: seq<byte>, n: nat): int
    requires n <= |a| && n <= |b|
    decreases n
  {
    if n == 0 then 0
    else if a[0] != b[0] then a[0] as int - b[0] as int
    else StrnCmp(a[1..], b[1..], n - 1)
  }

  /** The order of the directory: byte by byte, and the shorter name first. */
  function NameCmp(a: seq<byte>, b: seq<byte>): int {
    var n := if |a| < |b| then |a| else |b|;
    var diff := StrnCmp(a, b, n);
    if diff == 0 then |a| - |b| else diff
  }

  ghost predicate Sorted(es: seq<Entry>) {
    forall p, q :: 0 <= p < q < |es| ==> NameCmp(es[p].name, es[q].name) <= 0
  }

  lemma {:induction false} NameCmpUnfolds(a: seq<byte>, b: seq<byte>)
    requires 0 < |a| && 0 < |b|
    ensures a[0] == b[0] ==> NameCmp(a, b) == NameCmp(a[1..], b[1..])
    ensures a[0] != b[0] ==> NameCmp(a, b) == a[0] as int - b[0] as int
  {
  }

  lemma {:induction false} NameCmpOrder(a: seq<byte>, b: seq<byte>)
    ensures NameCmp(a, b) == 0 <==> a == b
    ensures NameCmp(a, b) <= 0 <==> NameCmp(b, a) >= 0
    decreases |a|
  {
    if 0 < |a| && 0 < |b| {
      NameCmpUnfolds(a, b);
      NameCmpUnfolds(b, a);
      NameCmpOrder(a[1..], b[1..]);
      if a[0] == b[0] && a[1..] == b[1..] { assert a == [a[0]] + a[1..] && b == [b[0]] + b[1..]; }
    }
  }

  /** Two names part where, behind a common front, the first ends or has the smaller byte. */
  ghost predicate NamePartsAt(a: seq<byte>, b: seq<byte>, n: nat) {
    n <= |a| && n < |b| && a[..n] == b[..n] && (n == |a| || a[n] < b[n])
  }

  /** The order is the lexicographic one, a shorter name in front of a longer one that begins with it. */
  lemma {:induction false} NameCmpMeans(a: seq<byte>, b: seq<byte>)
    ensures NameCmp(a, b) < 0 <==> exists n: nat :: NamePartsAt(a, b, n)
    decreases |a|
  {
    if 0 < |a| && 0 < |b| {
      NameCmpUnfolds(a, b);
      NameCmpMeans(a[1..], b[1..]);
      NamePartsOn(a, b);
    } else if |b| > 0 {
      assert NamePartsAt(a, b, 0);
    }
  }

  lemma NamePartsOn(a: seq<byte>, b: seq<byte>)
    requires 0 < |a| && 0 < |b|
    ensures (exists n: nat :: NamePartsAt(a, b, n)) <==>
      a[0] < b[0] || (a[0] == b[0] && exists n: nat :: NamePartsAt(a[1..], b[1..], n))
  {
    if n: nat :| NamePartsAt(a, b, n) {
      if n > 0 {
        assert a[0] == a[..n][0] == b[..n][0] == b[0];
        assert a[1..][..n - 1] == a[..n][1..] == b[..n][1..] == b[1..][..n - 1];
        assert NamePartsAt(a[1..], b[1..], n - 1);
      }
    }
    if a[0] < b[0] { assert NamePartsAt(a, b, 0); }
    if a[0] == b[0] {
      if n: nat :| NamePartsAt(a[1..], b[1..], n) {
        assert a[..n + 1] == [a[0]] + a[1..][..n] && b[..n + 1] == [b[0]] + b[1..][..n];
        assert NamePartsAt(a, b, n + 1);
      }
    }
  }

  lemma {:induction false} NameCmpTransitive(a: seq<byte>, b: seq<byte>, c: seq<byte>)
    requires NameCmp(a, b) <= 0 && NameCmp(b, c) <= 0
    ensures NameCmp(a, c) <= 0
    decreases |a|
  {
    if 0 < |a| && 0 < |b| && 0 < |c| {
      NameCmpUnfolds(a, b);
      NameCmpUnfolds(b, c);
      NameCmpUnfolds(a, c);
      if a[0] == b[0] == c[0] { NameCmpTransitive(a[1..], b[1..], c[1..]); }
    }
  }

  /** The binary search over the first i entries: where the new entry belongs. */
  method FindTarget(entries: array<Entry>, i: nat, name: seq<byte>) returns (target: nat)
    requires i <= entries.Length && Sorted(entries[..i])
    ensures target <= i
    ensures forall p :: 0 <= p < target ==> NameCmp(entries[p].name, name) <= 0
    ensures forall p :: target <= p < i ==> NameCmp(entries[p].name, name) >= 0
  {
    hide NameCmp;
    ghost var es := entries[..i];
    var low, high := 0, i - 1;
    while low <= high
      invariant 0 <= low <= high + 1 <= i
      invariant forall p :: 0 <= p < low ==> NameCmp(es[p].name, name) < 0
      invariant forall p :: high < p < i ==> NameCmp(es[p].name, name) > 0
    {
      var mid := low + (high - low) / 2;
      var diff := NameCmp(entries[mid].name, name);
      AroundMid(es, mid, name);
      if diff < 0 {
        low := mid + 1;
      } else if diff > 0 {
        high := mid - 1;
      } else {
        high := mid;
        return high + 1;
      }
    }
    return high + 1;
  }

  lemma AroundMid(es: seq<Entry>, mid: nat, name: seq<byte>)
    requires Sorted(es) && mid < |es|
    ensures NameCmp(es[mid].name, name) < 0 ==> forall p :: 0 <= p <= mid ==> NameCmp(es[p].name, name) < 0
    ensures NameCmp(es[mid].name, name) > 0 ==> forall p :: mid <= p < |es| ==> NameCmp(es[p].name, name) > 0
    ensures NameCmp(es[mid].name, name) == 0 ==>
      && (forall p :: 0 <= p <= mid ==> NameCmp(es[p].name, name) <= 0)
      && (forall p :: mid <= p < |es| ==> NameCmp(es[p].name, name) >= 0)
  {
    hide NameCmp;
    var m := es[mid].name;
    NameCmpOrder(m, name);
    forall p | 0 <= p < |es|
      ensures p <= mid && NameCmp(m, name) <= 0 ==> NameCmp(es[p].name, name) <= 0
      ensures p <= mid && NameCmp(m, name) < 0 ==> NameCmp(es[p].name, name) < 0
      ensures mid <= p && NameCmp(m, name) >= 0 ==> NameCmp(es[p].name, name) >= 0
      ensures mid <= p && NameCmp(m, name) > 0 ==> NameCmp(es[p].name, name) > 0
    {
      var e := es[p].name;
      NameCmpOrder(e, name);
      NameCmpOrder(name, m);
      NameCmpOrder(name, e);
      NameCmpOrder(m, e);
      NameCmpOrder(e, m);
      if p < mid && NameCmp(m, name) <= 0 {
        assert NameCmp(e, m) <= 0;
        NameCmpTransitive(e, m, name);
        if NameCmp(e, name) == 0 { assert NameCmp(name, m) <= 0; }
      }
      if mid < p && NameCmp(m, name) >= 0 {
        assert NameCmp(m, e) <= 0;
        NameCmpTransitive(name, m, e);
      }
    }
  }

  function Inserted(es: seq<Entry>, target: nat, e: Entry): (r: seq<Entry>)
    requires target <= |es|
    ensures |r| == |es| + 1
  {
    es[..target] + [e] + es[target..]
  }

  /** Moving the entries from target on up by one, and writing e into the gap. */
  method MakeRoom(entries: array<Entry>, i: nat, target: nat, e: Entry)
    requires target <= i < entries.Length
    modifies entries
    ensures entries[..i + 1] == Inserted(old(entries[..i]), target, e)
  {
    forall k | target < k <= i {
      entries[k] := entries[k - 1];
    }
    entries[target] := e;
  }

  /** Inserting in place. */
  method InsertSorted(entries: array<Entry>, i: nat, e: Entry)
    requires i < entries.Length && Sorted(entries[..i])
    modifies entries
    ensures Sorted(entries[..i + 1])
    ensures multiset(entries[..i + 1]) == multiset(old(entries[..i])) + multiset{e}
  {
    hide *;
    ghost var es := entries[..i];
    var target := FindTarget(entries, i, e.name);
    assert forall p :: 0 <= p < i ==> entries[p] == es[p];
    InsertedSorted(es, target, e);
    InsertedAll(es, target, e);
    MakeRoom(entries, i, target, e);
  }

  lemma InsertedAll(es: seq<Entry>, target: nat, e: Entry)
    requires target <= |es|
    ensures multiset(Inserted(es, target, e)) == multiset(es) + multiset{e}
  {
    assert es == es[..target] + es[target..];
  }

  lemma InsertedSorted(es: seq<Entry>, target: nat, e: Entry)
    requires Sorted(es) && target <= |es|
    requires forall p :: 0 <= p < target ==> NameCmp(es[p].name, e.name) <= 0
    requires forall p :: target <= p < |es| ==> NameCmp(es[p].name, e.name) >= 0
    ensures Sorted(Inserted(es, target, e))
  {
    hide NameCmp;
    var now := Inserted(es, target, e);
    forall p, q | 0 <= p < q < |now| ensures NameCmp(now[p].name, now[q].name) <= 0 {
      if p == target { NameCmpOrder(e.name, now[q].name); }
    }
  }

  lemma MoreRecords(records: seq<Entry>, i: nat)
    requires i < |records|
    ensures multiset(records[..i + 1]) == multiset(records[..i]) + multiset{records[i]}
  {
    assert records[..i + 1] == records[..i] + [records[i]];
  }

  /** All directory records in sorted order, each once. */
  method SortEntries(records: seq<Entry>) returns (entries: array<Entry>)
    ensures fresh(entries) && Sorted(entries[..]) && multiset(entries[..]) == multiset(records)
  {
    hide Sorted;
    entries := new Entry[|records|](_ => Entry([], 0));
    NothingSorted(entries[..0]);
    for i := 0 to |records|
      invariant Sorted(entries[..i]) && multiset(entries[..i]) == multiset(records[..i])
    {
      MoreRecords(records, i);
      InsertSorted(entries, i, records[i]);
    }
    assert entries[..|records|] == entries[..] && records[..|records|] == records;
  }

  lemma NothingSorted(es: seq<Entry>)
    requires es == []
    ensures Sorted(es)
  {
  }

  // Finding by name

  /** computeHash of a name, in 32 bits. */
  function NameHash(name: seq<byte>): (h: nat)
    ensures h < 0x1_0000_0000
  {
    if |name| == 0 then 2 else (NameHash(name[..|name| - 1]) * 31 + name[|name| - 1] as nat) % 0x1_0000_0000
  }

  method ComputeHash(name: seq<byte>) returns (h: nat)
    ensures h == NameHash(name)
  {
    h := 2;
    for i := 0 to |name|
      invariant h == NameHash(name[..i])
    {
      assert name[..i + 1][..i] == name[..i];
      h := (h * 31 + name[i] as nat) % 0x1_0000_0000;
    }
    assert name[..|name|] == name;
  }

  function NameOf(e: Entry): seq<byte> { e.name }

  /** The first entry of each name. */
  function Firsts(es: seq<Entry>): (m: map<seq<byte>, Entry>)
    ensures forall e :: e in es ==> e.name in m
    ensures forall k :: k in m ==> m[k] in es && m[k].name == k
  {
    if |es| == 0 then map[]
    else
      var m := Firsts(es[..|es| - 1]);
      var e := es[|es| - 1];
      if e.name in m then m else m[e.name := e]
  }

  type Directory = HashTable<seq<byte>, Entry>

  /** Adds one entry; an entry whose name is there already is left out. */
  method AddEntryToHashTable(table: Directory, e: Entry)
    requires table.Valid() && table.key == NameOf && table.hash == NameHash
    requires !Overloads(table.numEntries + table.numDeadEntries + 1, table.entries.Length)
    modifies table, table.entries
    ensures table.Valid() && table.entries == old(table.entries)
    ensures table.Contents() == if e.name in old(table.Contents()) then old(table.Contents()) else old(table.Contents())[e.name := e]
    ensures table.numEntries <= old(table.numEntries) + 1 && table.numDeadEntries == old(table.numDeadEntries)
  {
    hide Sound, Meaning;
    var itemHash := ComputeHash(e.name);
    var found := table.Lookup(itemHash, e.name, Some(e));
  }

  lemma FirstsStep(es: seq<Entry>, i: nat)
    requires i < |es|
    ensures Firsts(es[..i + 1]) == if es[i].name in Firsts(es[..i]) then Firsts(es[..i]) else Firsts(es[..i])[es[i].name := es[i]]
  {
    assert es[..i + 1][..i] == es[..i];
  }

  /** Adds the sorted entries to a table made for their number: it is never resized, and of entries
      with the same name the first stays. */
  method BuildTable(entries: seq<Entry>) returns (table: Directory)
    ensures fresh(table) && fresh(table.entries) && table.Valid() && table.key == NameOf && table.hash == NameHash
    ensures table.Contents() == Firsts(entries)
  {
    hide Sound, Meaning, Firsts;
    table := new HashTable.Create(HashSize(|entries|), NameOf, NameHash);
    ghost var slots := table.entries;
    FirstsNone(entries[..0]);
    for i := 0 to |entries|
      invariant table.Valid() && fresh(table) && table.entries == slots && fresh(slots)
      invariant table.key == NameOf && table.hash == NameHash
      invariant table.Contents() == Firsts(entries[..i])
      invariant table.numDeadEntries == 0 && table.numEntries <= i
    {
      FirstsStep(entries, i);
      LiveCounted(table);
      CapacityHolds(|entries|, table.numEntries + 1, slots.Length);
      AddEntryToHashTable(table, entries[i]);
    }
    assert entries[..|entries|] == entries;
  }

  lemma FirstsNone(es: seq<Entry>)
    requires es == []
    ensures Firsts(es) == map[]
  {
  }

  lemma LiveCounted(table: Directory)
    requires table.Valid()
    ensures table.numEntries >= 0
  {
  }

  /** Sorting and indexing the directory of an archive: a name is found exactly when a record bears it. */
  method IndexRecords(records: seq<Entry>) returns (entries: array<Entry>, table: Directory)
    ensures Sorted(entries[..]) && multiset(entries[..]) == multiset(records)
    ensures table.Valid() && table.key == NameOf && table.hash == NameHash && table.Contents() == Firsts(entries[..])
    ensures forall r :: r in records ==> r.name in table.Contents()
    ensures forall n :: n in table.Contents() ==> table.Contents()[n] in records && table.Contents()[n].name == n
  {
    hide Sound, Meaning, Sorted, Firsts;
    entries := SortEntries(records);
    SameMembers(records, entries[..]);
    table := BuildTable(entries[..]);
  }

  lemma SameMembers(records: seq<Entry>, es: seq<Entry>)
    requires multiset(es) == multiset(records)
    ensures forall r :: r in records <==> r in es
  {
    assert forall r :: r in records <==> r in multiset(records);
    assert forall r :: r in es <==> r in multiset(es);
  }

  /** Looks a name up. */
  method FindZipEntry(table: Directory, name: seq<byte>) returns (r: Option<Entry>)
    requires table.Valid() && table.key == NameOf && table.hash == NameHash
    modifies table, table.entries
    ensures table.Valid() && table.Contents() == old(table.Contents())
    ensures r == if name in table.Contents() then Some(table.Contents()[name]) else None
  {
    var itemHash := ComputeHash(name);
    r := table.Lookup(itemHash, name, None);
  }

  // Walking a directory prefix

  predicate HasPrefix(e: Entry, zpath: seq<byte>) {
    |e.name| >= |zpath| && StrnCmp(e.name, zpath, |zpath|) == 0
  }

  lemma {:induction false} PrefixMeans(name: seq<byte>, zpath: seq<byte>)
    requires |name| >= |zpath|
    ensures StrnCmp(name, zpath, |zpath|) == 0 <==> zpath <= name
    decreases |zpath|
  {
    if 0 < |zpath| {
      PrefixMeans(name[1..], zpath[1..]);
      assert StrnCmp(name[1..], zpath[1..], |zpath| - 1) == StrnCmp(name[1..], zpath[1..], |zpath[1..]|);
      assert zpath <= name <==> name[0] == zpath[0] && zpath[1..] <= name[1..] by {
        if name[0] == zpath[0] && zpath[1..] <= name[1..] {
          assert zpath == [zpath[0]] + zpath[1..] && name == [name[0]] + name[1..];
        }
      }
    }
  }

  /** Names between two names with a prefix have it too. */
  lemma {:induction false} PrefixBetween(a: seq<byte>, b: seq<byte>, c: seq<byte>, zpath: seq<byte>)
    requires NameCmp(a, b) <= 0 && NameCmp(b, c) <= 0 && zpath <= a && zpath <= c
    ensures zpath <= b
    decreases |zpath|
  {
    if 0 < |zpath| {
      assert a[0] == zpath[0] == c[0];
      assert 0 < |b|;
      NameCmpUnfolds(a, b);
      NameCmpUnfolds(b, c);
      assert zpath[1..] <= a[1..] && zpath[1..] <= c[1..];
      PrefixBetween(a[1..], b[1..], c[1..], zpath[1..]);
      assert zpath == [zpath[0]] + zpath[1..] && b == [b[0]] + b[1..];
    }
  }

  /** The indices of the entries with the prefix: a full scan. */
  function Matching(es: seq<Entry>, zpath: seq<byte>, n: nat): seq<nat>
    requires n <= |es|
  {
    if n == 0 then [] else Matching(es, zpath, n - 1) + if HasPrefix(es[n - 1], zpath) then [n - 1] else []
  }

  lemma {:induction false} MatchingStops(es: seq<Entry>, zpath: seq<byte>, m: nat, n: nat)
    requires m <= n <= |es| && forall i :: m <= i < n ==> !HasPrefix(es[i], zpath)
    ensures Matching(es, zpath, n) == Matching(es, zpath, m)
    decreases n
  {
    if m < n { MatchingStops(es, zpath, m, n - 1); }
  }

  /** After a match, the first mismatch ends the block. */
  lemma BlockEnds(es: seq<Entry>, zpath: seq<byte>, k: nat, i: nat)
    requires Sorted(es) && k < i < |es| && HasPrefix(es[k], zpath) && !HasPrefix(es[i], zpath)
    ensures forall j :: i <= j < |es| ==> !HasPrefix(es[j], zpath)
  {
    forall j | i <= j < |es| ensures !HasPrefix(es[j], zpath) {
      if HasPrefix(es[j], zpath) && i < j {
        PrefixMeans(es[k].name, zpath);
        PrefixMeans(es[j].name, zpath);
        assert NameCmp(es[k].name, es[i].name) <= 0 && NameCmp(es[i].name, es[j].name) <= 0;
        PrefixBetween(es[k].name, es[i].name, es[j].name, zpath);
        PrefixMeans(es[i].name, zpath);
      }
    }
  }

  /** The directory path with a slash behind it, unless it is empty. */
  function Canonical(zipDir: seq<byte>): seq<byte> {
    if |zipDir| > 0 && zipDir[|zipDir| - 1] != 47 then zipDir + [47] else zipDir
  }

  /** Is the name that of something in the directory: the directory, written with a slash behind it or without, then a
      slash, then anything? */
  ghost predicate InDirectory(name: seq<byte>, zipDir: seq<byte>) {
    zipDir == [] || exists dir, rest :: (zipDir == dir + [47] || (zipDir == dir && Unslashed(dir))) && name == dir + [47] + rest
  }

  predicate Unslashed(dir: seq<byte>) {
    dir == [] || dir[|dir| - 1] != 47
  }

  lemma CanonicalMeans(name: seq<byte>, zipDir: seq<byte>)
    ensures Canonical(zipDir) <= name <==> InDirectory(name, zipDir)
  {
    var zpath := Canonical(zipDir);
    if zipDir != [] {
      var dir := zpath[..|zpath| - 1];
      assert zpath == dir + [47];
      if zpath <= name {
        assert name == dir + [47] + name[|zpath|..];
        assert zipDir == dir + [47] || (zipDir == dir && Unslashed(dir));
      }
      if InDirectory(name, zipDir) {
        var d, rest :| (zipDir == d + [47] || (zipDir == d && Unslashed(d))) && name == d + [47] + rest;
        assert zpath == d + [47];
      }
    }
  }

  lemma {:induction false} MatchingMeans(es: seq<Entry>, zipDir: seq<byte>, n: nat)
    requires n <= |es|
    ensures var m := Matching(es, Canonical(zipDir), n);
      && (forall i: nat :: i in m <==> i < n && InDirectory(es[i].name, zipDir))
      && (forall a, b :: 0 <= a < b < |m| ==> m[a] < m[b])
  {
    hide HasPrefix, InDirectory, Canonical;
    if n > 0 {
      MatchingMeans(es, zipDir, n - 1);
      HasPrefixMeans(es[n - 1], Canonical(zipDir));
      CanonicalMeans(es[n - 1].name, zipDir);
      var m := Matching(es, Canonical(zipDir), n - 1);
      forall a | 0 <= a < |m| ensures m[a] < n - 1 { assert m[a] in m; }
    }
  }

  /** Every entry below the directory is visited, and no other, in order; a walk over the sorted entries need not see
      them all. */
  method VisitBelow(es: seq<Entry>, zipDir: seq<byte>) returns (visited: seq<nat>)
    requires Sorted(es)
    ensures forall i: nat :: i in visited <==> i < |es| && InDirectory(es[i].name, zipDir)
    ensures forall a, b :: 0 <= a < b < |visited| ==> visited[a] < visited[b]
  {
    visited := Walk(es, Canonical(zipDir));
    MatchingMeans(es, zipDir, |es|);
  }

  /** The walk of a recursive extraction: it gives up on the first mismatch after a match, and has then
      visited every entry with the prefix. */
  method Walk(es: seq<Entry>, zpath: seq<byte>) returns (visited: seq<nat>)
    requires Sorted(es)
    ensures visited == Matching(es, zpath, |es|)
  {
    hide HasPrefix, Sorted;
    visited := [];
    var seenMatch := false;
    ghost var k := 0;
    for i := 0 to |es|
      invariant visited == Matching(es, zpath, i)
      invariant seenMatch ==> k < i && HasPrefix(es[k], zpath)
    {
      HasPrefixMeans(es[i], zpath);
      if |es[i].name| < |zpath| {
        if seenMatch {
          BlockEnds(es, zpath, k, i);
          MatchingStops(es, zpath, i, |es|);
          return;
        }
        continue;
      }
      if StrnCmp(es[i].name, zpath, |zpath|) != 0 {
        if seenMatch {
          BlockEnds(es, zpath, k, i);
          MatchingStops(es, zpath, i, |es|);
          return;
        }
        continue;
      }
      seenMatch := true;
      k := i;
      visited := visited + [i];
    }
  }

  lemma HasPrefixMeans(e: Entry, zpath: seq<byte>)
    ensures HasPrefix(e, zpath) <==> |e.name| >= |zpath| && StrnCmp(e.name, zpath, |zpath|) == 0
    ensures HasPrefix(e, zpath) <==> zpath <= e.name
  {
    if |e.name| >= |zpath| { PrefixMeans(e.name, zpath); }
  }
}
