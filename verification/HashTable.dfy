/** The hash table of the zip directory: open addressing, tombstones, doubling. */
module HashTables {
  import opened Bytes
  import opened HashSlots
  import opened RoundUp

  const LOAD_NUMER := 5
  const LOAD_DENOM := 8

  /** The capacity for n entries. */
  function HashSize(n: nat): nat {
    n * LOAD_DENOM / LOAD_NUMER + 1
  }

  /** Would one more entry overload a table? */
  predicate Overloads(used: int, size: int) {
    used * LOAD_DENOM > size * LOAD_NUMER
  }

  /** The size of an empty table after that many adds of new keys. */
  function SizeAfter(size: nat, adds: nat): nat {
    if adds == 0 then size
    else if Overloads(adds, SizeAfter(size, adds - 1)) then 2 * SizeAfter(size, adds - 1)
    else SizeAfter(size, adds - 1)
  }

  /** A table made for n entries takes n entries without being resized. */
  lemma {:induction false} CapacityHolds(n: nat, adds: nat, size: nat)
    requires size >= HashSize(n) && adds <= n
    ensures SizeAfter(size, adds) == size && !Overloads(adds, size) && 8 * adds <= 5 * size
  {
    if adds > 0 { CapacityHolds(n, adds - 1, size); }
  }

  /** That is the least size that so many entries leave less than five eighths full. */
  lemma HashSizeLeast(n: nat, size: nat)
    ensures 5 * size > 8 * n <==> size >= HashSize(n)
  {
  }

  /** All that holds of a table between calls: slots, counts and load. */
  ghost predicate Sound<K, T>(slots: seq<Slot<T>>, key: T -> K, hash: K -> nat, place: map<K, nat>, live: int, dead: int) {
    && 0 < |slots| && PowerOfTwo(|slots|)
    && Placed(slots, key, hash, place) && Reachable(slots)
    && live == CountLive(slots) && dead == CountDead(slots)
    && !Overloads(live + dead, |slots|)
  }

  /** The map a table stands for. */
  ghost function Meaning<K, T>(slots: seq<Slot<T>>, place: map<K, nat>): map<K, T> {
    map k | k in place && place[k] < |slots| && slots[place[k]].Live? :: slots[place[k]].item
  }

  /** A probe from home that has passed d slots without meeting k. */
  ghost predicate Probing<K, T>(slots: seq<Slot<T>>, key: T -> K, k: K, home: nat, d: nat, i: nat) {
    && home < |slots| && d < |slots| && i == At(home, d, |slots|)
    && PathUsed(slots, home, d)
    && forall t :: 0 <= t < d ==> slots[At(home, t, |slots|)].Live? ==> key(slots[At(home, t, |slots|)].item) != k
  }

  lemma ProbeStart<K, T>(slots: seq<Slot<T>>, key: T -> K, k: K, home: nat)
    requires home < |slots|
    ensures Probing(slots, key, k, home, 0, home)
  {
  }

  /** The next slot of the path; there is one, because the table is not full. */
  lemma ProbeNext<K, T>(slots: seq<Slot<T>>, key: T -> K, k: K, home: nat, d: nat, i: nat)
    requires Probing(slots, key, k, home, d, i) && slots[i] != Empty && !(slots[i].Live? && key(slots[i].item) == k)
    requires CountLive(slots) + CountDead(slots) < |slots|
    ensures d + 1 < |slots| && Probing(slots, key, k, home, d + 1, if i + 1 == |slots| then 0 else i + 1)
  {
    PathGrows(slots, home, d);
    ProbeEnds(slots, home, d + 1);
  }

  /** A probe that meets an empty slot has shown the key to be absent. */
  lemma ProbeMiss<K, T>(slots: seq<Slot<T>>, key: T -> K, hash: K -> nat, place: map<K, nat>, live: int,
                        dead: int, k: K, d: nat, i: nat)
    requires Sound(slots, key, hash, place, live, dead)
    requires Probing(slots, key, k, HomeOf(hash(k), |slots|), d, i) && slots[i] == Empty
    ensures k !in Meaning(slots, place)
  {
    AbsentAt(slots, key, hash, place, k, d);
  }

  lemma ProbeHit<K, T>(slots: seq<Slot<T>>, key: T -> K, hash: K -> nat, place: map<K, nat>, live: int, dead: int, i: nat)
    requires Sound(slots, key, hash, place, live, dead) && i < |slots| && slots[i].Live?
    ensures key(slots[i].item) in Meaning(slots, place) && Meaning(slots, place)[key(slots[i].item)] == slots[i].item
    ensures slots[i].hash == hash(key(slots[i].item))
  {
  }

  lemma SoundRoom<K, T>(slots: seq<Slot<T>>, key: T -> K, hash: K -> nat, place: map<K, nat>, live: int, dead: int)
    requires Sound(slots, key, hash, place, live, dead)
    ensures 0 < |slots| && CountLive(slots) + CountDead(slots) < |slots|
  {
  }

  /** An add before the table has been resized: everything but the load. */
  ghost predicate Loose<K, T>(slots: seq<Slot<T>>, key: T -> K, hash: K -> nat, place: map<K, nat>, live: int, dead: int) {
    && 0 < |slots| && PowerOfTwo(|slots|)
    && Placed(slots, key, hash, place) && Reachable(slots)
    && live == CountLive(slots) && dead == CountDead(slots)
  }

  lemma AddIsLoose<K, T>(slots: seq<Slot<T>>, key: T -> K, hash: K -> nat, place: map<K, nat>, live: int, dead: int,
                         item: T, d: nat, i: nat)
    requires Sound(slots, key, hash, place, live, dead)
    requires Probing(slots, key, key(item), HomeOf(hash(key(item)), |slots|), d, i) && slots[i] == Empty
    ensures var slots' := slots[i := Live(hash(key(item)), item)]; var place' := place[key(item) := i];
      && Loose(slots', key, hash, place', live + 1, dead)
      && Meaning(slots', place') == Meaning(slots, place)[key(item) := item]
      && (!Overloads(live + 1 + dead, |slots|) ==> Sound(slots', key, hash, place', live + 1, dead))
      && !Overloads(live + 1, 2 * |slots|)
  {
    hide HomeOf, PowerOfTwo;
    AbsentAt(slots, key, hash, place, key(item), d);
    AddSlot(slots, key, hash, place, item, d);
  }

  lemma RemoveIsSound<K, T>(slots: seq<Slot<T>>, key: T -> K, hash: K -> nat, place: map<K, nat>, live: int,
                            dead: int, i: nat)
    requires Sound(slots, key, hash, place, live, dead) && i < |slots| && slots[i].Live?
    ensures var place' := place - {key(slots[i].item)};
      && Sound(slots[i := Dead], key, hash, place', live - 1, dead + 1)
      && Meaning(slots[i := Dead], place') == Meaning(slots, place) - {key(slots[i].item)}
  {
    hide HomeOf, PowerOfTwo, Reachable;
    RemoveSlot(slots, key, hash, place, i);
  }

  /** Moving into a larger table: the entries before i of the old slots have arrived. */
  ghost predicate Moving<K, T>(slots: seq<Slot<T>>, key: T -> K, hash: K -> nat, place: map<K, nat>,
                               slots': seq<Slot<T>>, place': map<K, nat>, i: nat)
  {
    && i <= |slots| < |slots'|
    && Placed(slots, key, hash, place) && Placed(slots', key, hash, place') && Reachable(slots')
    && CountLive(slots') == CountLive(slots[..i]) && CountDead(slots') == 0
    && (forall k :: k in place' ==> k in place && place[k] < i)
    && (forall k :: k in place && place[k] < i ==> k in place')
    && (forall k :: k in place' ==> slots'[place'[k]].item == slots[place[k]].item)
  }

  lemma MovingStart<K, T>(slots: seq<Slot<T>>, key: T -> K, hash: K -> nat, place: map<K, nat>, slots': seq<Slot<T>>)
    requires Placed(slots, key, hash, place) && |slots| < |slots'| && forall i :: 0 <= i < |slots'| ==> slots'[i] == Empty
    ensures Moving(slots, key, hash, place, slots', map[], 0)
  {
    CountNone(slots');
  }

  lemma MovingSkip<K, T>(slots: seq<Slot<T>>, key: T -> K, hash: K -> nat, place: map<K, nat>,
                         slots': seq<Slot<T>>, place': map<K, nat>, i: nat)
    requires Moving(slots, key, hash, place, slots', place', i) && i < |slots| && !slots[i].Live?
    ensures Moving(slots, key, hash, place, slots', place', i + 1)
  {
    assert slots[..i + 1][..i] == slots[..i];
  }

  lemma MovingAdd<K, T>(slots: seq<Slot<T>>, key: T -> K, hash: K -> nat, place: map<K, nat>,
                        slots': seq<Slot<T>>, place': map<K, nat>, i: nat, d: nat, j: nat)
    requires Moving(slots, key, hash, place, slots', place', i) && i < |slots| && slots[i].Live?
    requires Probing(slots', key, key(slots[i].item), HomeOf(slots[i].hash, |slots'|), d, j) && slots'[j] == Empty
    ensures slots[i].hash == hash(key(slots[i].item))
    ensures Moving(slots, key, hash, place, slots'[j := slots[i]], place'[key(slots[i].item) := j], i + 1)
  {
    hide HomeOf, Reachable;
    AddSlot(slots', key, hash, place', slots[i].item, d);
    assert slots[..i + 1][..i] == slots[..i];
  }

  lemma MovingRoom<K, T>(slots: seq<Slot<T>>, key: T -> K, hash: K -> nat, place: map<K, nat>,
                         slots': seq<Slot<T>>, place': map<K, nat>, i: nat)
    requires Moving(slots, key, hash, place, slots', place', i)
    ensures i <= |slots| < |slots'| && CountLive(slots') + CountDead(slots') < |slots'|
  {
  }

  /** While moving, the path never meets the key that is being moved. */
  lemma MovingProbe<K, T>(slots: seq<Slot<T>>, key: T -> K, hash: K -> nat, place: map<K, nat>,
                          slots': seq<Slot<T>>, place': map<K, nat>, i: nat, j: nat)
    requires Moving(slots, key, hash, place, slots', place', i) && i < |slots| && slots[i].Live?
    requires j < |slots'| && slots'[j].Live?
    ensures key(slots'[j].item) != key(slots[i].item)
  {
  }

  lemma MovingEnd<K, T>(slots: seq<Slot<T>>, key: T -> K, hash: K -> nat, place: map<K, nat>, live: int, dead: int,
                        slots': seq<Slot<T>>, place': map<K, nat>)
    requires Loose(slots, key, hash, place, live, dead) && |slots'| == 2 * |slots| && !Overloads(live, |slots'|)
    requires Moving(slots, key, hash, place, slots', place', |slots|)
    ensures Sound(slots', key, hash, place', live, 0) && Meaning(slots', place') == Meaning(slots, place)
  {
    assert slots[..|slots|] == slots;
  }

  class HashTable<K(==), T(==)> {
    const key: T -> K
    const hash: K -> nat
    var entries: array<Slot<T>>
    var numEntries: int
    var numDeadEntries: int
    ghost var place: map<K, nat>

    ghost predicate Valid()
      reads this, entries
    {
      Sound(entries[..], key, hash, place, numEntries, numDeadEntries)
    }

    /** The finite map the table stands for. */
    ghost function Contents(): map<K, T>
      reads this, entries
    {
      Meaning(entries[..], place)
    }

    constructor Create(initialSize: nat, key: T -> K, hash: K -> nat)
      requires 0 < initialSize
      ensures Valid() && fresh(entries) && Contents() == map[]
      ensures this.key == key && this.hash == hash
      ensures initialSize <= entries.Length < 2 * initialSize + 1 && numEntries == numDeadEntries == 0
    {
      this.key, this.hash := key, hash;
      var size := RoundUpPower2(initialSize, 1);
      var slots := new Slot<T>[size](_ => Empty);
      entries := slots;
      numEntries, numDeadEntries := 0, 0;
      place := map[];
      new;
      CountNone(entries[..]);
    }

    /** Empties every slot. */
    method Clear()
      requires Valid()
      modifies this, entries
      ensures Valid() && entries == old(entries) && Contents() == map[] && numEntries == numDeadEntries == 0
    {
      SoundRoom(entries[..], key, hash, place, numEntries, numDeadEntries);
      assert PowerOfTwo(entries.Length);
      for i := 0 to entries.Length
        invariant entries == old(entries)
        invariant forall k :: 0 <= k < i ==> entries[k] == Empty
      {
        entries[i] := Empty;
      }
      numEntries, numDeadEntries := 0, 0;
      place := map[];
      CountNone(entries[..]);
    }

    method CountTombStones() returns (count: nat)
      ensures count == CountDead(entries[..])
    {
      count := 0;
      for i := 0 to entries.Length
        invariant count == CountDead(entries[..i])
      {
        assert entries[..i + 1][..i] == entries[..i];
        if entries[i].Dead? { count := count + 1; }
      }
      assert entries[..entries.Length] == entries[..];
    }

    /** Probes from the home slot until a match or an empty slot. */
    method Probe(itemHash: nat, k: K) returns (i: nat, ghost d: nat)
      requires Valid() && itemHash == hash(k)
      ensures 0 < entries.Length && Probing(entries[..], key, k, HomeOf(hash(k), entries.Length), d, i) && i < entries.Length
      ensures entries[i] == Empty ==> k !in Contents()
      ensures entries[i] != Empty ==> entries[i].Live? && key(entries[i].item) == k && k in Contents() && Contents()[k] == entries[i].item
    {
      hide Sound, Meaning, Probing, ItemProbing, HomeOf, CountLive, CountDead;
      ghost var slots := entries[..];
      SoundRoom(slots, key, hash, place, numEntries, numDeadEntries);
      var home := HomeOf(itemHash, entries.Length);
      i, d := home, 0;
      ProbeStart(slots, key, k, home);
      while entries[i] != Empty
        invariant i < entries.Length && d < entries.Length && Probing(slots, key, k, home, d, i)
        decreases entries.Length - d
      {
        if entries[i].Live? {
          ProbeHit(slots, key, hash, place, numEntries, numDeadEntries, i);
          if entries[i].hash == itemHash && key(entries[i].item) == k {
            return;
          }
        }
        ProbeNext(slots, key, k, home, d, i);
        i, d := i + 1, d + 1;
        if i == entries.Length {
          if entries.Length == 1 {
            assert false;  // a table of one slot is always empty
          }
          i := 0;
        }
      }
      ProbeMiss(slots, key, hash, place, numEntries, numDeadEntries, k, d, i);
    }

    /** Moves all live entries into a fresh table of twice the size and drops the tombstones. */
    method Resize()
      requires Loose(entries[..], key, hash, place, numEntries, numDeadEntries)
      requires !Overloads(numEntries, 2 * entries.Length)
      modifies this
      ensures Valid() && fresh(entries) && entries.Length == 2 * old(entries.Length)
      ensures Contents() == old(Contents()) && numEntries == old(numEntries) && numDeadEntries == 0
    {
      hide Sound, Loose, Moving, Meaning, Placed, Reachable, HomeOf;
      ghost var slots, place0 := entries[..], place;
      LooseFacts(slots, key, hash, place, numEntries, numDeadEntries);
      var tombStones := CountTombStones();
      assert tombStones == numDeadEntries;
      var newEntries := new Slot<T>[2 * entries.Length](_ => Empty);
      ghost var place': map<K, nat> := map[];
      MovingStart(slots, key, hash, place0, newEntries[..]);
      for i := 0 to entries.Length
        invariant entries == old(entries) && entries[..] == slots && newEntries.Length == 2 * entries.Length
        invariant numEntries == old(numEntries) && numDeadEntries == old(numDeadEntries) && place == place0
        invariant Moving(slots, key, hash, place0, newEntries[..], place', i)
      {
        if entries[i].Live? {
          var newIdx, d := FindFree(slots, key, hash, place0, newEntries, place', i, entries[i].hash);
          MovingAdd(slots, key, hash, place0, newEntries[..], place', i, d, newIdx);
          ghost var was := newEntries[..];
          newEntries[newIdx] := entries[i];
          assert newEntries[..] == was[newIdx := slots[i]];
          place' := place'[key(slots[i].item) := newIdx];
        } else {
          MovingSkip(slots, key, hash, place0, newEntries[..], place', i);
        }
      }
      MovingEnd(slots, key, hash, place0, numEntries, numDeadEntries, newEntries[..], place');
      entries, numDeadEntries := newEntries, 0;
      place := place';
      SoundFacts(entries[..], key, hash, place, numEntries, numDeadEntries);
      tombStones := CountTombStones();
      assert tombStones == 0;
    }

    /** The probe of the resize: the first empty slot of the path. */
    static method FindFree(ghost slots: seq<Slot<T>>, ghost key: T -> K, ghost hash: K -> nat, ghost place: map<K, nat>,
                           newEntries: array<Slot<T>>, ghost place': map<K, nat>, ghost i: nat, itemHash: nat)
      returns (newIdx: nat, ghost d: nat)
      requires Moving(slots, key, hash, place, newEntries[..], place', i) && i < |slots| && slots[i].Live?
      requires itemHash == slots[i].hash
      ensures newIdx < newEntries.Length && newEntries[newIdx] == Empty
      ensures Probing(newEntries[..], key, key(slots[i].item), HomeOf(slots[i].hash, newEntries.Length), d, newIdx)
    {
      hide *;
      MovingRoom(slots, key, hash, place, newEntries[..], place', i);
      ghost var k := key(slots[i].item);
      var home := HomeOf(itemHash, newEntries.Length);
      newIdx, d := home, 0;
      ProbeStart(newEntries[..], key, k, home);
      while newEntries[newIdx] != Empty
        invariant newIdx < newEntries.Length && d < newEntries.Length && Probing(newEntries[..], key, k, home, d, newIdx)
        decreases newEntries.Length - d
      {
        if newEntries[newIdx].Live? { MovingProbe(slots, key, hash, place, newEntries[..], place', i, newIdx); }
        ProbeNext(newEntries[..], key, k, home, d, newIdx);
        newIdx, d := if newIdx + 1 == newEntries.Length then 0 else newIdx + 1, d + 1;
      }
    }

    /** Finds the item of that key; when there is none and an item is given, adds it. */
    method Lookup(itemHash: nat, k: K, add: Option<T>) returns (result: Option<T>)
      requires Valid() && itemHash == hash(k) && (add.Some? ==> key(add.value) == k)
      modifies this, entries
      ensures Valid() && (entries == old(entries) || fresh(entries))
      ensures k in old(Contents()) ==>
        result == Some(old(Contents()[k])) && Contents() == old(Contents()) && entries == old(entries) && entries[..] == old(entries[..])
      ensures k !in old(Contents()) && add == None ==>
        result == None && Contents() == old(Contents()) && entries == old(entries) && entries[..] == old(entries[..])
      ensures k !in old(Contents()) && add.Some? ==>
        && result == add && Contents() == old(Contents())[k := add.value]
        && numEntries == old(numEntries) + 1
        && (if 8 * (old(numEntries + numDeadEntries) + 1) > 5 * old(entries.Length)
            then entries.Length == 2 * old(entries.Length) && numDeadEntries == 0
            else entries == old(entries) && numDeadEntries == old(numDeadEntries))
      ensures k in old(Contents()) || add == None ==> numEntries == old(numEntries) && numDeadEntries == old(numDeadEntries)
    {
      hide Sound, Loose, Meaning, Probing, HomeOf;
      var i, d := Probe(itemHash, k);
      if entries[i] != Empty {
        return Some(entries[i].item);
      }
      if add == None {
        return None;
      }
      AddIsLoose(entries[..], key, hash, place, numEntries, numDeadEntries, add.value, d, i);
      ghost var was := entries[..];
      entries[i] := Live(itemHash, add.value);
      assert entries[..] == was[i := Live(itemHash, add.value)];
      numEntries := numEntries + 1;
      place := place[k := i];
      if Overloads(numEntries + numDeadEntries, entries.Length) {
        Resize();
      }
      SoundFacts(entries[..], key, hash, place, numEntries, numDeadEntries);
      assert numEntries < entries.Length;
      return add;
    }

    /** Turns the entry that holds exactly this item into a tombstone. */
    method Remove(itemHash: nat, item: T) returns (removed: bool)
      requires Valid() && itemHash == hash(key(item))
      modifies this, entries
      ensures Valid() && entries == old(entries)
      ensures removed <==> key(item) in old(Contents()) && old(Contents())[key(item)] == item
      ensures removed ==> Contents() == old(Contents()) - {key(item)}
      ensures removed ==> numEntries == old(numEntries) - 1 && numDeadEntries == old(numDeadEntries) + 1
      ensures !removed ==> Contents() == old(Contents()) && numEntries == old(numEntries) && numDeadEntries == old(numDeadEntries)
    {
      hide Sound, Meaning, Probing, HomeOf;
      var i, d := ProbeItem(itemHash, item);
      if entries[i] == Empty {
        return false;
      }
      RemoveIsSound(entries[..], key, hash, place, numEntries, numDeadEntries, i);
      ghost var was := entries[..];
      entries[i] := Dead;
      assert entries[..] == was[i := Dead];
      numEntries := numEntries - 1;
      numDeadEntries := numDeadEntries + 1;
      place := place - {key(item)};
      return true;
    }

    /** The probe of a removal compares the item itself, and walks past another item of the same key. */
    method ProbeItem(itemHash: nat, item: T) returns (i: nat, ghost d: nat)
      requires Valid() && itemHash == hash(key(item))
      ensures 0 < entries.Length && i < entries.Length && (entries[i] == Empty || (entries[i].Live? && entries[i].item == item))
      ensures entries[i] != Empty <==> key(item) in Contents() && Contents()[key(item)] == item
    {
      hide Sound, Meaning, Probing, ItemProbing, HomeOf, CountLive, CountDead;
      ghost var slots := entries[..];
      SoundRoom(slots, key, hash, place, numEntries, numDeadEntries);
      var home := HomeOf(itemHash, entries.Length);
      i, d := home, 0;
      ItemStart(slots, item, home);
      while entries[i] != Empty
        invariant i < entries.Length && d < entries.Length && ItemProbing(slots, item, home, d, i)
        decreases entries.Length - d
      {
        if entries[i].Live? && entries[i].item == item {
          ProbeHit(slots, key, hash, place, numEntries, numDeadEntries, i);
          return;
        }
        ItemNext(slots, item, home, d, i);
        i, d := if i + 1 == entries.Length then 0 else i + 1, d + 1;
      }
      ItemMiss(slots, key, hash, place, numEntries, numDeadEntries, item, d, i);
    }

    /** The next index, after idx, of a live entry; the table size when there is none. */
    method IterNext(idx: int) returns (i: int)
      requires -1 <= idx < entries.Length
      ensures idx < i <= entries.Length
      ensures forall j :: idx < j < i ==> !entries[j].Live?
      ensures i < entries.Length ==> entries[i].Live?
    {
      i := idx + 1;
      while i < entries.Length && !entries[i].Live?
        invariant idx < i <= entries.Length
        invariant forall j :: idx < j < i ==> !entries[j].Live?
      {
        i := i + 1;
      }
    }
  }

  /** A probe that has passed d slots without meeting the item itself. */
  ghost predicate ItemProbing<T>(slots: seq<Slot<T>>, item: T, home: nat, d: nat, i: nat) {
    && home < |slots| && d < |slots| && i == At(home, d, |slots|)
    && PathUsed(slots, home, d)
    && forall t :: 0 <= t < d ==> slots[At(home, t, |slots|)].Live? ==> slots[At(home, t, |slots|)].item != item
  }

  lemma ItemStart<T>(slots: seq<Slot<T>>, item: T, home: nat)
    requires home < |slots|
    ensures ItemProbing(slots, item, home, 0, home)
  {
  }

  lemma ItemNext<T>(slots: seq<Slot<T>>, item: T, home: nat, d: nat, i: nat)
    requires ItemProbing(slots, item, home, d, i) && slots[i] != Empty && !(slots[i].Live? && slots[i].item == item)
    requires CountLive(slots) + CountDead(slots) < |slots|
    ensures d + 1 < |slots| && ItemProbing(slots, item, home, d + 1, if i + 1 == |slots| then 0 else i + 1)
  {
    PathGrows(slots, home, d);
    ProbeEnds(slots, home, d + 1);
  }

  lemma ItemMiss<K, T>(slots: seq<Slot<T>>, key: T -> K, hash: K -> nat, place: map<K, nat>, live: int,
                       dead: int, item: T, d: nat, i: nat)
    requires Sound(slots, key, hash, place, live, dead)
    requires ItemProbing(slots, item, HomeOf(hash(key(item)), |slots|), d, i) && slots[i] == Empty
    ensures !(key(item) in Meaning(slots, place) && Meaning(slots, place)[key(item)] == item)
  {
    assert slots[At(HomeOf(hash(key(item)), |slots|), d, |slots|)] == Empty;
  }

  lemma LooseFacts<K, T>(slots: seq<Slot<T>>, key: T -> K, hash: K -> nat, place: map<K, nat>, live: int, dead: int)
    requires Loose(slots, key, hash, place, live, dead)
    ensures 0 < |slots| && dead == CountDead(slots) && Placed(slots, key, hash, place)
  {
  }

  lemma SoundFacts<K, T>(slots: seq<Slot<T>>, key: T -> K, hash: K -> nat, place: map<K, nat>, live: int, dead: int)
    requires Sound(slots, key, hash, place, live, dead)
    ensures dead == CountDead(slots) && live < |slots|
  {
  }
}
