/** Open addressing on values: slots, probe paths and counts. */
module HashSlots {

  /** An empty slot, a tombstone, or an item under the hash it was added with. */
  datatype Slot<T> = Empty | Dead | Live(hash: nat, item: T)

  /** The t-th slot of the probe path from home, wrapping around. */
  function At(home: nat, t: nat, size: nat): (i: nat)
    requires home < size && t < size
    ensures i < size
  {
    if home + t < size then home + t else home + t - size
  }

  /** How far slot i is from home along the path. */
  function Dist(home: nat, i: nat, size: nat): (t: nat)
    requires home < size && i < size
    ensures t < size && At(home, t, size) == i
    ensures forall u :: 0 <= u < size && At(home, u, size) == i ==> u == t
  {
    if home <= i then i - home else i + size - home
  }

  function HomeOf(hash: nat, size: nat): (h: nat)
    requires 0 < size
    ensures h < size
  {
    hash % size
  }

  /** The first d slots of the path are in use. */
  ghost predicate PathUsed<T>(slots: seq<Slot<T>>, home: nat, d: nat)
    requires home < |slots|
  {
    d <= |slots| && forall t :: 0 <= t < d ==> slots[At(home, t, |slots|)] != Empty
  }

  /** Every live entry is reachable from its home slot through slots in use. */
  ghost predicate Reachable<T>(slots: seq<Slot<T>>) {
    forall i :: 0 <= i < |slots| && slots[i].Live? ==>
      PathUsed(slots, HomeOf(slots[i].hash, |slots|), Dist(HomeOf(slots[i].hash, |slots|), i, |slots|))
  }

  /** place says where each key lives, and every live entry is the place of its key, under its key's hash. */
  ghost predicate Placed<K, T>(slots: seq<Slot<T>>, key: T -> K, hash: K -> nat, place: map<K, nat>) {
    && (forall k :: k in place ==> place[k] < |slots| && slots[place[k]].Live? && key(slots[place[k]].item) == k)
    && (forall i :: 0 <= i < |slots| && slots[i].Live? ==>
          key(slots[i].item) in place && place[key(slots[i].item)] == i && slots[i].hash == hash(key(slots[i].item)))
  }

  function CountLive<T>(slots: seq<Slot<T>>): (n: nat)
    ensures n <= |slots|
  {
    if |slots| == 0 then 0 else CountLive(slots[..|slots| - 1]) + if slots[|slots| - 1].Live? then 1 else 0
  }

  function CountDead<T>(slots: seq<Slot<T>>): (n: nat)
    ensures CountLive(slots) + n <= |slots|
  {
    if |slots| == 0 then 0 else CountDead(slots[..|slots| - 1]) + if slots[|slots| - 1].Dead? then 1 else 0
  }

  lemma {:induction false} CountSet<T>(slots: seq<Slot<T>>, i: nat, s: Slot<T>)
    requires i < |slots|
    ensures CountLive(slots[i := s]) + (if slots[i].Live? then 1 else 0) == CountLive(slots) + (if s.Live? then 1 else 0)
    ensures CountDead(slots[i := s]) + (if slots[i].Dead? then 1 else 0) == CountDead(slots) + (if s.Dead? then 1 else 0)
    decreases |slots|
  {
    var n := |slots| - 1;
    if i < n {
      CountSet(slots[..n], i, s);
      assert slots[i := s][..n] == slots[..n][i := s];
    } else {
      assert slots[i := s][..n] == slots[..n];
    }
  }

  lemma {:induction false} CountFull<T>(slots: seq<Slot<T>>)
    requires forall i :: 0 <= i < |slots| ==> slots[i] != Empty
    ensures CountLive(slots) + CountDead(slots) == |slots|
  {
    if |slots| > 0 { CountFull(slots[..|slots| - 1]); }
  }

  lemma {:induction false} CountNone<T>(slots: seq<Slot<T>>)
    requires forall i :: 0 <= i < |slots| ==> slots[i] == Empty
    ensures CountLive(slots) == 0 && CountDead(slots) == 0
  {
    if |slots| > 0 { CountNone(slots[..|slots| - 1]); }
  }

  /** A table that is not full stops every probe before it has gone round. */
  lemma ProbeEnds<T>(slots: seq<Slot<T>>, home: nat, d: nat)
    requires home < |slots| && PathUsed(slots, home, d) && CountLive(slots) + CountDead(slots) < |slots|
    ensures d < |slots|
  {
    if d == |slots| {
      forall i | 0 <= i < |slots| ensures slots[i] != Empty {
        assert slots[At(home, Dist(home, i, |slots|), |slots|)] != Empty;
      }
      CountFull(slots);
    }
  }

  lemma PathGrows<T>(slots: seq<Slot<T>>, home: nat, d: nat)
    requires home < |slots| && d < |slots| && PathUsed(slots, home, d) && slots[At(home, d, |slots|)] != Empty
    ensures PathUsed(slots, home, d + 1)
  {
  }

  /** An empty slot at the end of a key's path: the key is nowhere in the table. */
  lemma AbsentAt<K, T>(slots: seq<Slot<T>>, key: T -> K, hash: K -> nat, place: map<K, nat>, k: K, d: nat)
    requires 0 < |slots| && Placed(slots, key, hash, place) && Reachable(slots) && d < |slots|
    requires slots[At(HomeOf(hash(k), |slots|), d, |slots|)] == Empty
    requires forall t :: 0 <= t < d ==> var s := slots[At(HomeOf(hash(k), |slots|), t, |slots|)]; s.Live? ==> key(s.item) != k
    ensures k !in place
  {
    var home := HomeOf(hash(k), |slots|);
    assert slots[At(home, d, |slots|)] == Empty;
  }

  /** Putting an item into the empty slot that ends its path. */
  lemma AddSlot<K, T>(slots: seq<Slot<T>>, key: T -> K, hash: K -> nat, place: map<K, nat>, item: T, d: nat)
    requires 0 < |slots| && Placed(slots, key, hash, place) && Reachable(slots)
    requires key(item) !in place && d < |slots| && PathUsed(slots, HomeOf(hash(key(item)), |slots|), d)
    requires slots[At(HomeOf(hash(key(item)), |slots|), d, |slots|)] == Empty
    ensures var i := At(HomeOf(hash(key(item)), |slots|), d, |slots|);
      var slots' := slots[i := Live(hash(key(item)), item)];
      && Placed(slots', key, hash, place[key(item) := i]) && Reachable(slots')
      && CountLive(slots') == CountLive(slots) + 1 && CountDead(slots') == CountDead(slots)
  {
    hide HomeOf;
    var home := HomeOf(hash(key(item)), |slots|);
    var i := At(home, d, |slots|);
    var slots' := slots[i := Live(hash(key(item)), item)];
    CountSet(slots, i, Live(hash(key(item)), item));
    UsedStays(slots, slots');
    assert PathUsed(slots', home, d);
    assert Dist(home, i, |slots|) == d;
  }

  /** More slots in use: paths stay paths. */
  lemma UsedStays<T>(slots: seq<Slot<T>>, slots': seq<Slot<T>>)
    requires |slots| == |slots'| && forall i :: 0 <= i < |slots| && slots[i] != Empty ==> slots'[i] != Empty
    ensures forall home, d: nat :: 0 <= home < |slots| && PathUsed(slots, home, d) ==> PathUsed(slots', home, d)
  {
  }

  /** Turning an entry into a tombstone: the paths over it stay paths. */
  lemma RemoveSlot<K, T>(slots: seq<Slot<T>>, key: T -> K, hash: K -> nat, place: map<K, nat>, i: nat)
    requires Placed(slots, key, hash, place) && Reachable(slots) && i < |slots| && slots[i].Live?
    ensures var slots' := slots[i := Dead];
      && Placed(slots', key, hash, place - {key(slots[i].item)}) && Reachable(slots')
      && CountLive(slots') == CountLive(slots) - 1 && CountDead(slots') == CountDead(slots) + 1
  {
    hide HomeOf;
    var slots' := slots[i := Dead];
    CountSet(slots, i, Dead);
    UsedStays(slots, slots');
  }
}
