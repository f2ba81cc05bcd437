/** Which blocks of a flash partition a writer fills and which a reader returns. */
module FlashBlocks {
  import opened Bytes

  /** What the driver says of a block when asked whether it is bad. */
  datatype Mark = Good | Bad | Unsupported

  /** How an attempt to write a block goes; a garbled block differs from the data at one place. */
  datatype Try = Works | EraseFails | Garbles(at: nat) | RereadFails

  /** How a partition of some blocks behaves: the marks, each of two attempts to write a block, whether reading
      a block fails, by how much reading it raises the driver's count of uncorrectable errors, and whether
      a block can be erased without being written. */
  datatype Wear = Wear(
    mark: nat -> Mark, tries: (nat, nat) -> Try, readFails: nat -> bool, faults: nat -> nat, erases: nat -> bool)

  /** Does a writer that comes to this block fill it? */
  predicate Takes(w: Wear, b: nat) {
    w.mark(b) != Bad && (w.tries(b, 0) == Works || w.tries(b, 1) == Works)
  }

  /** The block a writer fills next, from block p on, of n. */
  function NextWrite(w: Wear, p: nat, n: nat): (q: Option<nat>)
    ensures q.Some? ==> p <= q.value < n && Takes(w, q.value)
    ensures forall b :: p <= b < (if q.Some? then q.value else n) ==> !Takes(w, b)
    decreases n - p
  {
    if p >= n then None else if Takes(w, p) then Some(p) else NextWrite(w, p + 1, n)
  }

  /** The block a reader returns next; stale says that the error count has risen since it was last noted. */
  function NextRead(w: Wear, p: nat, n: nat, stale: bool): (q: Option<nat>)
    ensures q.Some? ==> p <= q.value < n
    decreases n - p
  {
    if p >= n then None
    else
      var moved := stale || w.faults(p) > 0;
      if w.readFails(p) then NextRead(w, p + 1, n, moved)
      else if moved then NextRead(w, p + 1, n, false)
      else if w.mark(p) != Good then NextRead(w, p + 1, n, false)
      else Some(p)
  }

  /** Is this block returned by a reader that has just noted the error count? */
  predicate Clean(w: Wear, b: nat) {
    !w.readFails(b) && w.faults(b) == 0 && w.mark(b) == Good
  }

  /** Reading block i failed and raised the error count, and reading failed up to block j. */
  ghost predicate StaleAt(w: Wear, i: nat, j: nat) {
    i < j && w.faults(i) > 0 && forall k :: i <= k < j ==> w.readFails(k)
  }

  /** What a reader and a writer need to agree: each fills what the other returns, and no block
      comes right behind failed reads that raised the error count. */
  ghost predicate Steady(w: Wear, n: nat) {
    && (forall b :: 0 <= b < n ==> (Takes(w, b) <==> Clean(w, b)))
    && (forall i, j :: 0 <= i < j < n && StaleAt(w, i, j) ==> !Takes(w, j))
  }

  ghost predicate Agree(w: Wear, n: nat) {
    forall p :: 0 <= p <= n ==> NextRead(w, p, n, false) == NextWrite(w, p, n)
  }

  lemma {:induction false} SteadyAgree(w: Wear, p: nat, n: nat, stale: bool)
    requires Steady(w, n) && p <= n
    requires stale ==> exists i :: 0 <= i < p && StaleAt(w, i, p)
    ensures NextRead(w, p, n, stale) == NextWrite(w, p, n)
    decreases n - p
  {
    if p < n {
      var moved := stale || w.faults(p) > 0;
      if w.readFails(p) {
        if w.faults(p) > 0 {
          assert StaleAt(w, p, p + 1);
        } else if stale {
          var i :| 0 <= i < p && StaleAt(w, i, p);
          assert StaleAt(w, i, p + 1);
        }
        SteadyAgree(w, p + 1, n, moved);
      } else if moved || w.mark(p) != Good {
        SteadyAgree(w, p + 1, n, false);
      }
    }
  }

  /** Behind failed reads that raised the count, the reader passes over the next block it can read. */
  lemma {:induction false} StalePasses(w: Wear, i: nat, j: nat, p: nat, n: nat, stale: bool)
    requires StaleAt(w, i, j) && j < n && i <= p <= j && (p > i ==> stale)
    ensures NextRead(w, p, n, stale) != Some(j)
    decreases j - p
  {
    if p < j { StalePasses(w, i, j, p + 1, n, true); }
  }

  lemma {:induction false} NothingBetween(w: Wear, p: nat, j: nat, n: nat)
    requires p <= j < n && Takes(w, j) && forall k :: p <= k < j ==> !Takes(w, k)
    ensures NextWrite(w, p, n) == Some(j)
    decreases j - p
  {
    if p < j { NothingBetween(w, p + 1, j, n); }
  }

  /** Reader and writer agree, wherever they start, exactly when the partition is steady. */
  lemma AgreeExactly(w: Wear, n: nat)
    ensures Agree(w, n) <==> Steady(w, n)
  {
    if Steady(w, n) {
      forall p | 0 <= p <= n ensures NextRead(w, p, n, false) == NextWrite(w, p, n) {
        SteadyAgree(w, p, n, false);
      }
    }
    if Agree(w, n) {
      forall b | 0 <= b < n ensures Takes(w, b) <==> Clean(w, b) {
        assert NextRead(w, b, n, false) == NextWrite(w, b, n);
      }
      forall i, j | 0 <= i < j < n && StaleAt(w, i, j) ensures !Takes(w, j) {
        assert NextRead(w, i, n, false) == NextWrite(w, i, n);
        StalePasses(w, i, j, i, n, false);
        if Takes(w, j) {
          forall k | i <= k < j ensures !Takes(w, k) {
            assert NextRead(w, k, n, false) == NextWrite(w, k, n);
          }
          NothingBetween(w, i, j, n);
        }
      }
    }
  }

  /** Where marks are not supported the writer fills a block that the reader never returns. */
  lemma UnsupportedExample()
    ensures !Agree(Wear(b => Unsupported, (b, t) => Works, b => false, b => 0, b => true), 1)
  {
    var w := Wear(b => Unsupported, (b, t) => Works, b => false, b => 0, b => true);
    assert NextRead(w, 0, 1, false) == None && NextWrite(w, 0, 1) == Some(0);
  }

  /** A bad block whose reading fails and raises the error count makes the reader pass over the good one behind it. */
  lemma StaleExample()
    ensures !Agree(Wear(b => if b == 0 then Bad else Good, (b, t) => Works, b => b == 0, b => if b == 0 then 1 else 0, b => true), 2)
  {
    var w := Wear(b => if b == 0 then Bad else Good, (b, t) => Works, b => b == 0, b => if b == 0 then 1 else 0, b => true);
    assert NextRead(w, 0, 2, false) == NextRead(w, 1, 2, true) == NextRead(w, 2, 2, false) == None;
    assert NextWrite(w, 0, 2) == NextWrite(w, 1, 2) == Some(1);
  }

  /** The bytes of the blocks from a up to b that a writer fills. */
  function Stream(w: Wear, blocks: seq<seq<byte>>, a: nat, b: nat): seq<byte>
    requires b <= |blocks|
    decreases b
  {
    if a >= b then [] else Stream(w, blocks, a, b - 1) + if Takes(w, b - 1) then blocks[b - 1] else []
  }

  /** How many of them there are. */
  function Room(w: Wear, a: nat, b: nat): nat
    decreases b
  {
    if a >= b then 0 else Room(w, a, b - 1) + if Takes(w, b - 1) then 1 else 0
  }

  ghost predicate Blocked(blocks: seq<seq<byte>>, size: nat) {
    forall b :: 0 <= b < |blocks| ==> |blocks[b]| == size
  }

  lemma {:induction false} StreamLength(w: Wear, blocks: seq<seq<byte>>, a: nat, b: nat, size: nat)
    requires b <= |blocks| && Blocked(blocks, size)
    ensures |Stream(w, blocks, a, b)| == Room(w, a, b) * size
    decreases b
  {
    if a < b {
      StreamLength(w, blocks, a, b - 1, size);
    }
  }

  lemma {:induction false} StreamJoin(w: Wear, blocks: seq<seq<byte>>, a: nat, b: nat, c: nat)
    requires a <= b <= c <= |blocks|
    ensures Stream(w, blocks, a, c) == Stream(w, blocks, a, b) + Stream(w, blocks, b, c)
    ensures Room(w, a, c) == Room(w, a, b) + Room(w, b, c)
    decreases c
  {
    if b < c { StreamJoin(w, blocks, a, b, c - 1); }
  }

  /** Only the blocks that are filled matter. */
  lemma {:induction false} StreamSame(w: Wear, blocks: seq<seq<byte>>, others: seq<seq<byte>>, a: nat, b: nat)
    requires b <= |blocks| && b <= |others| && forall i :: a <= i < b && Takes(w, i) ==> blocks[i] == others[i]
    ensures Stream(w, blocks, a, b) == Stream(w, others, a, b)
    decreases b
  {
    if a < b { StreamSame(w, blocks, others, a, b - 1); }
  }

  lemma {:induction false} StreamNone(w: Wear, blocks: seq<seq<byte>>, a: nat, b: nat)
    requires b <= |blocks| && forall i :: a <= i < b ==> !Takes(w, i)
    ensures Stream(w, blocks, a, b) == [] && Room(w, a, b) == 0
    decreases b
  {
    if a < b { StreamNone(w, blocks, a, b - 1); }
  }

  /** Up to behind the next block that is filled there is just that block. */
  lemma StreamNext(w: Wear, blocks: seq<seq<byte>>, p: nat, q: nat)
    requires p <= q < |blocks| && NextWrite(w, p, |blocks|) == Some(q)
    ensures Stream(w, blocks, p, q + 1) == blocks[q] && Room(w, p, q + 1) == 1
    ensures Stream(w, blocks, p, |blocks|) == blocks[q] + Stream(w, blocks, q + 1, |blocks|)
    ensures Room(w, p, |blocks|) == 1 + Room(w, q + 1, |blocks|)
  {
    StreamNone(w, blocks, p, q);
    StreamJoin(w, blocks, p, q + 1, |blocks|);
  }

  /** A block that works at either of two attempts is filled, also when its mark cannot be read; one that does not, or is
      marked bad, is passed over. */
  lemma AttemptsExample()
    ensures NextWrite(Wear(b => Good, (b, t) => if t == 1 then Works else RereadFails, b => false, b => 0, b => true), 0, 1) == Some(0)
    ensures NextWrite(Wear(b => Good, (b, t) => if t == 0 then Works else RereadFails, b => false, b => 0, b => true), 0, 1) == Some(0)
    ensures NextWrite(Wear(b => Good, (b, t) => if b == 1 then Works else RereadFails, b => false, b => 0, b => true), 0, 2) == Some(1)
    ensures NextWrite(Wear(b => if b == 0 then Bad else Unsupported, (b, t) => Works, b => false, b => 0, b => true), 0, 2) == Some(1)
  {
  }
}
