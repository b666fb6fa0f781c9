/** `ReplyBlockStore`: the reply blocks a relay holds on behalf of remote parties,
    one `ReplyBlockDeque` per fingerprint, inside an LRU cache bounded by `size`
    fingerprints. */
module BlockStore {
  import opened Wrappers
  import opened Types
  import BlockDeque
  import Lru

  /** The capacity `ReplyBlockStore::insert` gives each new fingerprint's deque. */
  const DequeCapacity: nat := 1000

  /** The store's contents: fingerprints in recency order (least recent first) and
      the blocks each one's deque holds, front (oldest) first. */
  type Contents = Lru.Cache<Fingerprint, seq<ReplyBlock>>

  /** What the store keeps true: a well-formed LRU cache of at most `size`
      fingerprints, each deque within its capacity. */
  ghost predicate WellFormed(s: Contents, size: nat) {
    size >= 1 && s.WellFormed(size) &&
    forall k | k in s.entries :: |s.entries[k]| <= DequeCapacity
  }

  /** The blocks held for `fp`; none when it has no entry. */
  function BlocksOf(s: Contents, fp: Fingerprint): seq<ReplyBlock> {
    if fp in s.entries then s.entries[fp] else []
  }

  /** `ReplyBlockStore::insert(fp, rb)`: a present fingerprint has `rb` inserted
      into its deque (and becomes the most recently used); an absent one gets a new
      deque holding `rb`, put into the cache. */
  function StoreInsert(s: Contents, size: nat, fp: Fingerprint, rb: ReplyBlock): Contents
    requires size >= 1
  {
    var (found, promoted) := s.GetMut(fp);
    match found
    case Some(q) => promoted.(entries := promoted.entries[fp := BlockDeque.Inserted(q, DequeCapacity, rb)])
    case None => promoted.Put(size, fp, BlockDeque.Inserted([], DequeCapacity, rb)).1
  }

  /** `ReplyBlockStore::get(fp)`: the newest block of `fp`'s deque, popped, if `fp`
      has an entry; `None` otherwise. */
  function StoreGet(s: Contents, fp: Fingerprint): (Option<ReplyBlock>, Contents) {
    var (found, promoted) := s.GetMut(fp);
    match found
    case Some(q) =>
      var (r, rest) := BlockDeque.Popped(q);
      (r, promoted.(entries := promoted.entries[fp := rest]))
    case None => (None, promoted)
  }

  /** `ReplyBlockStore::insert_batch(fp, items)`: the items inserted one after
      another, first to last. */
  function StoreInsertBatch(s: Contents, size: nat, fp: Fingerprint, items: seq<ReplyBlock>): Contents
    requires size >= 1
    decreases |items|
  {
    if items == [] then s
    else StoreInsert(StoreInsertBatch(s, size, fp, items[..|items| - 1]), size, fp, items[|items| - 1])
  }

  /** An insert keeps the store within its bounds, adds `rb` to `fp`'s deque alone,
      makes `fp` the most recently used, and leaves every other deque as it was,
      except that inserting a new fingerprint into a full store evicts the least
      recently used one. */
  lemma StoreInsertEffect(s: Contents, size: nat, fp: Fingerprint, rb: ReplyBlock)
    requires WellFormed(s, size)
    ensures WellFormed(StoreInsert(s, size, fp, rb), size)
    ensures |StoreInsert(s, size, fp, rb).entries.Keys| <= size
    ensures var r := StoreInsert(s, size, fp, rb);
      fp in r.entries && r.entries[fp] == BlockDeque.Inserted(BlocksOf(s, fp), DequeCapacity, rb)
    ensures var r := StoreInsert(s, size, fp, rb);
      r.order != [] && r.order[|r.order| - 1] == fp
    ensures var r := StoreInsert(s, size, fp, rb);
      forall g | g in r.entries && g != fp :: g in s.entries && r.entries[g] == s.entries[g]
    ensures var r := StoreInsert(s, size, fp, rb);
      forall g | g in s.entries && g !in r.entries ::
        fp !in s.entries && |s.order| == size && g == s.order[0]
  {
    var r := StoreInsert(s, size, fp, rb);
    Lru.GetMutPromotes(s, size, fp);
    if fp in s.entries {
      var promoted := s.GetMut(fp).1;
      var q := BlockDeque.Inserted(s.entries[fp], DequeCapacity, rb);
      assert r == promoted.(entries := promoted.entries[fp := q]);
      assert fp in promoted.order;
    } else {
      var q := BlockDeque.Inserted([], DequeCapacity, rb);
      Lru.PutEvictsLeastRecent(s, size, fp, q);
    }
    Lru.AtMostCap(r, size);
  }

  /** A get leaves the fingerprints as they were and touches `fp`'s deque alone: for
      an absent `fp` it returns `None` and changes nothing; for a present one it
      pops the newest block, returning `None` only when the deque is empty. */
  lemma StoreGetEffect(s: Contents, size: nat, fp: Fingerprint)
    requires WellFormed(s, size)
    ensures WellFormed(StoreGet(s, fp).1, size)
    ensures StoreGet(s, fp).1.entries.Keys == s.entries.Keys
    ensures fp !in s.entries ==> StoreGet(s, fp) == (None, s)
    ensures var (x, r) := StoreGet(s, fp);
      fp in s.entries ==>
        (x.None? <==> s.entries[fp] == []) &&
        (x.None? ==> r.entries[fp] == []) &&
        (x.Some? ==> s.entries[fp] == r.entries[fp] + [x.value]) &&
        r.order[|r.order| - 1] == fp
    ensures var r := StoreGet(s, fp).1;
      forall g | g in s.entries && g != fp :: r.entries[g] == s.entries[g]
  {
    Lru.GetMutPromotes(s, size, fp);
    if fp in s.entries {
      assert fp in s.order;
    }
  }

  /** `insert(fp, rb)` then `get(fp)` returns `rb`. When `fp`'s deque was not full it
      is restored exactly, and when it was empty a second `get` returns `None`. */
  lemma InsertThenGet(s: Contents, size: nat, fp: Fingerprint, rb: ReplyBlock)
    requires WellFormed(s, size)
    ensures StoreGet(StoreInsert(s, size, fp, rb), fp).0 == Some(rb)
    ensures var r := StoreGet(StoreInsert(s, size, fp, rb), fp).1;
      |BlocksOf(s, fp)| < DequeCapacity ==> fp in r.entries && r.entries[fp] == BlocksOf(s, fp)
    ensures var r := StoreGet(StoreInsert(s, size, fp, rb), fp).1;
      BlocksOf(s, fp) == [] ==> StoreGet(r, fp).0 == None
  {
  }

  /** A batch insert keeps the store within its bounds, gives `fp`'s deque every
      item in order, and leaves the deques of every other remaining fingerprint as
      they were. */
  lemma {:induction false} StoreInsertBatchEffect(s: Contents, size: nat, fp: Fingerprint, items: seq<ReplyBlock>)
    requires WellFormed(s, size)
    ensures WellFormed(StoreInsertBatch(s, size, fp, items), size)
    ensures |StoreInsertBatch(s, size, fp, items).entries.Keys| <= size
    ensures var r := StoreInsertBatch(s, size, fp, items);
      items != [] ==>
        fp in r.entries && r.entries[fp] == BlockDeque.InsertedAll(BlocksOf(s, fp), DequeCapacity, items)
    ensures var r := StoreInsertBatch(s, size, fp, items);
      forall g | g in r.entries && g != fp :: g in s.entries && r.entries[g] == s.entries[g]
    decreases |items|
  {
    if items != [] {
      var front, last := items[..|items| - 1], items[|items| - 1];
      var t := StoreInsertBatch(s, size, fp, front);
      StoreInsertBatchEffect(s, size, fp, front);
      StoreInsertEffect(t, size, fp, last);
      if front == [] {
        assert BlocksOf(t, fp) == BlocksOf(s, fp);
      }
    }
    Lru.AtMostCap(StoreInsertBatch(s, size, fp, items), size);
  }

  /** After `insert_batch(fp, items)` with at least one item, `fp`'s deque holds the
      newest `DequeCapacity` blocks it was ever given, in order, and `get(fp)`
      returns the last item of the batch. */
  lemma InsertBatchThenGet(s: Contents, size: nat, fp: Fingerprint, items: seq<ReplyBlock>)
    requires WellFormed(s, size) && items != []
    ensures var r := StoreInsertBatch(s, size, fp, items);
      fp in r.entries && r.entries[fp] == BlockDeque.Newest(BlocksOf(s, fp) + items, DequeCapacity)
    ensures StoreGet(StoreInsertBatch(s, size, fp, items), fp).0 == Some(items[|items| - 1])
  {
    StoreInsertBatchEffect(s, size, fp, items);
    BlockDeque.InsertedAllKeepsNewest(BlocksOf(s, fp), DequeCapacity, items);
    var front := items[..|items| - 1];
    StoreInsertBatchEffect(s, size, fp, front);
    InsertThenGet(StoreInsertBatch(s, size, fp, front), size, fp, items[|items| - 1]);
  }

  /** Two batches in a row amount to one batch of both. */
  lemma {:induction false} StoreInsertBatchAppend(s: Contents, size: nat, fp: Fingerprint, xs: seq<ReplyBlock>, ys: seq<ReplyBlock>)
    requires size >= 1
    ensures StoreInsertBatch(s, size, fp, xs + ys) ==
            StoreInsertBatch(StoreInsertBatch(s, size, fp, xs), size, fp, ys)
    decreases |ys|
  {
    if ys == [] {
      assert xs + ys == xs;
    } else {
      var front := ys[..|ys| - 1];
      StoreInsertBatchAppend(s, size, fp, xs, front);
      assert (xs + ys)[..|xs + ys| - 1] == xs + front;
    }
  }

  /** No deque object is shared by two fingerprints. */
  ghost predicate Injective(m: map<Fingerprint, BlockDeque.ReplyBlockDeque>) {
    forall j, k | j in m && k in m && j != k :: m[j] != m[k]
  }

  /** Putting a deque that no fingerprint holds yet keeps the deques unshared. */
  lemma PutKeepsInjective(c: Lru.Cache<Fingerprint, BlockDeque.ReplyBlockDeque>, size: nat,
                          fp: Fingerprint, deque: BlockDeque.ReplyBlockDeque)
    requires size >= 1 && c.WellFormed(size) && Injective(c.entries)
    requires forall k | k in c.entries :: c.entries[k] != deque
    ensures Injective(c.Put(size, fp, deque).1.entries)
  {
  }

  /** A `ReplyBlockStore` object: `items` is its `LruCache` of deque objects, each
      deque belonging to one fingerprint alone. */
  class ReplyBlockStore {
    const size: nat
    const items: Lru.LruCache<Fingerprint, BlockDeque.ReplyBlockDeque>
    ghost var Repr: set<object>

    ghost predicate Valid()
      reads this, Repr
    {
      this in Repr && items in Repr && items.Valid() && items.cap == size &&
      (forall k | k in items.entries ::
         items.entries[k] in Repr && items.entries[k].capacity == DequeCapacity &&
         |items.entries[k].deque| <= DequeCapacity) &&
      Injective(items.entries)
    }

    /** The store's contents as a value. */
    ghost function State(): Contents
      reads this, Repr
      requires Valid()
    {
      Lru.Cache(items.order, map k | k in items.entries :: items.entries[k].deque)
    }

    /** `ReplyBlockStore::new(size)`, whose `size` is a `NonZeroUsize`. */
    constructor (size: nat)
      requires size >= 1
      ensures Valid() && fresh(Repr) && this.size == size
      ensures State() == Lru.Cache([], map[])
    {
      this.size := size;
      items := new Lru.LruCache(size);
      new;
      Repr := {this, items};
    }

    method Insert(fingerprint: Fingerprint, rb: ReplyBlock)
      requires Valid()
      modifies Repr
      ensures Valid() && fresh(Repr - old(Repr))
      ensures State() == StoreInsert(old(State()), size, fingerprint, rb)
    {
      ghost var before := State();
      var found := items.GetMut(fingerprint);
      assert State() == before.GetMut(fingerprint).1;
      match found {
        case Some(deque) =>
          InsertIntoDeque(fingerprint, deque, rb);
        case None =>
          AddFingerprint(fingerprint, rb);
      }
    }

    /** The `Some` arm of `insert`: `rb` goes into the deque `fingerprint` holds. */
    method InsertIntoDeque(fingerprint: Fingerprint, deque: BlockDeque.ReplyBlockDeque, rb: ReplyBlock)
      requires Valid() && fingerprint in items.entries && items.entries[fingerprint] == deque
      modifies deque
      ensures Valid()
      ensures State() == old(State()).(entries := old(State()).entries[fingerprint :=
        BlockDeque.Inserted(old(State()).entries[fingerprint], DequeCapacity, rb)])
    {
      ghost var before := State();
      deque.Insert(rb);
      assert State().entries == before.entries[fingerprint := deque.deque];
    }

    /** The `None` arm of `insert`: a new deque of capacity `DequeCapacity` holding
        `rb`, put into the cache under `fingerprint`. */
    method AddFingerprint(fingerprint: Fingerprint, rb: ReplyBlock)
      requires Valid() && fingerprint !in items.entries
      modifies Repr
      ensures Valid() && fresh(Repr - old(Repr))
      ensures State() == old(State()).Put(size, fingerprint, BlockDeque.Inserted([], DequeCapacity, rb)).1
    {
      ghost var before := State();
      ghost var deques := items.entries;
      var deque := new BlockDeque.ReplyBlockDeque(DequeCapacity);
      deque.Insert(rb);
      PutKeepsInjective(items.Model(), size, fingerprint, deque);
      Lru.PutEvictsLeastRecent(items.Model(), size, fingerprint, deque);
      var _ := items.Put(fingerprint, deque);
      Repr := Repr + {deque};
      ghost var after := before.Put(size, fingerprint, deque.deque).1;
      assert items.order == after.order;
      forall k | k in items.entries
        ensures k in after.entries && items.entries[k].deque == after.entries[k]
      {
        if k != fingerprint {
          assert k in deques && items.entries[k] == deques[k];
        }
      }
      assert State().entries == after.entries;
    }

    method Get(fingerprint: Fingerprint) returns (r: Option<ReplyBlock>)
      requires Valid()
      modifies Repr
      ensures Valid() && Repr == old(Repr)
      ensures (r, State()) == StoreGet(old(State()), fingerprint)
    {
      ghost var before := State();
      var found := items.GetMut(fingerprint);
      assert State() == before.GetMut(fingerprint).1;
      match found {
        case Some(deque) =>
          r := PopFromDeque(fingerprint, deque);
        case None =>
          r := None;
      }
    }

    /** The `Some` arm of `get`: the deque `fingerprint` holds is popped. */
    method PopFromDeque(fingerprint: Fingerprint, deque: BlockDeque.ReplyBlockDeque) returns (r: Option<ReplyBlock>)
      requires Valid() && fingerprint in items.entries && items.entries[fingerprint] == deque
      modifies deque
      ensures Valid()
      ensures var (x, rest) := BlockDeque.Popped(old(State()).entries[fingerprint]);
        r == x && State() == old(State()).(entries := old(State()).entries[fingerprint := rest])
    {
      ghost var before := State();
      r := deque.Pop();
      assert State().entries == before.entries[fingerprint := deque.deque];
    }

    method InsertBatch(fingerprint: Fingerprint, blocks: seq<ReplyBlock>)
      requires Valid()
      modifies Repr
      ensures Valid() && fresh(Repr - old(Repr))
      ensures State() == StoreInsertBatch(old(State()), size, fingerprint, blocks)
    {
      for i := 0 to |blocks|
        invariant Valid() && fresh(Repr - old(Repr))
        invariant State() == StoreInsertBatch(old(State()), size, fingerprint, blocks[..i])
      {
        Insert(fingerprint, blocks[i]);
        assert blocks[..i + 1][..i] == blocks[..i];
      }
      assert blocks[..|blocks|] == blocks;
    }
  }
}
