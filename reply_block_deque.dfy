/** `ReplyBlockDeque`: a bounded buffer of reply blocks. New blocks go in at the back;
    when the buffer is full the oldest block (the front) is dropped first, and
    retrieval takes the newest block (the back). */
module BlockDeque {
  import opened Wrappers
  import opened Types

  /** `VecDeque::pop_front` on the contents: an empty deque is left as it is. */
  function PopFront(q: seq<ReplyBlock>): seq<ReplyBlock> {
    if q == [] then [] else q[1..]
  }

  /** The contents after `ReplyBlockDeque::insert(item)` on a deque holding `q`. */
  function Inserted(q: seq<ReplyBlock>, capacity: nat, item: ReplyBlock): (r: seq<ReplyBlock>)
    ensures |r| > 0 && r[|r| - 1] == item
    ensures 1 <= capacity && |q| <= capacity ==> |r| <= capacity
  {
    var kept := if |q| == capacity then PopFront(q) else q;
    kept + [item]
  }

  /** `ReplyBlockDeque::pop` on a deque holding `q`: the block returned and the
      contents left behind. */
  function Popped(q: seq<ReplyBlock>): (r: (Option<ReplyBlock>, seq<ReplyBlock>))
    ensures r.0.None? <==> q == []
    ensures r.0.None? ==> r.1 == q
    ensures r.0.Some? ==> q == r.1 + [r.0.value]
  {
    if q == [] then (None, q) else (Some(q[|q| - 1]), q[..|q| - 1])
  }

  /** The contents after inserting `items` one after another, first to last. */
  function InsertedAll(q: seq<ReplyBlock>, capacity: nat, items: seq<ReplyBlock>): seq<ReplyBlock>
    decreases |items|
  {
    if items == [] then q
    else Inserted(InsertedAll(q, capacity, items[..|items| - 1]), capacity, items[|items| - 1])
  }

  /** The newest (last) `n` elements of `s`, or all of them if there are fewer. */
  function Newest(s: seq<ReplyBlock>, n: nat): seq<ReplyBlock> {
    if |s| <= n then s else s[|s| - n..]
  }

  /** Below capacity, an insert appends: the length grows by one and every block
      already held stays in place. */
  lemma InsertBelowCapacity(q: seq<ReplyBlock>, capacity: nat, item: ReplyBlock)
    requires |q| < capacity
    ensures Inserted(q, capacity, item) == q + [item]
    ensures |Inserted(q, capacity, item)| == |q| + 1
  {
  }

  /** At capacity, an insert drops exactly the oldest block: the length is unchanged,
      the rest keep their order, and the new block is last. */
  lemma InsertAtCapacity(q: seq<ReplyBlock>, capacity: nat, item: ReplyBlock)
    requires 1 <= capacity && |q| == capacity
    ensures Inserted(q, capacity, item) == q[1..] + [item]
    ensures |Inserted(q, capacity, item)| == |q|
    ensures q == [q[0]] + Inserted(q, capacity, item)[..|q| - 1]
  {
  }

  /** The bound needs `capacity >= 1`: with capacity 0 the `pop_front` finds nothing
      to drop and the deque ends up holding one block. */
  lemma ZeroCapacityOverflows(item: ReplyBlock)
    ensures |Inserted([], 0, item)| == 1
  {
  }

  /** `insert(x)` then `pop()` yields `x`; if the deque was not full, its contents are
      back to what they were, and if it was full, the oldest block is gone. */
  lemma InsertThenPop(q: seq<ReplyBlock>, capacity: nat, item: ReplyBlock)
    ensures Popped(Inserted(q, capacity, item)).0 == Some(item)
    ensures |q| < capacity ==> Popped(Inserted(q, capacity, item)).1 == q
    ensures 1 <= capacity && |q| == capacity ==> Popped(Inserted(q, capacity, item)).1 == q[1..]
  {
  }

  /** Eviction is first-in first-out: after any run of inserts the deque holds the
      newest `capacity` blocks of everything it was given, in arrival order. */
  lemma {:induction false} InsertedAllKeepsNewest(q: seq<ReplyBlock>, capacity: nat, items: seq<ReplyBlock>)
    requires 1 <= capacity && |q| <= capacity
    ensures InsertedAll(q, capacity, items) == Newest(q + items, capacity)
    decreases |items|
  {
    if items == [] {
      assert q + items == q;
    } else {
      var n := |items| - 1;
      var front, last := items[..n], items[n];
      InsertedAllKeepsNewest(q, capacity, front);
      var s := q + front;
      assert q + items == s + [last] by { assert items == front + [last]; }
      var before := Newest(s, capacity);
      if |s| < capacity {
        assert Inserted(before, capacity, last) == s + [last];
      } else {
        assert |before| == capacity;
        assert Inserted(before, capacity, last) == before[1..] + [last];
        assert before[1..] == s[|s| - capacity + 1..];
        assert (s + [last])[|s| + 1 - capacity..] == s[|s| - capacity + 1..] + [last];
      }
    }
  }

  /** A `ReplyBlockDeque` object: `deque` is the `VecDeque`'s contents, front first. */
  class ReplyBlockDeque {
    var deque: seq<ReplyBlock>
    const capacity: nat

    /** `ReplyBlockDeque::new(capacity)`: an empty deque. */
    constructor (capacity: nat)
      ensures deque == [] && this.capacity == capacity
    {
      deque := [];
      this.capacity := capacity;
    }

    method Insert(item: ReplyBlock)
      modifies this
      ensures deque == Inserted(old(deque), capacity, item)
      ensures 1 <= capacity && |old(deque)| <= capacity ==> |deque| <= capacity
    {
      if |deque| == capacity {
        deque := PopFront(deque);
      }
      deque := deque + [item];
    }

    method Pop() returns (r: Option<ReplyBlock>)
      modifies this
      ensures (r, deque) == Popped(old(deque))
    {
      if deque == [] {
        r := None;
      } else {
        r := Some(deque[|deque| - 1]);
        deque := deque[..|deque| - 1];
      }
    }
  }
}
