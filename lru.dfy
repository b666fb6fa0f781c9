/** An abstract model of the `lru` crate's `LruCache`: a map whose keys are kept in
    recency order, least recently used first, and never more than `cap` of them. */
module Lru {
  import opened Wrappers

  /** No key occurs twice in `s`. */
  ghost predicate Distinct<K>(s: seq<K>) {
    forall i, j | 0 <= i < j < |s| :: s[i] != s[j]
  }

  /** `s` with the first occurrence of `k` taken out. */
  function Remove<K(==)>(s: seq<K>, k: K): seq<K> {
    if s == [] then []
    else if s[0] == k then s[1..]
    else [s[0]] + Remove(s[1..], k)
  }

  lemma {:induction false} RemoveDistinct<K>(s: seq<K>, k: K)
    requires Distinct(s)
    ensures Distinct(Remove(s, k))
    ensures forall x | x in Remove(s, k) :: x in s && x != k
    ensures forall x | x in s && x != k :: x in Remove(s, k)
    ensures |Remove(s, k)| == if k in s then |s| - 1 else |s|
  {
    if s == [] {
    } else if s[0] == k {
      assert forall x :: x in s[1..] ==> x != k by {
        forall x | x in s[1..] ensures x != k {
          var i :| 0 <= i < |s[1..]| && s[1..][i] == x;
          assert s[i + 1] == x;
        }
      }
    } else {
      var rest := Remove(s[1..], k);
      RemoveDistinct(s[1..], k);
      assert s[0] !in s[1..];
      assert s == [s[0]] + s[1..];
      forall i, j | 0 <= i < j < |[s[0]] + rest| ensures ([s[0]] + rest)[i] != ([s[0]] + rest)[j] {
        if i > 0 {
          assert ([s[0]] + rest)[i] == rest[i - 1];
        }
        assert ([s[0]] + rest)[j] == rest[j - 1] && rest[j - 1] in rest;
      }
    }
  }

  /** The recency order after `k` is used: `k` moves to the most-recent end, the
      other keys keep their relative order. An absent key changes nothing. */
  function Touch<K(==)>(order: seq<K>, k: K): seq<K> {
    if k in order then Remove(order, k) + [k] else order
  }

  lemma TouchDistinct<K>(order: seq<K>, k: K)
    requires Distinct(order)
    ensures Distinct(Touch(order, k))
    ensures forall x | x in Touch(order, k) :: x in order
    ensures forall x | x in order :: x in Touch(order, k)
    ensures |Touch(order, k)| == |order|
    ensures k in order ==> Touch(order, k)[|order| - 1] == k
  {
    if k in order {
      var rest := Remove(order, k);
      RemoveDistinct(order, k);
      assert forall x | x in rest + [k] :: x in rest || x == k;
      forall i, j | 0 <= i < j < |rest + [k]| ensures (rest + [k])[i] != (rest + [k])[j] {
        assert (rest + [k])[i] == rest[i] && rest[i] in rest;
      }
    }
  }

  /** The contents of an `LruCache`: the keys in recency order (least recent first)
      and the value stored under each key. */
  datatype Cache<K(==), V> = Cache(order: seq<K>, entries: map<K, V>) {

    /** What `LruCache` keeps true: every key once in the order, the order and the
        map agree on the keys, and there are at most `cap` of them. */
    ghost predicate WellFormed(cap: nat) {
      Distinct(order) && |order| <= cap &&
      (forall k | k in entries :: k in order) && (forall k | k in order :: k in entries)
    }

    /** `LruCache::get_mut`: the value under `k`, if any, and the cache with `k`
        made the most recently used. */
    function GetMut(k: K): (Option<V>, Cache<K, V>) {
      if k in entries then (Some(entries[k]), Cache(Touch(order, k), entries))
      else (None, this)
    }

    /** `LruCache::put`: a present key is updated and promoted, and its previous
        value returned; a new key is added as the most recently used, after the least
        recently used entry is evicted when the cache is full. */
    function Put(cap: nat, k: K, v: V): (Option<V>, Cache<K, V>)
      requires cap >= 1
    {
      if k in entries then (Some(entries[k]), Cache(Touch(order, k), entries[k := v]))
      else if |order| == cap then (None, Cache(order[1..] + [k], (entries - {order[0]})[k := v]))
      else (None, Cache(order + [k], entries[k := v]))
    }
  }

  lemma {:induction false} ElementsBound<K>(s: seq<K>)
    ensures |(set x | x in s)| <= |s|
  {
    if s != [] {
      ElementsBound(s[1..]);
      assert (set x | x in s) == {s[0]} + (set x | x in s[1..]);
    }
  }

  /** A well-formed cache never holds more than `cap` keys. */
  lemma AtMostCap<K, V>(c: Cache<K, V>, cap: nat)
    requires c.WellFormed(cap)
    ensures |c.entries.Keys| <= cap
  {
    ElementsBound(c.order);
    assert c.entries.Keys == set x | x in c.order;
  }

  lemma GetMutPromotes<K, V>(c: Cache<K, V>, cap: nat, k: K)
    requires c.WellFormed(cap)
    ensures c.GetMut(k).1.WellFormed(cap)
    ensures c.GetMut(k).1.entries == c.entries
    ensures c.GetMut(k).0 == if k in c.entries then Some(c.entries[k]) else None
    ensures |c.GetMut(k).1.order| == |c.order|
    ensures k in c.entries ==> c.GetMut(k).1.order[|c.order| - 1] == k
    ensures k !in c.entries ==> c.GetMut(k).1 == c
  {
    TouchDistinct(c.order, k);
    var d := c.GetMut(k).1;
    if k in c.entries {
      assert d.order == Touch(c.order, k);
      assert forall x | x in d.order :: x in c.order;
    }
  }

  lemma PutEvictsLeastRecent<K, V>(c: Cache<K, V>, cap: nat, k: K, v: V)
    requires cap >= 1 && c.WellFormed(cap)
    ensures c.Put(cap, k, v).1.WellFormed(cap)
    ensures c.Put(cap, k, v).0 == if k in c.entries then Some(c.entries[k]) else None
    ensures var d := c.Put(cap, k, v).1;
      k in d.entries && d.entries[k] == v && d.order[|d.order| - 1] == k
    ensures var d := c.Put(cap, k, v).1;
      forall j | j in d.entries && j != k :: j in c.entries && d.entries[j] == c.entries[j]
    ensures var d := c.Put(cap, k, v).1;
      forall j | j in c.entries && j !in d.entries ::
        k !in c.entries && |c.order| == cap && j == c.order[0]
  {
    var d := c.Put(cap, k, v).1;
    if k in c.entries {
      TouchDistinct(c.order, k);
      assert d.order == Touch(c.order, k);
      assert forall x | x in d.order :: x in c.order;
    } else if |c.order| == cap {
      var rest := c.order[1..];
      forall i, j | 0 <= i < j < |rest + [k]| ensures (rest + [k])[i] != (rest + [k])[j] {
        assert (rest + [k])[i] == c.order[i + 1];
        if j < |rest| {
          assert (rest + [k])[j] == c.order[j + 1];
        }
      }
      forall j | j in c.entries && j !in d.entries ensures j == c.order[0] {
        var i :| 0 <= i < |c.order| && c.order[i] == j;
      }
      forall x ensures x in d.order <==> x in d.entries {
        if x in c.order && x != c.order[0] {
          var i :| 0 <= i < |c.order| && c.order[i] == x;
          assert rest[i - 1] == x;
        }
        if x in rest {
          var i :| 0 <= i < |rest| && rest[i] == x;
          assert c.order[i + 1] == x;
        }
      }
    } else {
      forall i, j | 0 <= i < j < |c.order + [k]| ensures (c.order + [k])[i] != (c.order + [k])[j] {
        assert (c.order + [k])[i] == c.order[i];
      }
    }
  }

  /** An `LruCache` object: `get_mut` and `put` update its recency order in place. */
  class LruCache<K(==), V> {
    const cap: nat
    var order: seq<K>
    var entries: map<K, V>

    ghost function Model(): Cache<K, V>
      reads this
    {
      Cache(order, entries)
    }

    ghost predicate Valid()
      reads this
    {
      cap >= 1 && Model().WellFormed(cap)
    }

    /** `LruCache::new`, whose capacity is a `NonZeroUsize`. */
    constructor (cap: nat)
      requires cap >= 1
      ensures Valid() && this.cap == cap && Model() == Cache([], map[])
    {
      this.cap := cap;
      order := [];
      entries := map[];
    }

    method GetMut(k: K) returns (r: Option<V>)
      requires Valid()
      modifies this
      ensures Valid() && (r, Model()) == old(Model()).GetMut(k)
    {
      GetMutPromotes(Model(), cap, k);
      if k in entries {
        r := Some(entries[k]);
        order := Touch(order, k);
      } else {
        r := None;
      }
    }

    method Put(k: K, v: V) returns (previous: Option<V>)
      requires Valid()
      modifies this
      ensures Valid() && (previous, Model()) == old(Model()).Put(cap, k, v)
    {
      PutEvictsLeastRecent(Model(), cap, k, v);
      if k in entries {
        previous := Some(entries[k]);
        order := Touch(order, k);
      } else {
        previous := None;
        if |order| == cap {
          entries := entries - {order[0]};
          order := order[1..];
        }
        order := order + [k];
      }
      entries := entries[k := v];
    }
  }
}
