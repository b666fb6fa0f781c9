# Reply-block store of an earendil relay

A relay holds single-use reply blocks (SURBs) on behalf of remote parties
(`src/daemon/reply_block_store.rs`). This project models that store in Dafny and
proves what its code and its unit tests promise.

- `ReplyBlockDeque` is a bounded buffer of reply blocks. `insert` drops the oldest
  block (the front) when the buffer is full, then appends the new block at the back.
  `pop` takes the newest block (the back). Eviction is first-in first-out; retrieval
  is last-in first-out.
- `ReplyBlockStore` maps each fingerprint to its own deque of capacity 1000. The map
  is an `LruCache` holding at most `size` fingerprints. `insert` and `insert_batch`
  push blocks, and `get` pops the newest block of one fingerprint.

Files:

- `common.dfy`: `Types` (the opaque `Fingerprint` and `ReplyBlock`, with equality
  only) and `Wrappers` (`Option`).
- `lru.dfy`: `Lru`, an abstract model of the `lru` crate's `LruCache`. Its contents,
  `Cache`, are the keys in recency order (least recent first) plus a map from keys to
  values. `GetMut` and `Put` are functions on these contents. The class `LruCache`
  applies them in place.
- `reply_block_deque.dfy`: `BlockDeque`. `Inserted`, `Popped` and `InsertedAll` are
  functions on a deque's contents (a `seq`, front first). The class
  `ReplyBlockDeque` has a `deque: seq<ReplyBlock>` field, which its methods update
  in place.
- `reply_block_store.dfy`: `BlockStore`. `StoreInsert`, `StoreGet` and
  `StoreInsertBatch` are functions on the store's contents (an `Lru.Cache` of block
  sequences). The class `ReplyBlockStore` holds an `LruCache` of `ReplyBlockDeque`
  objects, one per fingerprint. Each method is proved to move the store's contents
  exactly as the matching function says. The lemmas prove the store's properties on
  those functions. The `Some` arms of `insert` and `get`, and the `None` arm of
  `insert`, are written as helper methods of their own (`InsertIntoDeque`, `AddFingerprint`, `PopFromDeque`),
  so that each proof about the heap stays small.

## Model

| member | source | states |
|---|---|---|
| `BlockDeque.Inserted` | src/daemon/reply_block_store.rs:20-27 | the new block ends up last, and with capacity at least 1 a deque within its capacity stays within it |
| `BlockDeque.Popped` | src/daemon/reply_block_store.rs:29-31 | `None` exactly when the deque is empty, and then nothing changes; otherwise the returned block is the back and the rest are left in order, so that `rest + [block]` is the old contents |
| `BlockDeque.PopFront` | src/daemon/reply_block_store.rs:21-24 | `VecDeque::pop_front` on the contents, leaving an empty deque as it is; its effect is stated by `InsertAtCapacity` and `ZeroCapacityOverflows` |
| `BlockDeque.InsertedAll` | src/daemon/reply_block_store.rs:20-27 | a run of deque inserts, first to last; `InsertedAllKeepsNewest` proves it keeps the newest `capacity` blocks in order |
| `Lru.Touch` | src/daemon/reply_block_store.rs:45 | promotion of a key to most recent; `TouchDistinct` proves it keeps the keys and puts a present key last |
| `Lru.Cache.GetMut` | src/daemon/reply_block_store.rs:45 | `LruCache::get_mut` on the cache contents (also used at line 64); `GetMutPromotes` states its effect |
| `Lru.Cache.Put` | src/daemon/reply_block_store.rs:52 | `LruCache::put` on the cache contents; `PutEvictsLeastRecent` states its effect |
| `BlockStore.StoreInsert` | src/daemon/reply_block_store.rs:44-55 | `insert` on the store's contents; `StoreInsertEffect` and `InsertThenGet` state its effect |
| `BlockStore.StoreGet` | src/daemon/reply_block_store.rs:63-68 | `get` on the store's contents; `StoreGetEffect` and `InsertThenGet` state its effect |
| `BlockStore.StoreInsertBatch` | src/daemon/reply_block_store.rs:57-61 | `insert_batch` on the store's contents, as inserts of each item in order; `StoreInsertBatchEffect`, `InsertBatchThenGet` and `StoreInsertBatchAppend` state its effect |
| `BlockDeque.InsertBelowCapacity` | src/daemon/reply_block_store.rs:20-27 | below capacity an insert appends: the length grows by exactly one and the existing blocks keep their order (test at lines 113-125) |
| `BlockDeque.InsertAtCapacity` | src/daemon/reply_block_store.rs:21-26 | at capacity an insert drops exactly the front block: the length is unchanged (test at lines 127-130), the rest keep their order and the new block is last |
| `BlockDeque.ZeroCapacityOverflows` | src/daemon/reply_block_store.rs:21-26 | with capacity 0 the `pop_front` finds nothing and the deque ends up with one block, so the length bound needs capacity at least 1 |
| `BlockDeque.InsertThenPop` | src/daemon/reply_block_store.rs:20-31 | `insert(x)` then `pop()` returns `Some(x)`; a deque that was not full is restored exactly, and a full one has lost its oldest block (test at lines 134-144) |
| `BlockDeque.InsertedAllKeepsNewest` | src/daemon/reply_block_store.rs:20-27 | after any run of inserts the deque holds the newest `capacity` blocks it was given, in arrival order (eviction is first-in first-out) |
| `BlockDeque.ReplyBlockDeque.constructor` | src/daemon/reply_block_store.rs:13-18 | a new deque is empty and has the given capacity |
| `BlockDeque.ReplyBlockDeque.Insert` | src/daemon/reply_block_store.rs:20-27 | the contents become `Inserted(old contents, capacity, item)`, and the length bound is kept |
| `BlockDeque.ReplyBlockDeque.Pop` | src/daemon/reply_block_store.rs:29-31 | the result and the new contents are those of `Popped(old contents)` |
| `Lru.RemoveDistinct` | src/daemon/reply_block_store.rs:45 | taking a key out of a recency order without repeats leaves an order without repeats, holding every other key and one entry fewer if the key was there |
| `Lru.TouchDistinct` | src/daemon/reply_block_store.rs:45 | promoting a key keeps the order free of repeats, holds the same keys and length, and makes a present key the most recent |
| `Lru.AtMostCap` | src/daemon/reply_block_store.rs:40 | a well-formed cache never holds more than its capacity of keys |
| `Lru.GetMutPromotes` | src/daemon/reply_block_store.rs:45 | `get_mut` returns the value under the key if present and leaves the map unchanged; a present key becomes the most recent, an absent key changes nothing, and the cache stays well-formed |
| `Lru.PutEvictsLeastRecent` | src/daemon/reply_block_store.rs:52 | `put` keeps the cache well-formed and stores the value under the key as the most recent; every other remaining key keeps its value, and a key is dropped only when a new key goes into a full cache, where the dropped key is the least recent |
| `Lru.LruCache.constructor` | src/daemon/reply_block_store.rs:40 | a new cache is empty with the given non-zero capacity |
| `Lru.LruCache.GetMut` | src/daemon/reply_block_store.rs:45 | the result and the new contents are those of `Cache.GetMut` on the old contents |
| `Lru.LruCache.Put` | src/daemon/reply_block_store.rs:52 | the previous value and the new contents are those of `Cache.Put` on the old contents |
| `BlockStore.StoreInsertEffect` | src/daemon/reply_block_store.rs:44-55 | an insert keeps at most `size` fingerprints and every deque within 1000 blocks. `fp`'s deque becomes `Inserted(old blocks or [], 1000, rb)`, so an absent `fp` gets a deque holding only `rb`. `fp` becomes the most recent. Every other remaining deque is unchanged, and a fingerprint is dropped only when a new one is inserted into a full store, where the dropped one is the least recent |
| `BlockStore.StoreGetEffect` | src/daemon/reply_block_store.rs:63-68 | a get keeps the fingerprints and bounds. An absent `fp` yields `None` and nothing changes. For a present `fp` the newest block is popped, `None` comes only from an empty deque, and `fp` becomes the most recent. Other deques are unchanged |
| `BlockStore.InsertThenGet` | src/daemon/reply_block_store.rs:44-68 | `insert(fp, rb)` then `get(fp)` returns `rb`. A deque that was not full is restored, and when `fp` held nothing a second `get` returns `None` (tests at lines 147-161 and 178-190) |
| `BlockStore.StoreInsertBatchEffect` | src/daemon/reply_block_store.rs:57-61 | a batch keeps at most `size` fingerprints and every deque within bounds. A non-empty batch gives `fp`'s deque the items inserted one by one in order. Every other remaining deque is unchanged |
| `BlockStore.InsertBatchThenGet` | src/daemon/reply_block_store.rs:57-68 | after a non-empty batch `fp`'s deque holds the newest 1000 of its old blocks and the items taken together, in order, and `get(fp)` returns the last item of the batch (test at lines 164-175) |
| `BlockStore.StoreInsertBatchAppend` | src/daemon/reply_block_store.rs:57-61 | a batch of `xs` followed by a batch of `ys` equals one batch of `xs + ys` |
| `BlockStore.ReplyBlockStore.constructor` | src/daemon/reply_block_store.rs:39-42 | a new store is empty, with no fingerprints |
| `BlockStore.ReplyBlockStore.Insert` | src/daemon/reply_block_store.rs:44-55 | the store's contents move exactly as `StoreInsert` says, and the store's invariant holds: the deques are distinct objects of capacity 1000, in a well-formed cache of at most `size` fingerprints |
| `BlockStore.ReplyBlockStore.InsertIntoDeque` | src/daemon/reply_block_store.rs:46-48 | the `Some` arm: only `fp`'s deque changes, to `Inserted` of its old contents |
| `BlockStore.ReplyBlockStore.AddFingerprint` | src/daemon/reply_block_store.rs:49-53 | the `None` arm: the contents become `Put` of a deque holding only `rb` under `fp`, and the new deque is not shared with any other fingerprint |
| `BlockStore.ReplyBlockStore.Get` | src/daemon/reply_block_store.rs:63-68 | the result and the store's new contents are those of `StoreGet`, and the invariant holds |
| `BlockStore.ReplyBlockStore.PopFromDeque` | src/daemon/reply_block_store.rs:64-65 | the `Some` arm: only `fp`'s deque changes, by `Popped` |
| `BlockStore.ReplyBlockStore.InsertBatch` | src/daemon/reply_block_store.rs:57-61 | the loop of inserts moves the contents exactly as `StoreInsertBatch` says (each item inserted in order), and the invariant holds |

## Left out

- The rest of the repository is not part of this model. This covers the control-protocol handlers, link connections, the haven socket, the global RPC transport and the logging helper. They are asynchronous I/O, network and concurrency code.
- The onion-packet engine is not part of this model: packet construction, peeling, key derivation, the replay filter and how reply blocks are built. It lives in the external `earendil_packet` and `earendil_crypt` crates.
- `Fingerprint` and `ReplyBlock` are opaque types with equality only. Their cryptographic content plays no part in the store.
- `LruCache` is modelled abstractly, by its contents and by the documented effect of `new`, `get_mut` and `put`; the crate's linked-list and hash-map implementation is not modelled. `put`'s return value is ignored by the store, as in the source.
- `usize` arithmetic is unbounded here. The only lengths involved are bounded by 1000 and by `size`, so nothing can wrap.
- `VecDeque::with_capacity` pre-allocation is not modelled. It affects memory only, not contents.
- The store is used from one thread at a time (`&mut self`), so no concurrency is modelled.
