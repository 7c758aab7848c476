# LRU cache: a verified model

The system is a fixed-capacity key/value cache with least-recently-used eviction. It is built from two structures kept in step:

- a **recency queue**: a doubly-linked list of nodes. Its head (`first`) is the most recently used node and its tail (`last`) the least recently used one;
- an **index**: a map from each cached key to the queue node that holds its `CacheItem` (the key and its value).

`set` works in three ways:

- For a present key, it replaces the node's item and moves the node to the head.
- For a new key when the queue is full, it evicts the tail, drops the tail item's key from the index, and adds a new node at the head.
- For a new key when there is room, it only adds the new node.

`get` moves a present key's node to the head and returns its value. For an absent key it returns nothing and changes nothing. Building a cache with a capacity below one fails with an argument error.

The model keeps the source's form:

- `Recency.Node` and `Recency.RecencyQueue` are classes whose methods update real `next`/`previous` links in place. The methods are proved against ghost state:
  - `Nodes`: the live nodes from head to tail;
  - `Contents`: their items;
  - `Repr`: every node ever linked, evicted ones included.
- `Lru.LRUCache` is a class with the index as a `map` field and the queue as a constant reference.
- `CacheItem` is an immutable value, so it is a datatype (`Items`).
- What the cache means to its caller is given on values by `LruSpec`:
  - the entries are a sequence of items from most to least recently used;
  - `AfterSet` and `AfterGet` say what the two operations do to that sequence;
  - `Lookup` is the key-to-value view.
- `Coupling` states the cache invariant on values: the index, the nodes and the items agree, keys are distinct, and the size is within capacity. It proves that each branch of `set` and `get` preserves the invariant.
- `Scenarios` replays the repository's unit tests as client methods whose results are proved. It also exhibits the stale tail link described under Findings.

Where the design description and the code differ, the model follows the code. The design describes the tail's `next` link as always absent. The code never clears it on eviction. The as-written `EvictLRU` keeps that behaviour, and the queue invariant `Linked` allows the tail's `next` to be an evicted node. The cache calls this as-written eviction, so its invariant `Lru.LRUCache.Valid` does not claim a tail without a successor. The corrected `EvictLRUUnlinked` stands beside it as the fix (see Findings).

## Model

| member | source | states |
|---|---|---|
| LruSpec.Lookup | src/main/java/LRUCache.java:68-78 | get finds a value exactly when the key is among the entries, and the value it finds is stored with that key |
| LruSpec.RemoveKey | src/main/java/LRUCache.java:38-44 | dropping a key's entry leaves exactly the other keys, keeps them distinct, shrinks a cache holding the key by one, and changes nothing when the key is absent |
| LruSpec.SetPutsValue | src/main/java/LRUCache.java:34-60 | after any set the keys stay distinct, the size is between 1 and the capacity, the new item is the most recently used, and the key maps to the new value |
| LruSpec.SetExistingKey | src/main/java/LRUCache.java:38-44 | setting a present key keeps the size and the key set and leaves every other key's value unchanged |
| LruSpec.SetNewKeyFull | src/main/java/LRUCache.java:46-53 | setting a new key in a full cache evicts exactly the least recently used key, which then maps to nothing, keeps the size at capacity, and leaves every other key's value unchanged |
| LruSpec.SetNewKeyRoom | src/main/java/LRUCache.java:54-57 | setting a new key with room to spare grows the size by one, adds exactly that key, and leaves every other key's value unchanged |
| LruSpec.LookupDropLast | src/main/java/LRUCache.java:48-49 | dropping the tail entry forgets its key and no other |
| LruSpec.GetKeepsMapping | src/main/java/LRUCache.java:68-78 | get changes no key's value, the size or the key set; a present key becomes the most recently used; an absent key leaves the entries as they were |
| LruSpec.GetTwice | src/main/java/LRUCache.java:68-73 | getting a key twice in a row leaves the same entries as getting it once |
| LruSpec.SetRefreshesLikeGet | src/main/java/LRUCache.java:38-44 | a set refreshes recency as get does: a get just before it makes no difference, and a get of the same key just after it changes nothing |
| Recency.Node.constructor | src/main/java/RecencyQueue.java:113-117 | a new node holds the given item and links |
| Recency.Node.Detach | src/main/java/RecencyQueue.java:123-134 | the node's former neighbours point at each other and both of its own links are cleared |
| Recency.RecencyQueue.constructor | src/main/java/RecencyQueue.java:18-20 | a new queue is empty, tidy, of size 0, with no head and no tail |
| Recency.RecencyQueue.Add | src/main/java/RecencyQueue.java:26-38 | a fresh node holding the item becomes the head, in front of the old nodes; the first node added to an empty queue is also the tail; the size grows by one and the links stay well formed |
| Recency.RecencyQueue.SetMRU | src/main/java/RecencyQueue.java:44-57 | a queued node moves from its position to the head, with all other nodes keeping their order; the head is left as it is; a fresh node is pushed in front; a moved tail is replaced by its predecessor |
| Recency.RecencyQueue.Unlink | src/main/java/RecencyQueue.java:46-51 | the tail is repaired first if the node is the tail, then the node leaves the sequence at its position, the links stay well formed, and its own links are cleared |
| Recency.RecencyQueue.SplicedLinked | src/main/java/RecencyQueue.java:127-130 | after the two neighbour links of a node are rewired to each other, the remaining nodes are well linked without it |
| Recency.RecencyQueue.LinkAtHead | src/main/java/RecencyQueue.java:52-55 | a detached node becomes the head, in front of all the other nodes in their old order |
| Recency.RecencyQueue.UpdateNode | src/main/java/RecencyQueue.java:64-67 | the node takes the new item and moves to the head; the other items keep their order |
| Recency.RecencyQueue.EvictLRU | src/main/java/RecencyQueue.java:73-91 | as written: the tail leaves the queue and is returned with its item, the size drops by one, the head and tail are cleared when the queue empties, and otherwise the new tail is the old tail's predecessor, whose next link still points at the evicted node |
| Recency.RecencyQueue.EvictLRUUnlinked | src/main/java/RecencyQueue.java:73-91 | corrected: the same as EvictLRU, but the queue is also left tidy, so the new tail has no successor |
| Recency.RecencyQueue.GetSize | src/main/java/RecencyQueue.java:94-96 | the size counter equals the number of live nodes and of items |
| Coupling.InvAfterUpdate | src/main/java/LRUCache.java:38-44 | the hit branch of set preserves the cache invariant, and its effect on the entries is exactly AfterSet |
| Coupling.InvAfterGet | src/main/java/LRUCache.java:69-73 | the hit branch of get preserves the cache invariant, its effect is exactly AfterGet, and the value it returns is the key's value |
| Coupling.InvAfterEvict | src/main/java/LRUCache.java:46-49 | evicting the tail and removing its key from the index preserves the cache invariant |
| Coupling.InvAfterInsert | src/main/java/LRUCache.java:51-57 | adding a node at the head and indexing it under a new key preserves the cache invariant within capacity, and its effect is exactly AfterSet |
| Lru.LRUCache.constructor | src/main/java/LRUCache.java:13-20 | a cache of capacity at least one starts valid and empty, with an empty index and a fresh queue |
| Lru.Create | src/main/java/LRUCache.java:13-15 | construction fails with "Capacity cannot be less than 1" exactly when the capacity is below one; otherwise it yields a valid, empty cache |
| Lru.LRUCache.Set | src/main/java/LRUCache.java:34-60 | set keeps the cache valid and leaves exactly the entries AfterSet prescribes |
| Lru.LRUCache.UpdatePresent | src/main/java/LRUCache.java:38-44 | on a present key, the indexed node takes the new item and moves to the head, as AfterSet prescribes, with no node added |
| Lru.LRUCache.EvictLeastRecent | src/main/java/LRUCache.java:46-49 | through the queue's as-written eviction, the tail entry leaves the queue and exactly its key leaves the index, and the cache invariant still holds although the new tail keeps its link to the evicted node |
| Lru.LRUCache.Insert | src/main/java/LRUCache.java:51-57 | the item comes in at the head and exactly its key joins the index |
| Lru.LRUCache.Get | src/main/java/LRUCache.java:68-78 | get returns the key's value if present and nothing otherwise; a present key becomes the most recently used, as AfterGet prescribes, and an absent key leaves the queue untouched |
| Scenarios.ZeroCapacityRefused | src/test/java/LRUCacheTest.java:10-18 | a capacity of 0 is refused with "Capacity cannot be less than 1" |
| Scenarios.EmptyCacheHasNothing | src/test/java/LRUCacheTest.java:21-26 | get on an empty cache finds nothing |
| Scenarios.RetrieveBoth | src/test/java/LRUCacheTest.java:30-44 | both values set in a cache of capacity two are found |
| Scenarios.UpdateExisting | src/test/java/LRUCacheTest.java:47-58 | setting a present key replaces its value |
| Scenarios.EvictWhenFull | src/test/java/LRUCacheTest.java:61-75 | in a cache of capacity one, a second key evicts the first |
| Scenarios.GetRefreshesRecency | src/test/java/LRUCacheTest.java:78-106 | after get(1), set(3) evicts key 2 and keeps key 1 |
| Scenarios.UpdateRefreshesRecency | src/test/java/LRUCacheTest.java:109-138 | after re-setting key 1, set(3) evicts key 2 and keeps key 1 with its new value |
| Scenarios.StaleTailChain | src/main/java/RecencyQueue.java:85-87 | after two as-written evictions from a queue of three nodes, the remaining node still reaches both evicted nodes through next links |
| Scenarios.TidyTailAfterEviction | src/main/java/RecencyQueue.java:80-87 | the same calls with the corrected eviction leave the remaining node without a successor |

## Left out

- `Cache.java`, the interface with `set` and `get`, is not modelled separately. `LRUCache`'s two methods are its only implementation.
- `toString` of `CacheItem` and of `Node` is left out because it only formats text.
- The getters `getKey`, `getValue` and `getNodeItem` are the datatype's destructors and the field `nodeItem`.
- The `HashMap` index is a Dafny `map`. Hashing, the initial capacity hint passed to it, and its iteration order are not modelled.
- Garbage collection, threads and `null` values are not modelled:
  - A `get` of a key whose value is `null` throws in `Optional.of`. The model's values are never null.
- Java's 32-bit `int` for the size and capacity is an unbounded integer here. The size never exceeds the capacity, so no overflow is reachable.
- Recency.RecencyQueue.EvictLRU: requires a non-empty queue. On an empty queue the source sets the size to -1 and returns `null`. The cache never does that, because it evicts only when the size equals a capacity of at least one.
- Lru.LRUCache.constructor: requires a capacity of at least one. The argument error is modelled by `Lru.Create`, which returns a `Failure` instead of throwing.
- Lru.LRUCache.Set: the model splits the three branches into the helper methods `UpdatePresent`, `EvictLeastRecent` and `Insert`. Their statements are the source's, in the same order.

## Findings

| source | as written | input that shows it | evidently intended | confidence | as-written member | corrected member |
|---|---|---|---|---|---|---|
| src/main/java/RecencyQueue.java:86 | when more than one node is queued, evictLRU moves `last` to the old tail's predecessor but never clears that node's `next`, so the live tail keeps a link to the evicted node, and each later eviction extends the chain of evicted nodes reachable from the tail | add 1, 2 and 3 to an empty queue, then call evictLRU twice: the remaining node's `next` is the node of 2, whose `next` is the node of 1, although both were evicted | the new tail's `next` is set to null, so that the tail has no successor (as the single-node branch clears `first` and `last`) and evicted nodes become unreachable | not executed | Recency.RecencyQueue.EvictLRU, Scenarios.StaleTailChain | Recency.RecencyQueue.EvictLRUUnlinked, Scenarios.TidyTailAfterEviction |
