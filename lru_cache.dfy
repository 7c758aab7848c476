/**
 * The LRU cache: an index from keys to queue nodes, and a recency queue of
 * cache items, kept consistent with each other and within a fixed capacity.
 */
module Lru {
  import opened Items
  import opened LruSpec
  import opened Recency
  import opened Coupling

  /** Why construction failed. */
  datatype Error = IllegalArgument(message: string)

  /** Either a value or the error that prevented it. */
  datatype Result<R> = Success(value: R) | Failure(error: Error)

  class LRUCache<K(==), V> {
    const maxCapacity: int
    /** The index from each cached key to the queue node holding its item. */
    var index: map<K, Node<CacheItem<K, V>>>
    const queue: RecencyQueue<CacheItem<K, V>>

    /** The cached entries, from most recently used to least recently used. */
    ghost function Entries(): seq<CacheItem<K, V>>
      reads this, queue
    {
      queue.Contents
    }

    /**
     * The queue is well formed, and the index, the queue's nodes and their
     * items satisfy the cache invariant. The queue's tail may still point at
     * evicted nodes: eviction does not clear that link.
     */
    ghost predicate Valid()
      reads this, queue, queue.Repr
    {
      && queue.Valid()
      && CacheInv(index, queue.Nodes, queue.Contents, maxCapacity)
    }

    /** An empty cache of the given capacity; `Create` checks the capacity first. */
    constructor (capacity: int)
      requires 1 <= capacity
      ensures Valid() && fresh(queue) && queue.Repr == {}
      ensures maxCapacity == capacity && Entries() == [] && index == map[]
    {
      maxCapacity := capacity;
      index := map[];
      queue := new RecencyQueue();
    }

    /**
     * Stores `value` under `key`: updates a present key in place and makes it
     * the most recently used; otherwise adds it as the most recently used,
     * first evicting the least recently used entry when the cache is full.
     */
    method Set(key: K, value: V)
      requires Valid()
      modifies this, queue, queue.Repr
      ensures Valid() && fresh(queue.Repr - old(queue.Repr))
      ensures Entries() == AfterSet(old(Entries()), maxCapacity, key, value)
    {
      ghost var s := Entries();
      var cacheItem := CacheItem(key, value);
      if key in index {
        UpdatePresent(cacheItem);
      } else {
        if queue.GetSize() == maxCapacity {
          EvictLeastRecent();
          Insert(cacheItem);
        } else {
          Insert(cacheItem);
        }
      }
    }

    /** Set on a present key: the indexed node takes the new item and moves to the head. */
    method UpdatePresent(cacheItem: CacheItem<K, V>)
      requires Valid() && cacheItem.key in index
      modifies queue, queue.Repr
      ensures Valid() && queue.Repr == old(queue.Repr)
      ensures Entries() == AfterSet(old(Entries()), maxCapacity, cacheItem.key, cacheItem.value)
    {
      ghost var s, nodes, idx := Entries(), queue.Nodes, index;
      var node := index[cacheItem.key];
      ghost var i :| 0 <= i < |s| && s[i].key == cacheItem.key;
      IndexedPosition(idx, nodes, s, i);
      InvAfterUpdate(idx, nodes, s, maxCapacity, i, cacheItem);
      queue.UpdateNode(node, cacheItem);
      assert index == idx;
    }

    /**
     * The eviction step of set: the tail node leaves the queue and its key,
     * read from its item, leaves the index.
     */
    method EvictLeastRecent()
      requires Valid() && Entries() != []
      modifies this, queue
      ensures Valid() && queue.Repr == old(queue.Repr)
      ensures Entries() == old(Entries())[..|old(Entries())| - 1]
      ensures index.Keys == old(index.Keys) - {old(Entries())[|old(Entries())| - 1].key}
    {
      ghost var s, nodes, idx := Entries(), queue.Nodes, index;
      InvAfterEvict(idx, nodes, s, maxCapacity);
      var last := queue.EvictLRU();
      assert queue.Nodes == nodes[..|s| - 1] && last.nodeItem == s[|s| - 1];
      assert index == idx;
      index := index - {last.nodeItem.key};
    }

    /** The insertion step of set: a new node for the item is added at the head and indexed under its key. */
    method Insert(cacheItem: CacheItem<K, V>)
      requires Valid() && cacheItem.key !in index && |Entries()| < maxCapacity
      modifies this, queue, queue.Repr`next, queue.Repr`previous
      ensures Valid() && fresh(queue.Repr - old(queue.Repr))
      ensures Entries() == [cacheItem] + old(Entries())
      ensures index.Keys == old(index.Keys) + {cacheItem.key}
    {
      ghost var s, nodes, idx := Entries(), queue.Nodes, index;
      var newNode := queue.Add(cacheItem);
      assert index == idx;
      InvAfterInsert(idx, nodes, s, maxCapacity, newNode, cacheItem);
      index := index[cacheItem.key := newNode];
    }

    /**
     * The value stored under `key`, if any; a present key becomes the most
     * recently used, an absent key leaves the cache untouched.
     */
    method Get(key: K) returns (r: Option<V>)
      requires Valid()
      modifies queue, queue.Repr`next, queue.Repr`previous
      ensures Valid() && queue.Repr == old(queue.Repr)
      ensures r == Lookup(old(Entries()), key)
      ensures Entries() == AfterGet(old(Entries()), key)
      ensures r.None? ==> unchanged(queue) && unchanged(queue.Repr)
    {
      ghost var s, nodes, idx := Entries(), queue.Nodes, index;
      if key in index {
        var node := index[key];
        ghost var i :| 0 <= i < |s| && s[i].key == key;
        IndexedPosition(idx, nodes, s, i);
        InvAfterGet(idx, nodes, s, maxCapacity, i);
        queue.SetMRU(node);
        assert index == idx;
        r := Some(node.nodeItem.value);
      } else {
        assert Lookup(s, key) == None;
        r := None;
      }
    }
  }
  /**
   * Builds a cache of the given capacity, failing with an argument error
   * when the capacity is below one.
   */
  method Create<K(==), V>(capacity: int) returns (r: Result<LRUCache<K, V>>)
    ensures r.Failure? <==> capacity < 1
    ensures r.Failure? ==> r.error == IllegalArgument("Capacity cannot be less than 1")
    ensures r.Success? ==>
      && fresh(r.value) && fresh(r.value.queue) && r.value.Valid()
      && r.value.maxCapacity == capacity && r.value.Entries() == []
  {
    if capacity < 1 {
      return Failure(IllegalArgument("Capacity cannot be less than 1"));
    }
    var cache := new LRUCache(capacity);
    return Success(cache);
  }
}
