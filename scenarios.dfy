/**
 * Client scenarios: concrete sequences of calls on a cache and on a queue,
 * each with the outcome it is guaranteed to produce.
 */
module Scenarios {
  import opened Items
  import opened LruSpec
  import opened Recency
  import opened Lru

  /** A capacity below one is refused with an argument error. */
  method ZeroCapacityRefused() returns (r: Result<LRUCache<int, string>>)
    ensures r == Failure(IllegalArgument("Capacity cannot be less than 1"))
  {
    r := Create(0);
  }

  /** Getting from an empty cache finds nothing. */
  method EmptyCacheHasNothing() returns (v: Option<string>)
    ensures v == None
  {
    var cache := new LRUCache<int, string>(1);
    v := cache.Get(1);
  }

  /** The setup shared by the scenarios below: a fresh cache of capacity two after setting keys 1 and 2. */
  method CacheOfTwo() returns (cache: LRUCache<int, string>)
    ensures fresh(cache) && fresh(cache.queue) && fresh(cache.queue.Repr)
    ensures cache.Valid() && cache.maxCapacity == 2
    ensures cache.Entries() == [CacheItem(2, "Value two"), CacheItem(1, "Value one")]
  {
    cache := new LRUCache<int, string>(2);
    cache.Set(1, "Value one");
    cache.Set(2, "Value two");
  }

  /** Two entries set in a cache of capacity two can both be read back. */
  method RetrieveBoth() returns (v1: Option<string>, v2: Option<string>)
    ensures v1 == Some("Value one") && v2 == Some("Value two")
  {
    var cache := CacheOfTwo();
    v1 := cache.Get(1);
    v2 := cache.Get(2);
  }

  /** Setting a present key replaces its value. */
  method UpdateExisting() returns (v1: Option<string>, v2: Option<string>)
    ensures v1 == Some("Value") && v2 == Some("New Value")
  {
    var cache := new LRUCache<int, string>(1);
    cache.Set(1, "Value");
    v1 := cache.Get(1);
    cache.Set(1, "New Value");
    v2 := cache.Get(1);
  }

  /** In a cache of capacity one, a second key evicts the first. */
  method EvictWhenFull() returns (v1: Option<string>, v2: Option<string>)
    ensures v1 == None && v2 == Some("Value two")
  {
    var cache := new LRUCache<int, string>(1);
    cache.Set(1, "Value one");
    cache.Set(2, "Value two");
    v1 := cache.Get(1);
    v2 := cache.Get(2);
  }

  /** Reading key 1 makes key 2 the least recently used, so key 2 is the one evicted. */
  method GetRefreshesRecency() returns (v1: Option<string>, v2: Option<string>, v3: Option<string>)
    ensures v1 == Some("Value one") && v2 == None && v3 == Some("Value three")
  {
    var cache := CacheOfTwo();
    var _ := cache.Get(1);
    cache.Set(3, "Value three");
    GetRefreshesTrace();
    v1, v2, v3 := ReadAfterThird(cache, "Value one");
  }

  /** The entries GetRefreshesRecency leaves before its three reads. */
  lemma GetRefreshesTrace()
    ensures
      var s := [CacheItem(2, "Value two"), CacheItem(1, "Value one")];
      AfterSet(AfterGet(s, 1), 2, 3, "Value three") == [CacheItem(3, "Value three"), CacheItem(1, "Value one")]
  {
    var one, two := CacheItem(1, "Value one"), CacheItem(2, "Value two");
    assert RemoveKey([two, one], 1) == [two];
    assert AfterGet([two, one], 1) == [one, two];
  }

  /** Updating key 1 makes key 2 the least recently used, so key 2 is the one evicted. */
  method UpdateRefreshesRecency() returns (v1: Option<string>, v2: Option<string>, v3: Option<string>)
    ensures v1 == Some("Value alt") && v2 == None && v3 == Some("Value three")
  {
    var cache := CacheOfTwo();
    cache.Set(1, "Value alt");
    cache.Set(3, "Value three");
    UpdateRefreshesTrace();
    v1, v2, v3 := ReadAfterThird(cache, "Value alt");
  }

  /** The entries UpdateRefreshesRecency leaves before its three reads. */
  lemma UpdateRefreshesTrace()
    ensures
      var s := [CacheItem(2, "Value two"), CacheItem(1, "Value one")];
      AfterSet(AfterSet(s, 2, 1, "Value alt"), 2, 3, "Value three") == [CacheItem(3, "Value three"), CacheItem(1, "Value alt")]
  {
    var one, two := CacheItem(1, "Value one"), CacheItem(2, "Value two");
    assert RemoveKey([two, one], 1) == [two];
  }

  /**
   * The reads shared by the two recency scenarios: on a cache holding key 3
   * and then key 1, key 1 and key 3 are found and key 2 is not.
   */
  method ReadAfterThird(cache: LRUCache<int, string>, one: string) returns (v1: Option<string>, v2: Option<string>, v3: Option<string>)
    requires cache.Valid() && cache.Entries() == [CacheItem(3, "Value three"), CacheItem(1, one)]
    modifies cache.queue, cache.queue.Repr
    ensures v1 == Some(one) && v2 == None && v3 == Some("Value three")
  {
    ReadTrace(one);
    v1 := cache.Get(1);
    v2 := cache.Get(2);
    v3 := cache.Get(3);
  }

  /** What the reads of ReadAfterThird find, and the entries each read leaves. */
  lemma ReadTrace(one: string)
    ensures
      var three, first := CacheItem(3, "Value three"), CacheItem(1, one);
      && Lookup([three, first], 1) == Some(one) && AfterGet([three, first], 1) == [first, three]
      && Lookup([first, three], 2) == None && AfterGet([first, three], 2) == [first, three]
      && Lookup([first, three], 3) == Some("Value three")
  {
    var three, first := CacheItem(3, "Value three"), CacheItem(1, one);
    assert RemoveKey([three, first], 1) == [three];
  }

  /** The setup shared by the two eviction scenarios: a fresh queue after adding 1, 2 and 3. */
  method QueueOfThree() returns (q: RecencyQueue<int>, a: Node<int>, b: Node<int>)
    ensures fresh(q) && fresh(q.Repr)
    ensures q.Valid() && q.Tidy() && |q.Nodes| == 3 && q.Nodes[1] == b && q.Nodes[2] == a
  {
    q := new RecencyQueue();
    a := q.Add(1);
    b := q.Add(2);
    var c := q.Add(3);
  }

  /**
   * Eviction as written leaves the new tail pointing at the evicted node:
   * after two evictions from a queue of three, the one remaining node still
   * reaches both evicted nodes through `next`.
   */
  method StaleTailChain() returns (q: RecencyQueue<int>, a: Node<int>, b: Node<int>)
    ensures q.Valid() && !q.Tidy() && |q.Nodes| == 1
    ensures a !in q.Nodes && b !in q.Nodes && q.last.next == b && b.next == a
  {
    q, a, b := QueueOfThree();
    var _ := q.EvictLRU();
    var _ := q.EvictLRU();
  }

  /** The same calls with the corrected eviction leave the tail with no successor. */
  method TidyTailAfterEviction() returns (q: RecencyQueue<int>, a: Node<int>, b: Node<int>)
    ensures q.Valid() && q.Tidy() && |q.Nodes| == 1
    ensures a !in q.Nodes && b !in q.Nodes && q.last.next == null
  {
    q, a, b := QueueOfThree();
    var _ := q.EvictLRUUnlinked();
    var _ := q.EvictLRUUnlinked();
  }
}
