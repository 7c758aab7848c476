/**
 * The agreement between the cache's index and its recency queue, stated on
 * values: the index map, the queue's nodes and their items in recency order.
 * Each lemma here is one branch of the cache's operations, showing that the
 * agreement survives it and what the branch does to the entries.
 */
module Coupling {
  import opened Items
  import opened LruSpec
  import opened Recency

  /**
   * The index agrees with the queue: its keys are exactly the keys of the
   * queued items, and the key of the item at each position maps to the node
   * at that position.
   */
  ghost predicate Coupled<K, V, N>(index: map<K, N>, nodes: seq<N>, items: seq<CacheItem<K, V>>) {
    && |nodes| == |items|
    && index.Keys == KeysOf(items)
    && forall i :: 0 <= i < |items| ==> items[i].key in index && index[items[i].key] == nodes[i]
  }

  /**
   * Moving the node at position `i` to the head, with an item of the same
   * key in front, keeps the index in agreement (the hit branch of set, and get).
   */
  lemma CoupledMoveToFront<K, V, N>(index: map<K, N>, nodes: seq<N>, items: seq<CacheItem<K, V>>, i: nat, item: CacheItem<K, V>)
    requires Coupled(index, nodes, items) && DistinctKeys(items) && i < |items| && item.key == items[i].key
    ensures Coupled(index, MoveToFront(nodes, i), [item] + RemoveAt(items, i))
  {
    var nodes', items' := MoveToFront(nodes, i), [item] + RemoveAt(items, i);
    RemoveAtAt(nodes, i);
    RemoveAtAt(items, i);
    RemoveKeyAt(items, i);
    KeysOfCons(items');
    assert items'[1..] == RemoveKey(items, item.key);
    forall j | 0 <= j < |items'| ensures items'[j].key in index && index[items'[j].key] == nodes'[j] {
      if 0 < j {
        var j' := if j - 1 < i then j - 1 else j;
        assert items'[j] == items[j'] && nodes'[j] == nodes[j'];
      }
    }
  }

  /** Dropping the tail node and its key from the index keeps them in agreement (eviction). */
  lemma CoupledDropLast<K, V, N>(index: map<K, N>, nodes: seq<N>, items: seq<CacheItem<K, V>>)
    requires Coupled(index, nodes, items) && DistinctKeys(items) && items != []
    ensures
      var n := |items|;
      Coupled(index - {items[n - 1].key}, nodes[..n - 1], items[..n - 1])
  {
    var n := |items|;
    var index', items' := index - {items[n - 1].key}, items[..n - 1];
    KeysDropLast(items);
    forall j | 0 <= j < n - 1 ensures items'[j].key in index' && index'[items'[j].key] == nodes[..n - 1][j] {
      assert items'[j] == items[j] && items[j].key != items[n - 1].key;
    }
  }

  /** Indexing a fresh head node under a new key keeps them in agreement (insertion). */
  lemma CoupledAdd<K, V, N>(index: map<K, N>, nodes: seq<N>, items: seq<CacheItem<K, V>>, node: N, item: CacheItem<K, V>)
    requires Coupled(index, nodes, items) && item.key !in KeysOf(items)
    ensures Coupled(index[item.key := node], [node] + nodes, [item] + items)
  {
    var items' := [item] + items;
    KeysOfCons(items');
    assert items'[1..] == items;
    forall j | 0 < j < |items'| ensures items'[j].key in index && index[items'[j].key] == ([node] + nodes)[j] {
      assert items'[j] == items[j - 1] && ([node] + nodes)[j] == nodes[j - 1];
    }
  }

  /** The cache invariant on values: agreement, distinct keys, and at most `capacity` entries. */
  ghost predicate CacheInv<K, V, N>(index: map<K, N>, nodes: seq<N>, items: seq<CacheItem<K, V>>, capacity: int) {
    && 1 <= capacity && |items| <= capacity
    && DistinctKeys(items)
    && Coupled(index, nodes, items)
  }

  /** The node the index gives for a key sits at the position of that key's item. */
  lemma IndexedPosition<K, V, N>(index: map<K, N>, nodes: seq<N>, items: seq<CacheItem<K, V>>, i: nat)
    requires Coupled(index, nodes, items) && Distinct(nodes) && i < |items|
    ensures index[items[i].key] in nodes && IndexOf(nodes, index[items[i].key]) == i
  {
  }

  /** The hit branch of set: the item replaces the entry of its key and moves to the head. */
  lemma InvAfterUpdate<K, V, N>(index: map<K, N>, nodes: seq<N>, items: seq<CacheItem<K, V>>, capacity: int, i: nat, item: CacheItem<K, V>)
    requires CacheInv(index, nodes, items, capacity) && i < |items| && item.key == items[i].key
    ensures CacheInv(index, MoveToFront(nodes, i), [item] + RemoveAt(items, i), capacity)
    ensures [item] + RemoveAt(items, i) == AfterSet(items, capacity, item.key, item.value)
  {
    RemoveKeyAt(items, i);
    CoupledMoveToFront(index, nodes, items, i, item);
    SetPutsValue(items, capacity, item.key, item.value);
  }

  /** Get on a present key: its entry moves to the head, and its value is the one looked up. */
  lemma InvAfterGet<K, V, N>(index: map<K, N>, nodes: seq<N>, items: seq<CacheItem<K, V>>, capacity: int, i: nat)
    requires CacheInv(index, nodes, items, capacity) && i < |items|
    ensures CacheInv(index, MoveToFront(nodes, i), MoveToFront(items, i), capacity)
    ensures MoveToFront(items, i) == AfterGet(items, items[i].key)
    ensures Lookup(items, items[i].key) == Some(items[i].value)
  {
    RemoveKeyAt(items, i);
    LookupAt(items, i);
    CoupledMoveToFront(index, nodes, items, i, items[i]);
    GetKeepsMapping(items, items[i].key);
  }

  /** Eviction: the tail entry goes, and its key leaves the index. */
  lemma InvAfterEvict<K, V, N>(index: map<K, N>, nodes: seq<N>, items: seq<CacheItem<K, V>>, capacity: int)
    requires CacheInv(index, nodes, items, capacity) && items != []
    ensures
      var n := |items|;
      CacheInv(index - {items[n - 1].key}, nodes[..n - 1], items[..n - 1], capacity)
  {
    CoupledDropLast(index, nodes, items);
    KeysDropLast(items);
  }

  /** The branch of set with room to spare: the new item and node come in at the head. */
  lemma InvAfterInsert<K, V, N>(index: map<K, N>, nodes: seq<N>, items: seq<CacheItem<K, V>>, capacity: int, node: N, item: CacheItem<K, V>)
    requires CacheInv(index, nodes, items, capacity) && item.key !in index && |items| < capacity
    ensures CacheInv(index[item.key := node], [node] + nodes, [item] + items, capacity)
    ensures [item] + items == AfterSet(items, capacity, item.key, item.value)
  {
    CoupledAdd(index, nodes, items, node, item);
    SetPutsValue(items, capacity, item.key, item.value);
  }
}
