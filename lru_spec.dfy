/**
 * The abstract cache: the entries from most recently used to least recently
 * used, as a sequence of key/value items. `AfterSet` and `AfterGet` say what
 * the cache's two operations do to it, and `Lookup` is the key-to-value view
 * a caller sees.
 */
module LruSpec {
  import opened Items

  /** The keys present in `s`. */
  ghost function KeysOf<K, V>(s: seq<CacheItem<K, V>>): set<K> {
    set i | 0 <= i < |s| :: s[i].key
  }

  /** No key occurs in two entries. */
  ghost predicate DistinctKeys<K, V>(s: seq<CacheItem<K, V>>) {
    forall i, j :: 0 <= i < j < |s| ==> s[i].key != s[j].key
  }

  /** The keys of `s` are the head's key and the keys of the rest. */
  lemma KeysOfCons<K, V>(s: seq<CacheItem<K, V>>)
    requires s != []
    ensures KeysOf(s) == {s[0].key} + KeysOf(s[1..])
  {
    forall k | k in KeysOf(s) ensures k in {s[0].key} + KeysOf(s[1..]) {
      var i :| 0 <= i < |s| && s[i].key == k;
      if 0 < i {
        assert s[1..][i - 1].key == k;
      }
    }
    forall k | k in KeysOf(s[1..]) ensures k in KeysOf(s) {
      var i :| 0 <= i < |s[1..]| && s[1..][i].key == k;
      assert s[i + 1].key == k;
    }
  }

  /** The value stored under `k`, if any: what the cache's `get` answers. */
  ghost function Lookup<K, V>(s: seq<CacheItem<K, V>>, k: K): (r: Option<V>)
    ensures r.Some? <==> k in KeysOf(s)
    ensures r.Some? ==> CacheItem(k, r.value) in s
  {
    if s == [] then None
    else
      KeysOfCons(s);
      if s[0].key == k then Some(s[0].value) else Lookup(s[1..], k)
  }

  /** `s` without the entry (entries) whose key is `k`, in the same order. */
  ghost function RemoveKey<K, V>(s: seq<CacheItem<K, V>>, k: K): (r: seq<CacheItem<K, V>>)
    ensures KeysOf(r) == KeysOf(s) - {k}
    ensures DistinctKeys(s) ==> DistinctKeys(r)
    ensures DistinctKeys(s) && k in KeysOf(s) ==> |r| == |s| - 1
    ensures k !in KeysOf(s) ==> r == s
  {
    if s == [] then []
    else
      KeysOfCons(s);
      var rest := RemoveKey(s[1..], k);
      if s[0].key == k then rest
      else
        KeysOfCons([s[0]] + rest);
        assert ([s[0]] + rest)[1..] == rest;
        assert DistinctKeys(s) ==> DistinctKeys(s[1..]) && s[0].key !in KeysOf(rest);
        [s[0]] + rest
  }

  /** Removing `k` leaves every other key's value as it was. */
  lemma {:induction false} RemoveKeyLookup<K, V>(s: seq<CacheItem<K, V>>, k: K, k': K)
    requires k' != k
    ensures Lookup(RemoveKey(s, k), k') == Lookup(s, k')
  {
    if s != [] {
      RemoveKeyLookup(s[1..], k, k');
      if s[0].key != k {
        assert ([s[0]] + RemoveKey(s[1..], k))[1..] == RemoveKey(s[1..], k);
      }
    }
  }

  /** With distinct keys, the entry at position `i` is the one `Lookup` finds for its key. */
  lemma {:induction false} LookupAt<K, V>(s: seq<CacheItem<K, V>>, i: nat)
    requires DistinctKeys(s) && i < |s|
    ensures Lookup(s, s[i].key) == Some(s[i].value)
  {
    if 0 < i {
      assert s[0].key != s[i].key;
      assert s[1..][i - 1] == s[i];
      LookupAt(s[1..], i - 1);
    }
  }

  /** Dropping the head keeps keys distinct, and the head's key does not occur again. */
  lemma DistinctTail<K, V>(s: seq<CacheItem<K, V>>)
    requires DistinctKeys(s) && s != []
    ensures DistinctKeys(s[1..]) && s[0].key !in KeysOf(s[1..])
  {
    var rest := s[1..];
    forall a, b | 0 <= a < b < |rest| ensures rest[a].key != rest[b].key {
      assert rest[a] == s[a + 1] && rest[b] == s[b + 1];
    }
    forall j | 0 <= j < |rest| ensures rest[j].key != s[0].key {
      assert rest[j] == s[j + 1];
    }
  }

  /** With distinct keys, removing the key of position `i` removes exactly that position. */
  lemma {:induction false} RemoveKeyAt<K, V>(s: seq<CacheItem<K, V>>, i: nat)
    requires DistinctKeys(s) && i < |s|
    ensures RemoveKey(s, s[i].key) == s[..i] + s[i + 1..]
  {
    var rest := s[1..];
    DistinctTail(s);
    if i == 0 {
      assert RemoveKey(s, s[0].key) == RemoveKey(rest, s[0].key) == rest;
      assert s[..0] + s[1..] == rest;
    } else {
      assert s[0].key != s[i].key && rest[i - 1] == s[i];
      RemoveKeyAt(rest, i - 1);
      assert RemoveKey(s, s[i].key) == [s[0]] + RemoveKey(rest, s[i].key);
      DropInner(s, i);
    }
  }

  /** Dropping an inner position of `s` is dropping the matching position of its tail. */
  lemma DropInner<T>(s: seq<T>, i: nat)
    requires 0 < i < |s|
    ensures s[..i] + s[i + 1..] == [s[0]] + (s[1..][..i - 1] + s[1..][i..])
  {
    assert s[..i] == [s[0]] + s[1..][..i - 1];
    assert s[i + 1..] == s[1..][i..];
  }

  /** With distinct keys, the last entry is the only one with its key. */
  lemma LastKeyOnlyAtEnd<K, V>(s: seq<CacheItem<K, V>>)
    requires DistinctKeys(s) && s != []
    ensures s[|s| - 1].key !in KeysOf(s[..|s| - 1])
  {
    var n, front := |s|, s[..|s| - 1];
    forall j | 0 <= j < n - 1 ensures front[j].key != s[n - 1].key {
      assert front[j] == s[j];
    }
  }

  /**
   * The cache after `set(k, v)`: the new item goes to the head; if `k` was
   * present its old entry is dropped, otherwise, when the cache is full,
   * the least recently used entry (the tail) is evicted.
   */
  ghost function AfterSet<K, V>(s: seq<CacheItem<K, V>>, capacity: int, k: K, v: V): seq<CacheItem<K, V>>
    requires 1 <= capacity
  {
    var item := CacheItem(k, v);
    if k in KeysOf(s) then [item] + RemoveKey(s, k)
    else if |s| == capacity then [item] + s[..|s| - 1]
    else [item] + s
  }

  /**
   * The cache after `get(k)`: a present key's entry moves to the head; an
   * absent key leaves the cache as it is.
   */
  ghost function AfterGet<K, V>(s: seq<CacheItem<K, V>>, k: K): seq<CacheItem<K, V>> {
    match Lookup(s, k)
    case None => s
    case Some(v) => [CacheItem(k, v)] + RemoveKey(s, k)
  }

  /** Putting an item whose key is new in front of distinct entries keeps them distinct. */
  lemma ConsDistinct<K, V>(x: CacheItem<K, V>, t: seq<CacheItem<K, V>>)
    requires DistinctKeys(t) && x.key !in KeysOf(t)
    ensures DistinctKeys([x] + t) && KeysOf([x] + t) == {x.key} + KeysOf(t)
  {
    var r := [x] + t;
    assert r[1..] == t;
    KeysOfCons(r);
    forall a, b | 0 <= a < b < |r| ensures r[a].key != r[b].key {
      assert r[b] == t[b - 1];
      if 0 < a {
        assert r[a] == t[a - 1];
      }
    }
  }

  /** Looking up a key other than the head's skips the head. */
  lemma LookupCons<K, V>(x: CacheItem<K, V>, t: seq<CacheItem<K, V>>, k: K)
    ensures Lookup([x] + t, k) == if x.key == k then Some(x.value) else Lookup(t, k)
  {
    assert ([x] + t)[1..] == t;
  }

  /** With distinct keys, dropping the last entry keeps the keys distinct and drops only its key. */
  lemma KeysDropLast<K, V>(s: seq<CacheItem<K, V>>)
    requires DistinctKeys(s) && s != []
    ensures DistinctKeys(s[..|s| - 1])
    ensures KeysOf(s[..|s| - 1]) == KeysOf(s) - {s[|s| - 1].key}
  {
    var n, front := |s|, s[..|s| - 1];
    LastKeyOnlyAtEnd(s);
    forall a, b | 0 <= a < b < n - 1 ensures front[a].key != front[b].key {
      assert front[a] == s[a] && front[b] == s[b];
    }
    forall k' | k' in KeysOf(s) && k' != s[n - 1].key ensures k' in KeysOf(front) {
      var j :| 0 <= j < n && s[j].key == k';
      assert front[j] == s[j];
    }
    forall k' | k' in KeysOf(front) ensures k' in KeysOf(s) {
      var j :| 0 <= j < n - 1 && front[j].key == k';
      assert front[j] == s[j];
    }
  }

  /** With distinct keys, dropping the last entry forgets its key and no other. */
  lemma LookupDropLast<K, V>(s: seq<CacheItem<K, V>>, k: K)
    requires DistinctKeys(s) && s != []
    ensures k != s[|s| - 1].key ==> Lookup(s[..|s| - 1], k) == Lookup(s, k)
    ensures Lookup(s[..|s| - 1], s[|s| - 1].key) == None
  {
    var front := s[..|s| - 1];
    KeysDropLast(s);
    if k != s[|s| - 1].key && k in KeysOf(front) {
      var j :| 0 <= j < |front| && front[j].key == k;
      assert front[j] == s[j];
      LookupAt(front, j);
      LookupAt(s, j);
    }
  }

  /** After any set, keys stay distinct and within capacity, the new item is at the head and `k` maps to `v`. */
  lemma SetPutsValue<K, V>(s: seq<CacheItem<K, V>>, capacity: int, k: K, v: V)
    requires 1 <= capacity && DistinctKeys(s) && |s| <= capacity
    ensures var r := AfterSet(s, capacity, k, v);
      DistinctKeys(r) && 1 <= |r| <= capacity && r[0] == CacheItem(k, v) && Lookup(r, k) == Some(v)
  {
    var item := CacheItem(k, v);
    if k in KeysOf(s) {
      ConsDistinct(item, RemoveKey(s, k));
    } else if |s| == capacity {
      KeysDropLast(s);
      ConsDistinct(item, s[..|s| - 1]);
    } else {
      ConsDistinct(item, s);
    }
  }

  /** Setting a present key keeps the size and the key set, and changes no other key's value. */
  lemma SetExistingKey<K, V>(s: seq<CacheItem<K, V>>, capacity: int, k: K, v: V)
    requires 1 <= capacity && DistinctKeys(s) && k in KeysOf(s)
    ensures var r := AfterSet(s, capacity, k, v);
      && |r| == |s| && KeysOf(r) == KeysOf(s)
      && forall k' :: k' != k ==> Lookup(r, k') == Lookup(s, k')
  {
    var item, t := CacheItem(k, v), RemoveKey(s, k);
    ConsDistinct(item, t);
    forall k' | k' != k ensures Lookup([item] + t, k') == Lookup(s, k') {
      LookupCons(item, t, k');
      RemoveKeyLookup(s, k, k');
    }
  }

  /**
   * Setting a new key in a full cache evicts exactly the least recently used
   * key (the tail's), adds `k`, keeps the size, and changes no other key's value.
   */
  lemma SetNewKeyFull<K, V>(s: seq<CacheItem<K, V>>, capacity: int, k: K, v: V)
    requires 1 <= capacity && DistinctKeys(s) && k !in KeysOf(s) && |s| == capacity
    ensures var r, lru := AfterSet(s, capacity, k, v), s[|s| - 1].key;
      && |r| == capacity && KeysOf(r) == KeysOf(s) - {lru} + {k}
      && lru != k && Lookup(r, lru) == None
      && forall k' :: k' != k && k' != lru ==> Lookup(r, k') == Lookup(s, k')
  {
    var item, t := CacheItem(k, v), s[..|s| - 1];
    KeysDropLast(s);
    LookupDropLast(s, k);
    KeysOfCons([item] + t);
    assert ([item] + t)[1..] == t;
    LookupCons(item, t, s[|s| - 1].key);
    forall k' | k' != k && k' != s[|s| - 1].key ensures Lookup([item] + t, k') == Lookup(s, k') {
      LookupCons(item, t, k');
      LookupDropLast(s, k');
    }
  }

  /** Setting a new key in a cache with room adds it, grows the size by one, and changes no other key's value. */
  lemma SetNewKeyRoom<K, V>(s: seq<CacheItem<K, V>>, capacity: int, k: K, v: V)
    requires 1 <= capacity && k !in KeysOf(s) && |s| != capacity
    ensures var r := AfterSet(s, capacity, k, v);
      && |r| == |s| + 1 && KeysOf(r) == KeysOf(s) + {k}
      && forall k' :: k' != k ==> Lookup(r, k') == Lookup(s, k')
  {
    var item := CacheItem(k, v);
    KeysOfCons([item] + s);
    assert ([item] + s)[1..] == s;
    forall k' | k' != k ensures Lookup([item] + s, k') == Lookup(s, k') {
      LookupCons(item, s, k');
    }
  }

  /**
   * A get changes no key's value, the size or the key set; a present key
   * moves to the head and an absent key leaves the cache as it is.
   */
  lemma GetKeepsMapping<K, V>(s: seq<CacheItem<K, V>>, k: K)
    requires DistinctKeys(s)
    ensures var r := AfterGet(s, k);
      && DistinctKeys(r) && |r| == |s| && KeysOf(r) == KeysOf(s)
      && (forall k' :: Lookup(r, k') == Lookup(s, k'))
      && (k in KeysOf(s) ==> r[0].key == k)
      && (k !in KeysOf(s) ==> r == s)
  {
    if k in KeysOf(s) {
      var item, t := CacheItem(k, Lookup(s, k).value), RemoveKey(s, k);
      ConsDistinct(item, t);
      forall k' ensures Lookup([item] + t, k') == Lookup(s, k') {
        LookupCons(item, t, k');
        if k' != k {
          RemoveKeyLookup(s, k, k');
        }
      }
    }
  }

  /** Getting the same key twice in a row is the same as getting it once. */
  lemma GetTwice<K, V>(s: seq<CacheItem<K, V>>, k: K)
    requires DistinctKeys(s)
    ensures AfterGet(AfterGet(s, k), k) == AfterGet(s, k)
  {
    if k in KeysOf(s) {
      var item, t := CacheItem(k, Lookup(s, k).value), RemoveKey(s, k);
      LookupCons(item, t, k);
      ConsDistinct(item, t);
      RemoveKeyHead(item, t);
    }
  }

  /** Removing the head's key from a sequence where it occurs only at the head leaves the tail. */
  lemma RemoveKeyHead<K, V>(x: CacheItem<K, V>, t: seq<CacheItem<K, V>>)
    requires x.key !in KeysOf(t)
    ensures RemoveKey([x] + t, x.key) == t
  {
    assert ([x] + t)[1..] == t;
  }

  /**
   * Updating a key through set refreshes its recency just as get does:
   * getting it first makes no difference to the set, and getting it right
   * after the set changes nothing.
   */
  lemma SetRefreshesLikeGet<K, V>(s: seq<CacheItem<K, V>>, capacity: int, k: K, v: V)
    requires 1 <= capacity && DistinctKeys(s) && |s| <= capacity
    ensures AfterSet(AfterGet(s, k), capacity, k, v) == AfterSet(s, capacity, k, v)
    ensures AfterGet(AfterSet(s, capacity, k, v), k) == AfterSet(s, capacity, k, v)
  {
    var item := CacheItem(k, v);
    if k in KeysOf(s) {
      var x, t := CacheItem(k, Lookup(s, k).value), RemoveKey(s, k);
      ConsDistinct(x, t);
      RemoveKeyHead(x, t);
    }
    SetPutsValue(s, capacity, k, v);
    var r := AfterSet(s, capacity, k, v);
    assert r == [item] + r[1..];
    assert k !in KeysOf(r[1..]) by {
      ConsDistinct(item, []);
      forall j | 0 <= j < |r[1..]| ensures r[1..][j].key != k {
        assert r[1..][j] == r[j + 1];
      }
    }
    RemoveKeyHead(item, r[1..]);
  }
}
