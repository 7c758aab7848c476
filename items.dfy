/**
 * The values stored in the cache. A cache item is an immutable key/value
 * pair: it keeps its key so that evicting its node can also remove the
 * matching index entry without searching the index.
 */
module Items {

  /** An entry of the cache; `key` and `value` are its two getters. */
  datatype CacheItem<K, V> = CacheItem(key: K, value: V)

  /** The result of a lookup: the value found, or nothing. */
  datatype Option<V> = None | Some(value: V)
}
