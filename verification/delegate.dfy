/** The shared underlying ("delegate") cache that a transactional buffer
    writes through to, modelled as the in-memory store a perpetual cache
    keeps: a key is absent, or maps to `Some(v)`, or maps to `None`, an
    explicitly cached `null`. */
module Delegate {
  import opened Wrappers

  datatype Cache<K, V> = Cache(id: string, entries: map<K, Option<V>>)

  /** `getObject`: Java answers `null` both for an absent key and for a key
      that maps to a cached `null`. */
  function GetObject<K, V>(c: Cache<K, V>, key: K): Option<V> {
    if key in c.entries then c.entries[key] else None
  }

  /** A read of `key` that comes back `null`: a miss. */
  predicate Misses<K, V>(c: Cache<K, V>, key: K) {
    GetObject(c, key).None?
  }

  function PutObject<K, V>(c: Cache<K, V>, key: K, value: Option<V>): Cache<K, V> {
    Cache(c.id, c.entries[key := value])
  }

  function RemoveObject<K, V>(c: Cache<K, V>, key: K): Cache<K, V> {
    Cache(c.id, c.entries - {key})
  }

  function Clear<K, V>(c: Cache<K, V>): Cache<K, V> {
    Cache(c.id, map[])
  }

  function GetSize<K, V>(c: Cache<K, V>): nat {
    |c.entries|
  }
}
