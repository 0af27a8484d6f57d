/**
 * `CachingTrait`: a memo map from string keys to values in which `null`
 * (here `None`) doubles as the miss sentinel.
 */
module Caching {
  import opened Wrappers

  /** `get`: the stored value, or null for an absent key. */
  function Lookup<V>(cache: map<string, Option<V>>, key: string): (r: Option<V>)
    ensures key !in cache ==> r == None
  {
    if key in cache then cache[key] else None
  }

  /** What one `execWithCache` call returns, the cache it leaves, and whether it called the callable. */
  datatype Memo<V> = Memo(value: Option<V>, cache: map<string, Option<V>>, called: bool)

  /** `execWithCache(key, callable)` where the callable would return `computed`. */
  function Memoize<V>(cache: map<string, Option<V>>, key: string, computed: Option<V>): Memo<V>
  {
    var hit := Lookup(cache, key);
    if hit.None? then Memo(computed, cache[key := computed], true) else Memo(hit, cache, false)
  }

  /** `set` changes only its own key. */
  lemma SetOnlyOwnKey<V>(cache: map<string, Option<V>>, key: string, value: Option<V>, other: string)
    ensures Lookup(cache[key := value], key) == value
    ensures other != key ==> Lookup(cache[key := value], other) == Lookup(cache, other)
  {
  }

  /** On a miss the callable is called once and its result stored; on a hit the stored value comes back untouched. */
  lemma MemoizeHitOrMiss<V>(cache: map<string, Option<V>>, key: string, computed: Option<V>)
    ensures Lookup(cache, key).None? ==>
      var m := Memoize(cache, key, computed); m.called && m.value == computed && Lookup(m.cache, key) == computed
    ensures Lookup(cache, key).Some? ==>
      Memoize(cache, key, computed) == Memo(Lookup(cache, key), cache, false)
  {
  }

  /** A non-null result is computed once: the next call returns it whatever the callable would return then. */
  lemma MemoizeStable<V>(cache: map<string, Option<V>>, key: string, first: Option<V>, second: Option<V>)
    requires Memoize(cache, key, first).value.Some?
    ensures var m := Memoize(cache, key, first);
      Memoize(m.cache, key, second) == Memo(m.value, m.cache, false)
  {
  }

  /** A null result is never effectively cached: the next call calls the callable again. */
  lemma MemoizeNullRecomputes<V>(cache: map<string, Option<V>>, key: string, second: Option<V>)
    requires Lookup(cache, key).None?
    ensures var m := Memoize(cache, key, None);
      m.value == None && Memoize(m.cache, key, second).called && Memoize(m.cache, key, second).value == second
  {
  }

  /** An object using `CachingTrait`: its `$cache` field and the trait's three methods. */
  class Cache<V> {
    var entries: map<string, Option<V>>

    constructor()
      ensures entries == map[]
    {
      entries := map[];
    }

    method Get(key: string) returns (r: Option<V>)
      ensures r == Lookup(entries, key)
    {
      r := if key in entries then entries[key] else None;
    }

    method Set(key: string, value: Option<V>)
      modifies this
      ensures entries == old(entries)[key := value]
    {
      entries := entries[key := value];
    }

    /** Calls `callable` only on a miss, and stores whatever it returns, null included. */
    method ExecWithCache(key: string, callable: () -> Option<V>) returns (r: Option<V>, called: bool)
      modifies this
      ensures Memo(r, entries, called) == Memoize(old(entries), key, callable())
    {
      r := Get(key);
      called := false;
      if r.None? {
        r := callable();
        called := true;
        Set(key, r);
      }
    }
  }
}
