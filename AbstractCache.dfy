/**
 * The reference-counting cache of backend/common/AbstractCache.java.
 *
 * The bookkeeping — `cache`, `references`, `getting` and the counter `cnt` —
 * is modelled sequentially; each method is one critical section of the
 * source. The loader hook getForCache is a function parameter and the
 * evictor hook releaseForCache is recorded in a ghost log of the values it
 * is given, as is every key the loader is asked for.
 */
module AbstractCache {
  import opened Errors

  /** What one pass of get's retry loop, under the lock, decides. */
  datatype Attempt<T> =
    | Hit(value: T)   // cached: one more reference handed out
    | InFlight        // another caller is loading the key: sleep and retry
    | Full            // no free slot: CacheFullException
    | Reserved        // slot taken and key marked in flight: the caller loads it

  /** What get gives its caller in this sequential model. */
  datatype GetOutcome<T> =
    | Got(value: T)
    | Retry           // the key was in flight; the source sleeps 1 ms and loops
    | Failed(error: Error)

  /** The values of m at the keys ks, in the order of ks. */
  function ValuesAt<K, V>(m: map<K, V>, ks: seq<K>): (r: seq<V>)
    requires forall i :: 0 <= i < |ks| ==> ks[i] in m
    ensures |r| == |ks| && forall i :: 0 <= i < |ks| ==> r[i] == m[ks[i]]
  {
    if ks == [] then [] else [m[ks[0]]] + ValuesAt(m, ks[1..])
  }

  /** One more key drained: the log grows by that key's value. */
  lemma ValuesAtStep<K, V>(m: map<K, V>, ks: seq<K>, n: nat, log0: seq<V>, log: seq<V>)
    requires n < |ks| && forall i :: 0 <= i < |ks| ==> ks[i] in m
    requires log == log0 + ValuesAt(m, ks[..n])
    ensures log + [m[ks[n]]] == log0 + ValuesAt(m, ks[..n + 1])
  {
    assert ks[..n + 1] == ks[..n] + [ks[n]];
  }

  lemma RemoveKeyCount<K, V>(m: map<K, V>, k: K)
    requires k in m
    ensures |(m - {k}).Keys| == |m.Keys| - 1
  {
    assert (m - {k}).Keys == m.Keys - {k};
  }

  lemma AddKeyCount<K, V>(m: map<K, V>, k: K, v: V)
    requires k !in m
    ensures |m[k := v].Keys| == |m.Keys| + 1
  {
    assert m[k := v].Keys == m.Keys + {k};
  }

  /** Removing key order[n] keeps the later keys of a duplicate-free order, with their values. */
  lemma DrainStep<K, V>(m: map<K, V>, m0: map<K, V>, order: seq<K>, n: nat)
    requires n < |order| && forall i, j :: 0 <= i < j < |order| ==> order[i] != order[j]
    requires |m| == |order| - n
    requires forall i :: n <= i < |order| ==> order[i] in m && order[i] in m0 && m[order[i]] == m0[order[i]]
    ensures |m - {order[n]}| == |order| - (n + 1)
    ensures forall i :: n + 1 <= i < |order| ==>
      order[i] in m - {order[n]} && (m - {order[n]})[order[i]] == m0[order[i]]
  {
    RemoveKeyCount(m, order[n]);
  }

  class Cache<T> {
    var cache: map<int, T>          // the cached resources
    var references: map<int, int>   // how many holders each cached resource has
    var getting: map<int, bool>     // keys being loaded right now
    const maxResource: int          // capacity; 0 or less means unbounded
    var cnt: int                    // resources cached or being loaded

    ghost var loads: seq<int>       // every key passed to getForCache, in order
    ghost var evictions: seq<T>     // every value passed to releaseForCache, in order

    /**
     * A key is absent, in flight, or cached with at least one holder; cnt
     * counts the cached and in-flight keys and never exceeds a positive capacity.
     */
    ghost predicate Valid()
      reads this
    {
      && cache.Keys == references.Keys
      && cache.Keys !! getting.Keys
      && (forall k :: k in references ==> references[k] >= 1)
      && cnt == |cache.Keys| + |getting.Keys|
      && (maxResource > 0 ==> cnt <= maxResource)
    }

    constructor (maxResource: int)
      ensures Valid() && this.maxResource == maxResource
      ensures cache == map[] && references == map[] && getting == map[] && cnt == 0
      ensures loads == [] && evictions == []
    {
      this.maxResource := maxResource;
      cache, references, getting := map[], map[], map[];
      cnt := 0;
      loads, evictions := [], [];
    }

    /** One locked pass of get's loop. */
    method TryAcquire(key: int) returns (r: Attempt<T>)
      requires Valid()
      modifies this
      ensures Valid() && loads == old(loads) && evictions == old(evictions)
      ensures key in old(getting) ==> r == InFlight && unchanged(this)
      ensures key !in old(getting) && key in old(cache) ==>
        && r == Hit(old(cache)[key])
        && references == old(references)[key := old(references)[key] + 1]
        && cache == old(cache) && getting == old(getting) && cnt == old(cnt)
      ensures key !in old(getting) && key !in old(cache) && maxResource > 0 && old(cnt) == maxResource ==>
        r == Full && unchanged(this)
      ensures key !in old(getting) && key !in old(cache) && !(maxResource > 0 && old(cnt) == maxResource) ==>
        && r == Reserved
        && getting == old(getting)[key := true] && cnt == old(cnt) + 1
        && cache == old(cache) && references == old(references)
    {
      if key in getting {
        return InFlight;
      }
      if key in cache {
        var obj := cache[key];
        references := references[key := references[key] + 1];
        return Hit(obj);
      }
      if maxResource > 0 && cnt == maxResource {
        return Full;
      }
      cnt := cnt + 1;
      getting := getting[key := true];
      assert getting.Keys == old(getting).Keys + {key};
      return Reserved;
    }

    /**
     * The locked section after getForCache(key) returned `loaded`: a value
     * becomes cached with one holder; an exception undoes the reservation
     * and is passed on.
     */
    method FinishLoad(key: int, loaded: Result<T>) returns (r: Result<T>)
      requires Valid() && key in getting
      modifies this
      ensures Valid() && r == loaded
      ensures loads == old(loads) + [key] && evictions == old(evictions)
      ensures getting == old(getting) - {key}
      ensures loaded.Ok? ==>
        && cache == old(cache)[key := loaded.value]
        && references == old(references)[key := 1]
        && cnt == old(cnt)
      ensures loaded.Err? ==>
        cache == old(cache) && references == old(references) && cnt == old(cnt) - 1
    {
      RemoveKeyCount(getting, key);
      if loaded.Err? {
        loads, cnt, getting := loads + [key], cnt - 1, getting - {key};
        return loaded;
      }
      AddKeyCount(cache, key, loaded.value);
      loads, getting := loads + [key], getting - {key};
      cache, references := cache[key := loaded.value], references[key := 1];
      return loaded;
    }

    /**
     * get(key), minus the wait: a hit, a full cache, or a load through the
     * loader. A key in flight is never loaded a second time: the caller is
     * told to retry and nothing changes.
     */
    method Get(key: int, loader: int -> Result<T>) returns (r: GetOutcome<T>)
      requires Valid()
      modifies this
      ensures Valid() && evictions == old(evictions)
      ensures key in old(getting) ==> r == Retry && unchanged(this)
      ensures key !in old(getting) && key in old(cache) ==>
        && r == Got(old(cache)[key]) && loads == old(loads)
        && references == old(references)[key := old(references)[key] + 1]
        && cache == old(cache) && getting == old(getting) && cnt == old(cnt)
      ensures key !in old(getting) && key !in old(cache) && maxResource > 0 && old(cnt) == maxResource ==>
        r == Failed(CacheFullException) && unchanged(this)
      ensures key !in old(getting) && key !in old(cache) && !(maxResource > 0 && old(cnt) == maxResource) ==>
        && loads == old(loads) + [key]
        && getting == old(getting)
        && match loader(key)
           case Ok(v) =>
             && r == Got(v)
             && cache == old(cache)[key := v] && references == old(references)[key := 1]
             && cnt == old(cnt) + 1
           case Err(e) =>
             && r == Failed(e)
             && cache == old(cache) && references == old(references) && cnt == old(cnt)
    {
      var attempt := TryAcquire(key);
      match attempt
      case Hit(v) => r := Got(v);
      case InFlight => r := Retry;
      case Full => r := Failed(CacheFullException);
      case Reserved =>
        var loaded := FinishLoad(key, loader(key));
        r := if loaded.Ok? then Got(loaded.value) else Failed(loaded.error);
        assert getting == old(getting)[key := true] - {key};
    }

    /**
     * release(key): one holder fewer; the last holder's release hands the
     * value to the evictor and frees the key's slot.
     */
    method Release(key: int)
      requires Valid() && key in references
      modifies this
      ensures Valid() && loads == old(loads) && getting == old(getting)
      ensures old(references)[key] > 1 ==>
        && references == old(references)[key := old(references)[key] - 1]
        && cache == old(cache) && cnt == old(cnt) && evictions == old(evictions)
      ensures old(references)[key] == 1 ==>
        && evictions == old(evictions) + [old(cache)[key]]
        && cache == old(cache) - {key} && references == old(references) - {key}
        && cnt == old(cnt) - 1
    {
      var ref := references[key] - 1;
      if ref == 0 {
        var obj := cache[key];
        evictions := evictions + [obj];
        references := references - {key};
        cache := cache - {key};
        cnt := cnt - 1;
      } else {
        references := references[key := ref];
      }
    }

    /**
     * close(): every cached value handed to the evictor once, in `order`,
     * the order in which the HashMap's key set enumerates the cached keys;
     * cache and references emptied. getting and cnt are left as they were,
     * so cnt goes on counting the drained keys.
     */
    method Close(order: seq<int>)
      requires Valid()
      requires |order| == |cache| && forall i :: 0 <= i < |order| ==> order[i] in cache
      requires forall i, j :: 0 <= i < j < |order| ==> order[i] != order[j]
      modifies this
      ensures cache == map[] && references == map[]
      ensures getting == old(getting) && cnt == old(cnt) && loads == old(loads)
      ensures evictions == old(evictions) + ValuesAt(old(cache), order)
    {
      var c, refs := cache, references;
      ghost var ev := evictions;
      assert |refs| == |c| by {
        assert refs.Keys == c.Keys;
      }
      for n := 0 to |order|
        modifies {}
        invariant |c| == |refs| == |order| - n
        invariant forall i :: n <= i < |order| ==> order[i] in c && order[i] in refs
        invariant forall i :: n <= i < |order| ==> c[order[i]] == cache[order[i]]
        invariant ev == evictions + ValuesAt(cache, order[..n])
      {
        var key := order[n];
        ValuesAtStep(cache, order, n, evictions, ev);
        DrainStep(c, cache, order, n);
        DrainStep(refs, refs, order, n);
        ev, c, refs := ev + [c[key]], c - {key}, refs - {key};
      }
      assert order[..|order|] == order;
      evictions, cache, references := ev, c, refs;
    }
  }

  /**
   * Once the last holder releases a key, the evictor has run once on its
   * value and the next get of that key loads it afresh.
   */
  method ReleaseLastThenGet<T>(c: Cache<T>, key: int, loader: int -> Result<T>) returns (r: GetOutcome<T>)
    requires c.Valid() && key in c.references && c.references[key] == 1
    modifies c
    ensures c.Valid()
    ensures c.evictions == old(c.evictions) + [old(c.cache)[key]]
    ensures c.loads == old(c.loads) + [key]
    ensures loader(key).Ok? ==> r == Got(loader(key).value) && key in c.references && c.references[key] == 1
    ensures loader(key).Err? ==> r == Failed(loader(key).error) && key !in c.cache
  {
    c.Release(key);
    r := c.Get(key, loader);
  }
}
