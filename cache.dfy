/**
 * The reference-counted cache every cache of the engine extends.
 *
 * A key is either absent, being loaded by one caller (`getting`), or cached
 * with a positive reference count. `count` counts the keys that are cached or
 * being loaded, and stays within `maxResource` unless that is 0 (no bound).
 * The loader and the eviction hook of a concrete cache are the loader
 * function passed to `Get` and the value `Release` hands back.
 */
module Cache {
  import opened Wrappers

  /** What the first critical section of `get` decides. */
  datatype Lookup<T> =
    | Hit(value: T)   // cached: one more reference
    | Loading         // this caller now loads the key
    | Busy            // another caller is loading it: `get` sleeps and retries

  /** The counts after one more reference on `p`. */
  function Bump(refs: map<int, int>, p: int): (r: map<int, int>)
    ensures r.Keys == refs.Keys + {p}
    ensures r[p] == (if p in refs then refs[p] else 0) + 1
    ensures forall q :: q in refs && q != p ==> r[q] == refs[q]
  {
    refs[p := (if p in refs then refs[p] else 0) + 1]
  }

  /** The counts after one reference on `k` is given back: the last one removes the key. */
  function Drop(refs: map<int, int>, k: int): (r: map<int, int>)
    requires k in refs
    ensures refs[k] > 1 ==> r.Keys == refs.Keys && r[k] == refs[k] - 1
    ensures refs[k] <= 1 ==> k !in r
  {
    if refs[k] > 1 then refs[k := refs[k] - 1] else refs - {k}
  }

  /** Taking a reference and giving it back leaves the counts as they were. */
  lemma {:induction false} DropBump(refs: map<int, int>, k: int)
    requires k in refs ==> refs[k] >= 1
    ensures Drop(Bump(refs, k), k) == refs
  {
    var b := Bump(refs, k);
    if k in refs {
      assert b[k := b[k] - 1] == refs[k := refs[k]];
      assert refs[k := refs[k]].Keys == refs.Keys;
    } else {
      assert (b - {k}).Keys == refs.Keys;
    }
  }

  /** `AbstractCache`. */
  class RefCache<T> {
    var cache: map<int, T>
    var references: map<int, int>
    var getting: set<int>
    const maxResource: int
    var count: int

    /** The bookkeeping invariant that holds whenever the lock is free. */
    ghost predicate Valid()
      reads this
    {
      && cache.Keys == references.Keys
      && (forall k :: k in references ==> references[k] >= 1)
      && cache.Keys !! getting
      && count == |cache.Keys| + |getting|
      && (maxResource > 0 ==> count <= maxResource)
    }

    constructor (maxResource: int)
      ensures Valid() && this.maxResource == maxResource
      ensures cache == map[] && references == map[] && getting == {} && count == 0
    {
      this.maxResource := maxResource;
      cache := map[];
      references := map[];
      getting := {};
      count := 0;
    }

    /**
     * The first critical section of `get`: a hit takes one more reference;
     * a miss fails when the cache is full, and otherwise reserves a slot and
     * marks the key as being loaded.
     */
    method Lookup(key: int) returns (r: Result<Lookup<T>>)
      requires Valid()
      modifies this`references, this`count, this`getting
      ensures Valid()
      ensures key in old(getting) ==>
        r == Ok(Busy) && references == old(references) && count == old(count) && getting == old(getting)
      ensures key !in old(getting) && key in cache ==>
        && r == Ok(Hit(cache[key]))
        && references == old(references)[key := old(references)[key] + 1]
        && count == old(count) && getting == old(getting)
      ensures key !in old(getting) && key !in cache && maxResource > 0 && old(count) == maxResource ==>
        r == Err(CacheFull) && references == old(references) && count == old(count) && getting == old(getting)
      ensures key !in old(getting) && key !in cache && !(maxResource > 0 && old(count) == maxResource) ==>
        && r == Ok(Loading)
        && references == old(references) && count == old(count) + 1 && getting == old(getting) + {key}
    {
      if key in getting {
        return Ok(Busy);
      }
      if key in cache {
        references := references[key := references[key] + 1];
        return Ok(Hit(cache[key]));
      }
      if maxResource > 0 && count == maxResource {
        return Err(CacheFull);
      }
      count := count + 1;
      getting := getting + {key};
      r := Ok(Loading);
    }

    /** The last critical section of a successful load: the value is cached with one reference. */
    method FinishLoad(key: int, value: T)
      requires Valid() && key in getting
      modifies this`cache, this`references, this`getting
      ensures Valid()
      ensures getting == old(getting) - {key}
      ensures cache == old(cache)[key := value] && references == old(references)[key := 1]
    {
      getting := getting - {key};
      cache := cache[key := value];
      references := references[key := 1];
    }

    /** The critical section of a failed load: the reserved slot is given back. */
    method AbortLoad(key: int)
      requires Valid() && key in getting
      modifies this`count, this`getting
      ensures Valid()
      ensures count == old(count) - 1 && getting == old(getting) - {key}
    {
      count := count - 1;
      getting := getting - {key};
    }

    /**
     * `get` when no other caller is loading `key`: a hit returns the cached
     * value with one more reference; a miss on a full cache fails before
     * loading; any other miss runs the loader once, and caches its value
     * with one reference, or gives the slot back and passes its error on.
     */
    method Get(key: int, load: int -> Result<T>) returns (r: Result<T>)
      requires Valid() && key !in getting
      modifies this`cache, this`references, this`count, this`getting
      ensures Valid() && getting == old(getting)
      ensures key in old(cache) ==>
        && r == Ok(old(cache)[key]) && cache == old(cache)
        && references == old(references)[key := old(references)[key] + 1] && count == old(count)
      ensures key !in old(cache) && maxResource > 0 && old(count) == maxResource ==>
        && r == Err(CacheFull)
        && cache == old(cache) && references == old(references) && count == old(count)
      ensures key !in old(cache) && !(maxResource > 0 && old(count) == maxResource) ==>
        && r == load(key)
        && (r.Ok? ==>
              cache == old(cache)[key := r.value] && references == old(references)[key := 1] && count == old(count) + 1)
        && (r.Err? ==> cache == old(cache) && references == old(references) && count == old(count))
    {
      var l :- Lookup(key);
      match l
      case Hit(v) =>
        r := Ok(v);
      case Busy =>
        assert false;
      case Loading =>
        r := load(key);
        if r.Ok? {
          FinishLoad(key, r.value);
        } else {
          AbortLoad(key);
        }
    }

    /**
     * A holder changed the cached object in place: every other holder of the
     * key sees the new value.
     */
    method Update(key: int, value: T)
      requires Valid() && key in cache
      modifies this`cache
      ensures Valid() && cache == old(cache)[key := value]
    {
      cache := cache[key := value];
    }

    /**
     * `release`: drops one reference. The last one evicts the key and hands
     * its value back for `releaseForCache`; a key that is not cached makes
     * Java unbox a null count.
     */
    method Release(key: int) returns (r: Result<Option<T>>)
      requires Valid()
      modifies this`cache, this`references, this`count
      ensures Valid() && getting == old(getting)
      ensures key !in old(references) ==>
        r == Err(NullPointer) && cache == old(cache) && references == old(references) && count == old(count)
      ensures key in old(references) && old(references)[key] == 1 ==>
        && r == Ok(Some(old(cache)[key]))
        && cache == old(cache) - {key} && references == old(references) - {key} && count == old(count) - 1
      ensures key in old(references) && old(references)[key] > 1 ==>
        && r == Ok(None)
        && cache == old(cache) && references == old(references)[key := old(references)[key] - 1]
        && count == old(count)
    {
      if key !in references {
        return Err(NullPointer);
      }
      var ref := references[key] - 1;
      if ref == 0 {
        var value := cache[key];
        references := references - {key};
        cache := cache - {key};
        count := count - 1;
        assert cache.Keys == old(cache).Keys - {key};
        r := Ok(Some(value));
      } else {
        references := references[key := ref];
        r := Ok(None);
      }
    }

    /**
     * `close` as written, with `order` the hash order of the cached keys: it
     * removes keys from the map whose key set it is iterating, so Java's
     * fail-fast iterator stops it after the first key with a
     * `ConcurrentModificationException` whenever two or more keys are
     * cached. The first key is released; `count` is not touched.
     */
    method Close(order: seq<int>) returns (released: seq<T>, res: Outcome)
      requires forall k :: k in cache <==> k in order
      requires forall i, j :: 0 <= i < j < |order| ==> order[i] != order[j]
      modifies this`cache, this`references
      ensures order == [] ==>
        released == [] && res == Pass && cache == old(cache) && references == old(references)
      ensures order != [] ==> order[0] in old(cache)
      ensures order != [] && order[0] in old(cache) ==>
        && released == [old(cache)[order[0]]]
        && cache == old(cache) - {order[0]} && references == old(references) - {order[0]}
      ensures res.Fail? <==> |order| >= 2
      ensures res.Fail? ==> res.error == ConcurrentModification
    {
      if order == [] {
        return [], Pass;
      }
      var k := order[0];
      released := [cache[k]];
      references := references - {k};
      cache := cache - {k};
      res := if |order| >= 2 then Fail(ConcurrentModification) else Pass;
    }

    /**
     * `close` as intended: every cached key is released exactly once, in
     * hash order, and `cache` and `references` lose every cached key.
     */
    method CloseAll(order: seq<int>) returns (released: seq<T>)
      requires forall k :: k in cache <==> k in order
      requires forall i, j :: 0 <= i < j < |order| ==> order[i] != order[j]
      modifies this`cache, this`references
      ensures forall k :: k !in cache
      ensures forall k :: k in references <==> k in old(references) && k !in order
      ensures forall k :: k in references ==> references[k] == old(references)[k]
      ensures |released| == |order| && forall i :: 0 <= i < |order| ==> released[i] == old(cache)[order[i]]
    {
      released := [];
      for i := 0 to |order|
        invariant forall k :: k in cache <==> k in order[i..]
        invariant forall k :: k in cache ==> cache[k] == old(cache)[k]
        invariant forall k :: k in references <==> k in old(references) && k !in order[..i]
        invariant forall k :: k in references ==> references[k] == old(references)[k]
        invariant forall j :: 0 <= j < |order| ==> order[j] in old(cache)
        invariant |released| == i && forall j :: 0 <= j < i ==> released[j] == old(cache)[order[j]]
      {
        var k := order[i];
        assert order[i..] == [k] + order[i + 1..];
        assert order[..i + 1] == order[..i] + [k];
        released := released + [cache[k]];
        references := references - {k};
        cache := cache - {k};
      }
    }
  }

  /**
   * The cache test's loop body on the mock cache (50 slots, identity loader,
   * no eviction work): `get(uid)` returns `uid`, and `release(uid)` evicts it
   * again, leaving the cache as it was.
   */
  method IdentityGetRelease(c: RefCache<int>, uid: int) returns (h: int, evicted: Option<int>)
    requires c.Valid() && c.maxResource == 50 && c.getting == {} && c.count < 50 && uid !in c.cache
    modifies c
    ensures h == uid && evicted == Some(uid)
    ensures c.Valid() && c.cache == old(c.cache) && c.references == old(c.references) && c.count == old(c.count)
  {
    var got := c.Get(uid, x => Ok(x));
    h := got.value;
    var rel := c.Release(h);
    evicted := rel.value;
    assert c.cache == old(c.cache)[uid := uid] - {uid};
  }
}
