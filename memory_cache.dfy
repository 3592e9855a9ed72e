/**
 * The thread-safe in-memory cache of systemDesign.cs: a string-to-string
 * dictionary whose every access happens under one lock. Accesses are
 * modelled one at a time, so the lock has no counterpart here; `null` from
 * `Get` is `None`.
 */
module GuardedCache {
  import opened Wrappers

  class MemoryCache {
    var cache: map<string, string>

    constructor ()
      ensures cache == map[]
    {
      cache := map[];
    }

    /** Stores `value` under `key`, replacing any earlier value; no other key changes. */
    method Set(key: string, value: string)
      modifies this
      ensures cache == old(cache)[key := value]
    {
      cache := cache[key := value];
    }

    /** The value stored under `key`, or `None` (the source's null) when there is none. */
    method Get(key: string) returns (r: Option<string>)
      ensures key in cache ==> r == Some(cache[key])
      ensures key !in cache ==> r == None
    {
      if key in cache {
        r := Some(cache[key]);
      } else {
        r := None;
      }
    }
  }

  /**
   * Round trip on a fresh cache: `Set(key, value)` then `Get(key)` returns
   * `value`, and a key that was never set reads as `None`.
   */
  method SetThenGet(key: string, value: string, other: string) returns (got: Option<string>, missing: Option<string>)
    requires other != key
    ensures got == Some(value)
    ensures missing == None
  {
    var c := new MemoryCache();
    c.Set(key, value);
    got := c.Get(key);
    missing := c.Get(other);
  }

  /** A second `Set` of the same key overwrites the first; other keys keep their values. */
  method SetOverwrites(key: string, first: string, second: string, other: string, kept: string)
    returns (got: Option<string>, otherGot: Option<string>)
    requires other != key
    ensures got == Some(second)
    ensures otherGot == Some(kept)
  {
    var c := new MemoryCache();
    c.Set(other, kept);
    c.Set(key, first);
    c.Set(key, second);
    got := c.Get(key);
    otherGot := c.Get(other);
  }
}
