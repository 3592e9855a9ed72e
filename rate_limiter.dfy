/**
 * The sliding-window rate limiter of systemDesign.cs: a queue of the
 * timestamps of admitted requests. `AllowRequest` first drops, from the
 * front, every timestamp more than `window` older than now, then admits
 * (and enqueues now) only if fewer than `limit` remain.
 *
 * The clock `DateTime.Now` is the parameter `now`; times and the window are
 * integers in one unit (milliseconds in the scenario below).
 */
module SlidingLimiter {

  /** The timestamps are in arrival order, which a clock that never goes back guarantees. */
  predicate Chronological(q: seq<int>)
  {
    forall i, j :: 0 <= i < j < |q| ==> q[i] <= q[j]
  }

  /** Every timestamp lies in `[now - window, now]`. */
  predicate InWindow(q: seq<int>, now: int, window: int)
  {
    forall i :: 0 <= i < |q| ==> now - window <= q[i] <= now
  }

  function Max(a: int, b: int): int
  {
    if a >= b then a else b
  }

  /**
   * How many timestamps the purge loop dequeues: the stale ones at the front
   * of the queue, up to the first one that is at most `window` old.
   */
  function StaleCount(q: seq<int>, now: int, window: int): (n: nat)
    ensures n <= |q|
    ensures forall i :: 0 <= i < n ==> now - q[i] > window
    ensures n == |q| || now - q[n] <= window
  {
    if q != [] && now - q[0] > window then
      var n := 1 + StaleCount(q[1..], now, window);
      assert forall i :: 1 <= i < n ==> q[i] == q[1..][i - 1];
      n
    else 0
  }

  /** The queue once the purge loop has finished. */
  function Purge(q: seq<int>, now: int, window: int): seq<int>
  {
    q[StaleCount(q, now, window)..]
  }

  /** Whether `AllowRequest` admits at time `now`, given the queue before the call. */
  function Admits(q: seq<int>, now: int, window: int, limit: int): bool
  {
    |Purge(q, now, window)| < limit
  }

  /** The queue after `AllowRequest` at time `now`. */
  function AfterRequest(q: seq<int>, now: int, window: int, limit: int): seq<int>
  {
    var kept := Purge(q, now, window);
    if |kept| < limit then kept + [now] else kept
  }

  /**
   * The queue never holds more than `limit` timestamps (none at all when
   * `limit` is not positive), and a rejected request leaves no trace.
   */
  lemma QueueBounded(q: seq<int>, now: int, window: int, limit: int)
    requires |q| <= Max(limit, 0)
    ensures |AfterRequest(q, now, window, limit)| <= Max(limit, 0)
    ensures !Admits(q, now, window, limit) ==> AfterRequest(q, now, window, limit) == Purge(q, now, window)
    ensures Admits(q, now, window, limit) ==> |AfterRequest(q, now, window, limit)| == |Purge(q, now, window)| + 1
  {
  }

  /**
   * On a chronological queue, the purge keeps exactly the timestamps at most
   * `window` old: one exactly `window` old stays, and so does everything after it.
   */
  lemma {:induction false} PurgeKeepsFresh(q: seq<int>, now: int, window: int)
    requires Chronological(q)
    ensures forall i :: 0 <= i < |Purge(q, now, window)| ==> now - Purge(q, now, window)[i] <= window
    ensures forall t :: t in q && now - t <= window ==> t in Purge(q, now, window)
  {
    var r := Purge(q, now, window);
    var d := StaleCount(q, now, window);
    forall i | 0 <= i < |r| ensures now - r[i] <= window {
      assert r[i] == q[d + i] && r[0] == q[d];
    }
    forall t | t in q && now - t <= window ensures t in r {
      var i :| 0 <= i < |q| && q[i] == t;
      assert i >= d;
      assert r[i - d] == t;
    }
  }

  /** The purge keeps a suffix of the queue: chronological, and no later than `now` if the queue was. */
  lemma PurgeSuffix(q: seq<int>, now: int, window: int)
    requires Chronological(q) && forall i :: 0 <= i < |q| ==> q[i] <= now
    ensures Chronological(Purge(q, now, window))
    ensures forall i :: 0 <= i < |Purge(q, now, window)| ==> Purge(q, now, window)[i] <= now
  {
    var r := Purge(q, now, window);
    var d := StaleCount(q, now, window);
    assert forall i :: 0 <= i < |r| ==> r[i] == q[d + i];
  }

  /** Appending a time no earlier than every timestamp keeps the queue chronological. */
  lemma AppendLatest(r: seq<int>, now: int)
    requires Chronological(r) && forall i :: 0 <= i < |r| ==> r[i] <= now
    ensures Chronological(r + [now])
  {
  }

  /**
   * With a clock that never goes back, the queue stays chronological and
   * after each call holds only timestamps of the last `window`.
   */
  lemma AfterRequestInWindow(q: seq<int>, now: int, window: int, limit: int)
    requires Chronological(q) && forall i :: 0 <= i < |q| ==> q[i] <= now
    ensures Chronological(AfterRequest(q, now, window, limit))
    ensures InWindow(AfterRequest(q, now, window, limit), now, window) || window < 0
  {
    PurgeKeepsFresh(q, now, window);
    PurgeSuffix(q, now, window);
    var r := Purge(q, now, window);
    assert InWindow(r, now, window);
    if |r| < limit {
      AppendLatest(r, now);
    }
  }

  /**
   * Recovery: once the newest admitted timestamp is more than `window` old,
   * the queue empties and any positive limit admits the next request.
   */
  lemma Recovery(q: seq<int>, now: int, window: int, limit: int)
    requires Chronological(q) && q != [] && now - q[|q| - 1] > window && limit >= 1
    ensures Purge(q, now, window) == []
    ensures Admits(q, now, window, limit) && AfterRequest(q, now, window, limit) == [now]
  {
    var d := StaleCount(q, now, window);
    assert d == |q| by {
      if d < |q| {
        assert false;
      }
    }
  }

  /** The limiter object: fixed `limit` and `window`, and the queue of admitted timestamps. */
  class RateLimiter {
    const limit: int
    const window: int
    var requests: seq<int>

    ghost predicate Valid()
      reads this
    {
      |requests| <= Max(limit, 0)
    }

    constructor (limit: int, window: int)
      ensures Valid() && this.limit == limit && this.window == window && requests == []
    {
      this.limit := limit;
      this.window := window;
      requests := [];
    }

    /** Purge stale timestamps, then admit and enqueue `now` if fewer than `limit` remain. */
    method AllowRequest(now: int) returns (allowed: bool)
      requires Valid()
      modifies this
      ensures Valid()
      ensures allowed == Admits(old(requests), now, window, limit)
      ensures requests == AfterRequest(old(requests), now, window, limit)
    {
      QueueBounded(requests, now, window, limit);
      ghost var dropped := 0;
      while |requests| > 0 && now - requests[0] > window
        invariant dropped <= StaleCount(old(requests), now, window)
        invariant requests == old(requests)[dropped..]
        decreases |requests|
      {
        requests := requests[1..];
        dropped := dropped + 1;
      }
      if |requests| < limit {
        requests := requests + [now];
        return true;
      }
      return false;
    }
  }

  /**
   * The scenario driven by systemDesign.cs's Main: limit 3, a 5-second
   * window, and five calls in quick succession (within one window).
   */
  method Scenario(t1: int, t2: int, t3: int, t4: int, t5: int) returns (results: seq<bool>)
    requires t1 <= t2 <= t3 <= t4 <= t5 && t5 - t1 <= 5000
    ensures results == [true, true, true, false, false]
  {
    var limiter := new RateLimiter(3, 5000);
    var a := limiter.AllowRequest(t1);
    assert limiter.requests == [t1];
    var b := limiter.AllowRequest(t2);
    assert limiter.requests == [t1, t2];
    var c := limiter.AllowRequest(t3);
    assert limiter.requests == [t1, t2, t3];
    var d := limiter.AllowRequest(t4);
    assert limiter.requests == [t1, t2, t3];
    var e := limiter.AllowRequest(t5);
    results := [a, b, c, d, e];
  }
}
