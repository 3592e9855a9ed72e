/**
 * The per-client counter of `RateLimitingMiddleware` in apiTheory.cs: a
 * dictionary from client key (the remote IP address) to a `(timestamp,
 * count)` window. Each request updates its key's window first and then
 * rejects the request with status 429 when the updated count exceeds the
 * maximum. The window is fixed: it is anchored at the request that opened
 * it and restarts only when a request arrives more than `TimeWindow` later.
 *
 * `DateTime.UtcNow` is the parameter `now`, in milliseconds.
 */
module FixedWindow {
  import opened Wrappers

  /** The `(timestamp, count)` tuple stored per key. */
  datatype Window = Window(timestamp: int, count: int)

  /** What the middleware does with a request: answer with an error status, or pass it to the next stage. */
  datatype Outcome = Rejected(status: int) | PassedOn

  /** `_maxRequests`: at most five requests per window. */
  const MaxRequests: int := 5

  /** `_timeWindow`: ten seconds. */
  const TimeWindow: int := 10_000

  /** The status code 429 (Too Many Requests) written for a rejected request. */
  const TooManyRequestsStatus: int := 429

  /**
   * `AddOrUpdate`: a key seen for the first time gets `(now, 1)`; otherwise
   * the update lambda restarts an expired window or counts one more request.
   */
  function Update(previous: Option<Window>, now: int): Window
  {
    match previous
    case None => Window(now, 1)
    case Some(w) =>
      if now - w.timestamp > TimeWindow then Window(now, 1)
      else Window(w.timestamp, w.count + 1)
  }

  function Stored(requests: map<string, Window>, key: string): Option<Window>
  {
    if key in requests then Some(requests[key]) else None
  }

  /** The dictionary after one request from `key` at time `now`. */
  function Record(requests: map<string, Window>, key: string, now: int): map<string, Window>
  {
    requests[key := Update(Stored(requests, key), now)]
  }

  /** The decision taken on the updated count. */
  function Decide(w: Window): Outcome
  {
    if w.count > MaxRequests then Rejected(TooManyRequestsStatus) else PassedOn
  }

  /**
   * One request: the key's window is updated and nothing else in the
   * dictionary changes; a first request opens the window `(now, 1)` and is
   * passed on; an expired window (more than `TimeWindow` old, strictly)
   * restarts at `(now, 1)`; otherwise the anchor stays and the count grows
   * by one.
   */
  lemma RecordSemantics(requests: map<string, Window>, key: string, now: int)
    ensures key in Record(requests, key, now)
    ensures forall k :: k != key ==> Stored(Record(requests, key, now), k) == Stored(requests, k)
    ensures key !in requests ==>
      Record(requests, key, now)[key] == Window(now, 1) &&
      Decide(Record(requests, key, now)[key]) == PassedOn
    ensures key in requests && now - requests[key].timestamp > TimeWindow ==>
      Record(requests, key, now)[key] == Window(now, 1)
    ensures key in requests && now - requests[key].timestamp <= TimeWindow ==>
      Record(requests, key, now)[key] ==
        Window(requests[key].timestamp, requests[key].count + 1)
  {
  }

  /** The windows a key holds after each request of a burst at times `times`. */
  function Trace(previous: Option<Window>, times: seq<int>): (r: seq<Window>)
    ensures |r| == |times|
    decreases |times|
  {
    if times == [] then []
    else
      var w := Update(previous, times[0]);
      [w] + Trace(Some(w), times[1..])
  }

  /**
   * Inside one window anchored at `anchor`, every request counts, rejected
   * ones included: the i-th request of the burst sees count `count + i + 1`
   * and the anchor never moves.
   */
  lemma {:induction false} TraceInsideWindow(anchor: int, count: int, times: seq<int>)
    requires forall i :: 0 <= i < |times| ==> times[i] - anchor <= TimeWindow
    ensures forall i :: 0 <= i < |times| ==> Trace(Some(Window(anchor, count)), times)[i] == Window(anchor, count + i + 1)
    decreases |times|
  {
    if times != [] {
      var rest := times[1..];
      assert forall i :: 0 <= i < |rest| ==> rest[i] == times[i + 1];
      TraceInsideWindow(anchor, count + 1, rest);
    }
  }

  /**
   * A new key sending a burst whose requests all fall within `TimeWindow`
   * of the first: the first five are passed on, and the sixth and every
   * later one is answered 429, while the count keeps growing.
   */
  lemma BurstFromNewKey(times: seq<int>)
    requires times != []
    requires forall i :: 0 <= i < |times| ==> times[i] - times[0] <= TimeWindow
    ensures forall i :: 0 <= i < |times| ==> Trace(None, times)[i] == Window(times[0], i + 1)
    ensures forall i :: 0 <= i < |times| ==> (Decide(Trace(None, times)[i]) == Rejected(TooManyRequestsStatus) <==> i >= MaxRequests)
  {
    var rest := times[1..];
    assert forall i :: 0 <= i < |rest| ==> rest[i] == times[i + 1];
    TraceInsideWindow(times[0], 1, rest);
    assert Trace(None, times) == [Window(times[0], 1)] + Trace(Some(Window(times[0], 1)), rest);
  }

  /**
   * The window is fixed, not sliding: six requests at the very end of one
   * window fill it, and a request one millisecond later is passed on,
   * though a sliding window would still count the last five.
   */
  lemma AnchoredNotSliding(t: int)
    ensures var times := [t, t + TimeWindow, t + TimeWindow, t + TimeWindow, t + TimeWindow, t + TimeWindow, t + TimeWindow + 1];
      Decide(Trace(None, times)[5]) == Rejected(TooManyRequestsStatus) &&
      Trace(None, times)[6] == Window(t + TimeWindow + 1, 1) &&
      Decide(Trace(None, times)[6]) == PassedOn
  {
    var times := [t, t + TimeWindow, t + TimeWindow, t + TimeWindow, t + TimeWindow, t + TimeWindow, t + TimeWindow + 1];
    BurstFromNewKey(times[..6]);
    assert Trace(None, times)[..6] == Trace(None, times[..6]) by {
      TracePrefix(None, times, 6);
    }
    assert Trace(None, times)[6] == Update(Some(Trace(None, times)[5]), times[6]) by {
      TraceStep(None, times, 6);
    }
  }

  lemma {:induction false} TracePrefix(previous: Option<Window>, times: seq<int>, n: nat)
    requires n <= |times|
    ensures Trace(previous, times)[..n] == Trace(previous, times[..n])
    decreases n
  {
    if n > 0 {
      var w := Update(previous, times[0]);
      assert times[..n][1..] == times[1..][..n - 1];
      TracePrefix(Some(w), times[1..], n - 1);
    }
  }

  lemma {:induction false} TraceStep(previous: Option<Window>, times: seq<int>, n: nat)
    requires 0 < n < |times|
    ensures Trace(previous, times)[n] == Update(Some(Trace(previous, times)[n - 1]), times[n])
    decreases n
  {
    var w := Update(previous, times[0]);
    if n > 1 {
      TraceStep(Some(w), times[1..], n - 1);
    }
  }

  /**
   * The middleware. In the source `_requests` is a static field shared by
   * every middleware instance; here it is a field of one object, so the
   * model covers the single middleware instance the pipeline creates and
   * not two instances sharing one dictionary.
   */
  class RateLimitingMiddleware {
    var requests: map<string, Window>

    constructor ()
      ensures requests == map[]
    {
      requests := map[];
    }

    /**
     * Handles one request from `key` at `now`: records it, then answers 429
     * if the key's updated count exceeds `MaxRequests`, else passes it on.
     */
    method InvokeAsync(key: string, now: int) returns (outcome: Outcome)
      modifies this
      ensures requests == Record(old(requests), key, now)
      ensures outcome == Decide(requests[key])
    {
      var updated := if key in requests then Update(Some(requests[key]), now) else Window(now, 1);
      requests := requests[key := updated];
      if requests[key].count > MaxRequests {
        return Rejected(TooManyRequestsStatus);
      }
      return PassedOn;
    }
  }
}
