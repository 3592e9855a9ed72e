/**
 * `ActivitySelection` of NEXT_LEVEL_ALGORITHMS.cs: activity `i` runs from
 * `start[i]` to `end[i]`. The first activity is always taken; after that an
 * activity is taken when it starts no earlier than the last taken one ends.
 * When the activities are listed by ascending end time, this greedy choice
 * takes as many activities as any compatible selection can.
 */
module ActivitySelection {

  /** The greedy loop's range of activities: at least the first one, which is always taken. */
  function Considered(start: seq<int>): nat
  {
    if |start| == 0 then 1 else |start|
  }

  /**
   * The indices the greedy loop has taken after looking at activities
   * `0..i - 1`, in the order taken.
   */
  function Picks(start: seq<int>, end: seq<int>, i: nat): (r: seq<nat>)
    requires |start| <= |end| && 1 <= i <= |end| && (i == 1 || i <= |start|)
    ensures 1 <= |r| && r[|r| - 1] < i
    decreases i
  {
    if i == 1 then [0]
    else
      var prev := Picks(start, end, i - 1);
      if start[i - 1] >= end[prev[|prev| - 1]] then prev + [i - 1] else prev
  }

  /** Activity `a` ends no later than activity `b`. */
  predicate EndsNoLater(end: seq<int>, a: nat, b: nat)
    requires a < |end| && b < |end|
  {
    end[a] <= end[b]
  }

  /** The end times of the first `n` activities never decrease. */
  predicate EndsAscending(end: seq<int>, n: nat)
    requires n <= |end|
  {
    forall a, b :: 0 <= a < b < n ==> EndsNoLater(end, a, b)
  }

  /**
   * `ix` selects activities among the first `n`, in increasing order, each
   * starting no earlier than the previous one ends.
   */
  predicate Compatible(start: seq<int>, end: seq<int>, ix: seq<nat>, n: nat)
  {
    n <= |start| <= |end|
    && (forall k :: 0 <= k < |ix| ==> ix[k] < n)
    && (forall a, b :: 0 <= a < b < |ix| ==> ix[a] < ix[b])
    && (forall k :: 0 <= k < |ix| - 1 ==> start[ix[k + 1]] >= end[ix[k]])
  }

  /**
   * `ActivitySelection`: reads `end[0]`, so there must be at least one end
   * time. The model also asks for an end time for every start time, while the
   * loop reads `end[i]` only for an activity it picks.
   */
  method ActivitySelection(start: seq<int>, end: seq<int>) returns (count: int)
    requires |end| >= 1 && |start| <= |end|
    ensures count == |Picks(start, end, Considered(start))|
  {
    count := 1;
    var lastEnd := end[0];
    var i := 1;
    while i < |start|
      invariant 1 <= i && (i == 1 || i <= |start|)
      invariant count == |Picks(start, end, i)|
      invariant lastEnd == end[Picks(start, end, i)[count - 1]]
    {
      if start[i] >= lastEnd {
        count := count + 1;
        lastEnd := end[i];
      }
      i := i + 1;
    }
  }

  /** The greedy picks are themselves a compatible selection. */
  lemma {:induction false} PicksCompatible(start: seq<int>, end: seq<int>, i: nat)
    requires |start| <= |end| && 1 <= i <= |start|
    ensures Compatible(start, end, Picks(start, end, i), i)
    decreases i
  {
    if i > 1 {
      PicksCompatible(start, end, i - 1);
    }
  }

  /** Strictly increasing indices below `n` are at most `n` many. */
  lemma {:induction false} IncreasingBound(ix: seq<nat>, n: nat)
    requires forall k :: 0 <= k < |ix| ==> ix[k] < n
    requires forall a, b :: 0 <= a < b < |ix| ==> ix[a] < ix[b]
    ensures |ix| <= n
  {
    if ix != [] {
      var front := ix[..|ix| - 1];
      assert ix[|ix| - 1] < n;
      assert forall k :: 0 <= k < |front| ==> front[k] < ix[|ix| - 1];
      IncreasingBound(front, n - 1);
    }
  }

  /**
   * The exchange argument: after looking at activities `0..i - 1`, the
   * greedy picks are more than any compatible selection among them, or as
   * many and ending no later.
   */
  lemma {:induction false} PicksDominate(start: seq<int>, end: seq<int>, i: nat, ix: seq<nat>)
    requires |start| <= |end| && 1 <= i <= |start| && EndsAscending(end, |start|)
    requires Compatible(start, end, ix, i) && |ix| >= 1
    ensures var p := Picks(start, end, i);
      |p| > |ix| || (|p| == |ix| && end[p[|p| - 1]] <= end[ix[|ix| - 1]])
    decreases i
  {
    var last := ix[|ix| - 1];
    if i == 1 {
      IncreasingBound(ix, 1);
    } else {
      var prev, p := Picks(start, end, i - 1), Picks(start, end, i);
      PickStep(start, end, i);
      assert |p| >= |prev|;
      if last < i - 1 {
        LastBelow(start, end, i, ix);
        PicksDominate(start, end, i - 1, ix);
        assert |prev| > |ix| || (|prev| == |ix| && end[prev[|prev| - 1]] <= end[last]);
      } else if |ix| >= 2 {
        var front := ix[..|ix| - 1];
        FrontCompatible(start, end, i, ix);
        PicksDominate(start, end, i - 1, front);
        assert front[|front| - 1] == ix[|ix| - 2];
        if |prev| == |front| {
          assert p == prev + [i - 1];
        }
      }
    }
  }

  /**
   * One step of the greedy loop: activity `i - 1` is appended exactly when
   * it starts no earlier than the last pick ends, and the last pick then
   * ends no later than activity `i - 1`.
   */
  lemma PickStep(start: seq<int>, end: seq<int>, i: nat)
    requires |start| <= |end| && 2 <= i <= |start| && EndsAscending(end, |start|)
    ensures var prev, p := Picks(start, end, i - 1), Picks(start, end, i);
      (if start[i - 1] >= end[prev[|prev| - 1]] then p == prev + [i - 1] else p == prev)
      && end[p[|p| - 1]] <= end[i - 1]
  {
    var p := Picks(start, end, i);
    if p[|p| - 1] < i - 1 {
      assert EndsNoLater(end, p[|p| - 1], i - 1);
    }
  }

  /** A selection among the first `i` whose last index is below `i - 1` is one among the first `i - 1`. */
  lemma LastBelow(start: seq<int>, end: seq<int>, i: nat, ix: seq<nat>)
    requires Compatible(start, end, ix, i) && |ix| >= 1 && 1 <= i && ix[|ix| - 1] < i - 1
    ensures Compatible(start, end, ix, i - 1)
  {
    forall k | 0 <= k < |ix|
      ensures ix[k] < i - 1
    {
      assert k < |ix| - 1 ==> ix[k] < ix[|ix| - 1];
    }
  }

  /** Dropping the last of a selection among the first `i` leaves one among the first `i - 1`. */
  lemma FrontCompatible(start: seq<int>, end: seq<int>, i: nat, ix: seq<nat>)
    requires Compatible(start, end, ix, i) && |ix| >= 2 && 1 <= i
    ensures Compatible(start, end, ix[..|ix| - 1], i - 1)
    ensures start[ix[|ix| - 1]] >= end[ix[|ix| - 2]]
  {
    forall k | 0 <= k < |ix| - 1
      ensures ix[k] < i - 1
    {
      assert ix[k] < ix[|ix| - 1] < i;
    }
  }

  /**
   * With the activities listed by ascending end time, the greedy count is
   * the largest size of a compatible selection, and the greedy picks reach it.
   */
  lemma PicksOptimal(start: seq<int>, end: seq<int>, ix: seq<nat>)
    requires 1 <= |start| <= |end| && EndsAscending(end, |start|)
    requires Compatible(start, end, ix, |start|)
    ensures |ix| <= |Picks(start, end, |start|)|
    ensures Compatible(start, end, Picks(start, end, |start|), |start|)
  {
    if |ix| >= 1 {
      PicksDominate(start, end, |start|, ix);
    }
    PicksCompatible(start, end, |start|);
  }

  /** The call in `Main`: six activities, of which four are taken. */
  method Scenario() returns (count: int)
    ensures count == 4
  {
    var start, end := [1, 3, 0, 5, 8, 5], [2, 4, 6, 7, 9, 9];
    count := ActivitySelection(start, end);
    assert Picks(start, end, 2) == [0, 1];
    assert Picks(start, end, 3) == [0, 1];
    assert Picks(start, end, 4) == [0, 1, 3];
    assert Picks(start, end, 5) == [0, 1, 3, 4];
    assert Picks(start, end, 6) == [0, 1, 3, 4];
  }
}
