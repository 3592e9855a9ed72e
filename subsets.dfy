/**
 * `GenerateSubsets` of NEXT_LEVEL_ALGORITHMS.cs: a backtracking walk that
 * grows one shared list `current` and prints it on entry to every call.
 * Each printed line is a choice of elements of `nums` in their original
 * order; every such choice is printed exactly once when the values of `nums`
 * are distinct, 2^n lines in all.
 */
module Subsets {
  import opened Powers
  import opened Sequences

  /**
   * The lines printed by `Backtrack(k)` when `current` holds `cur`: `cur`
   * itself, then, for each `i` from `k` up, what the call with `nums[i]`
   * appended prints.
   */
  function Emissions(nums: seq<int>, k: nat, cur: seq<int>): seq<seq<int>>
    requires k <= |nums|
    decreases |nums| - k, 1
  {
    [cur] + Fan(nums, k, |nums|, cur)
  }

  /** What the loop of `Backtrack(lo)` prints for `i` in `lo..hi - 1`. */
  function Fan(nums: seq<int>, lo: nat, hi: nat, cur: seq<int>): seq<seq<int>>
    requires lo <= hi <= |nums|
    decreases |nums| - lo, 0, hi
  {
    if hi == lo then []
    else Fan(nums, lo, hi - 1, cur) + Emissions(nums, hi, cur + [nums[hi - 1]])
  }

  /** `ix` lists positions in `lo..hi - 1` in strictly increasing order. */
  predicate Increasing(ix: seq<nat>, lo: nat, hi: nat)
  {
    (forall k :: 0 <= k < |ix| ==> lo <= ix[k] < hi)
    && (forall a, b :: 0 <= a < b < |ix| ==> ix[a] < ix[b])
  }

  /** The elements of `nums` at positions `ix`, in that order. */
  function Pick(nums: seq<int>, ix: seq<nat>): (r: seq<int>)
    requires forall k :: 0 <= k < |ix| ==> ix[k] < |nums|
    ensures |r| == |ix| && forall k :: 0 <= k < |ix| ==> r[k] == nums[ix[k]]
  {
    seq(|ix|, k requires 0 <= k < |ix| => nums[ix[k]])
  }

  /** The backtracking state: the input and the shared list `current`; `printed` stands for the console. */
  class SubsetPrinter {
    const nums: seq<int>
    var current: seq<int>
    var printed: seq<seq<int>>

    constructor (nums: seq<int>)
      ensures this.nums == nums && current == [] && printed == []
    {
      this.nums := nums;
      current := [];
      printed := [];
    }

    /** `Backtrack`: prints what `Emissions` says and leaves `current` as it found it. */
    method Backtrack(index: nat)
      requires index <= |nums|
      modifies this
      ensures current == old(current)
      ensures printed == old(printed) + Emissions(nums, index, old(current))
      decreases |nums| - index
    {
      printed := printed + [current];
      for i := index to |nums|
        invariant current == old(current)
        invariant printed == old(printed) + [old(current)] + Fan(nums, index, i, old(current))
      {
        current := current + [nums[i]];
        Backtrack(i + 1);
        current := current[..|current| - 1];
      }
    }
  }

  /** `GenerateSubsets`: the lines printed, in order. */
  method GenerateSubsets(nums: seq<int>) returns (lines: seq<seq<int>>)
    ensures lines == Emissions(nums, 0, [])
  {
    var printer := new SubsetPrinter(nums);
    printer.Backtrack(0);
    lines := printer.printed;
  }

  /** `Backtrack(k)` prints 2^(n - k) lines. */
  lemma {:induction false} EmissionsCount(nums: seq<int>, k: nat, cur: seq<int>)
    requires k <= |nums|
    ensures |Emissions(nums, k, cur)| == Pow2(|nums| - k)
    decreases |nums| - k, 1
  {
    FanCount(nums, k, |nums|, cur);
  }

  /** The loop of `Backtrack(lo)`, up to `hi`, prints 2^(n - lo) - 2^(n - hi) lines. */
  lemma {:induction false} FanCount(nums: seq<int>, lo: nat, hi: nat, cur: seq<int>)
    requires lo <= hi <= |nums|
    ensures |Fan(nums, lo, hi, cur)| == Pow2(|nums| - lo) - Pow2(|nums| - hi)
    decreases |nums| - lo, 0, hi
  {
    if hi > lo {
      FanCount(nums, lo, hi - 1, cur);
      EmissionsCount(nums, hi, cur + [nums[hi - 1]]);
      assert Pow2(|nums| - (hi - 1)) == 2 * Pow2(|nums| - hi);
    }
  }

  /** Every line `Backtrack(k)` prints is `cur` followed by a choice among positions `k..n - 1`. */
  lemma {:induction false} EmissionsSound(nums: seq<int>, k: nat, cur: seq<int>, e: seq<int>)
    requires k <= |nums| && e in Emissions(nums, k, cur)
    ensures exists ix :: Increasing(ix, k, |nums|) && e == cur + Pick(nums, ix)
    decreases |nums| - k, 1
  {
    if e == cur {
      assert Increasing([], k, |nums|) && e == cur + Pick(nums, []);
    } else {
      var h := FanSound(nums, k, |nums|, cur, e);
      assert e in Fan(nums, k, |nums|, cur);
    }
  }

  /**
   * A line the loop of `Backtrack(lo)` prints, up to `hi`, starts with `cur`
   * and one element `nums[h - 1]` with `lo < h <= hi`, then a choice among
   * the positions after it.
   */
  lemma {:induction false} FanSound(nums: seq<int>, lo: nat, hi: nat, cur: seq<int>, e: seq<int>) returns (h: nat)
    requires lo <= hi <= |nums| && e in Fan(nums, lo, hi, cur)
    ensures lo < h <= hi && |e| > |cur| && e[..|cur|] == cur && e[|cur|] == nums[h - 1]
    ensures exists ix :: Increasing(ix, lo, |nums|) && e == cur + Pick(nums, ix)
    decreases |nums| - lo, 0, hi
  {
    var rest := Fan(nums, lo, hi - 1, cur);
    if e in rest {
      h := FanSound(nums, lo, hi - 1, cur, e);
    } else {
      h := hi;
      var cur' := cur + [nums[hi - 1]];
      EmissionsSound(nums, hi, cur', e);
      var ix :| Increasing(ix, hi, |nums|) && e == cur' + Pick(nums, ix);
      var jx := ExtendChoice(nums, lo, hi, cur, ix, e);
    }
  }

  /** A choice after position `h - 1`, with `nums[h - 1]` put in front, is a choice from `lo` on. */
  lemma ExtendChoice(nums: seq<int>, lo: nat, h: nat, cur: seq<int>, ix: seq<nat>, e: seq<int>) returns (jx: seq<nat>)
    requires lo < h <= |nums| && Increasing(ix, h, |nums|)
    requires e == (cur + [nums[h - 1]]) + Pick(nums, ix)
    ensures Increasing(jx, lo, |nums|) && e == cur + Pick(nums, jx)
    ensures |e| > |cur| && e[..|cur|] == cur && e[|cur|] == nums[h - 1]
  {
    jx := [h - 1] + ix;
    var tail := [nums[h - 1]] + Pick(nums, ix);
    assert Pick(nums, jx) == tail by {
      forall k | 0 <= k < |jx|
        ensures Pick(nums, jx)[k] == tail[k]
      {
        if k > 0 {
          assert jx[k] == ix[k - 1];
        }
      }
    }
    assert e == cur + tail;
    assert e[|cur|] == tail[0];
  }

  /** Every choice among positions `k..n - 1`, appended to `cur`, is printed by `Backtrack(k)`. */
  lemma {:induction false} EmissionsComplete(nums: seq<int>, k: nat, cur: seq<int>, ix: seq<nat>)
    requires k <= |nums| && Increasing(ix, k, |nums|)
    ensures cur + Pick(nums, ix) in Emissions(nums, k, cur)
    decreases |ix|
  {
    if ix == [] {
      assert cur + Pick(nums, ix) == cur;
    } else {
      var h := ix[0] + 1;
      var cur' := cur + [nums[ix[0]]];
      PickFirst(nums, k, cur, ix);
      EmissionsComplete(nums, h, cur', ix[1..]);
      FanContains(nums, k, |nums|, h, cur);
      assert Emissions(nums, k, cur) == [cur] + Fan(nums, k, |nums|, cur);
    }
  }

  /** Choosing the positions `ix` is choosing `ix[0]`, then the rest from after it. */
  lemma PickFirst(nums: seq<int>, k: nat, cur: seq<int>, ix: seq<nat>)
    requires k <= |nums| && Increasing(ix, k, |nums|) && ix != []
    ensures Increasing(ix[1..], ix[0] + 1, |nums|)
    ensures cur + Pick(nums, ix) == cur + [nums[ix[0]]] + Pick(nums, ix[1..])
  {
    assert Increasing(ix[1..], ix[0] + 1, |nums|);
    var p, rest := Pick(nums, ix), Pick(nums, ix[1..]);
    assert p == [nums[ix[0]]] + rest;
  }

  /** The loop of `Backtrack(lo)`, up to `hi`, prints everything the call for position `h - 1` prints. */
  lemma {:induction false} FanContains(nums: seq<int>, lo: nat, hi: nat, h: nat, cur: seq<int>)
    requires lo < h <= hi <= |nums|
    ensures forall e :: e in Emissions(nums, h, cur + [nums[h - 1]]) ==> e in Fan(nums, lo, hi, cur)
    decreases hi
  {
    if h < hi {
      FanContains(nums, lo, hi - 1, h, cur);
    }
  }

  /** A concatenation of two repeat-free sequences with nothing in common is repeat-free. */
  lemma DistinctAppend<T>(a: seq<T>, b: seq<T>)
    requires Distinct(a) && Distinct(b)
    requires forall x :: x in a ==> x !in b
    ensures Distinct(a + b)
  {
    forall i, j | 0 <= i < j < |a + b|
      ensures (a + b)[i] != (a + b)[j]
    {
      if i < |a| && j >= |a| {
        assert (a + b)[i] in a && (a + b)[j] in b;
      }
    }
  }

  /** With distinct values in `nums`, `Backtrack(k)` never prints the same line twice. */
  lemma {:induction false} EmissionsDistinct(nums: seq<int>, k: nat, cur: seq<int>)
    requires k <= |nums| && Distinct(nums)
    ensures Distinct(Emissions(nums, k, cur))
    decreases |nums| - k, 1
  {
    var fan := Fan(nums, k, |nums|, cur);
    FanDistinct(nums, k, |nums|, cur);
    forall e | e in [cur]
      ensures e !in fan
    {
      if e in fan {
        var h := FanSound(nums, k, |nums|, cur, e);
      }
    }
    DistinctAppend([cur], fan);
  }

  /** With distinct values in `nums`, the loop of `Backtrack(lo)`, up to `hi`, never prints the same line twice. */
  lemma {:induction false} FanDistinct(nums: seq<int>, lo: nat, hi: nat, cur: seq<int>)
    requires lo <= hi <= |nums| && Distinct(nums)
    ensures Distinct(Fan(nums, lo, hi, cur))
    decreases |nums| - lo, 0, hi
  {
    if hi > lo {
      var rest := Fan(nums, lo, hi - 1, cur);
      var cur' := cur + [nums[hi - 1]];
      var last := Emissions(nums, hi, cur');
      FanDistinct(nums, lo, hi - 1, cur);
      EmissionsDistinct(nums, hi, cur');
      forall x | x in rest
        ensures x !in last
      {
        var h := FanSound(nums, lo, hi - 1, cur, x);
        assert nums[h - 1] != nums[hi - 1];
        forall y | y in last
          ensures |y| > |cur| && y[|cur|] == nums[hi - 1]
        {
          EmissionsPrefix(nums, hi, cur', y);
        }
      }
      DistinctAppend(rest, last);
    }
  }

  /** Every line `Backtrack(k)` prints starts with `cur`. */
  lemma EmissionsPrefix(nums: seq<int>, k: nat, cur: seq<int>, e: seq<int>)
    requires k <= |nums| && e in Emissions(nums, k, cur)
    ensures |e| >= |cur| && e[..|cur|] == cur
    ensures forall i :: 0 <= i < |cur| ==> e[i] == cur[i]
  {
    if e != cur {
      var h := FanSound(nums, k, |nums|, cur, e);
    }
  }

  /**
   * The whole run: 2^n lines, each a choice of elements of `nums` in their
   * order, every choice among them, and with distinct values no line twice.
   */
  lemma GenerateSubsetsCorrect(nums: seq<int>)
    ensures |Emissions(nums, 0, [])| == Pow2(|nums|)
    ensures forall e :: e in Emissions(nums, 0, []) ==> exists ix :: Increasing(ix, 0, |nums|) && e == Pick(nums, ix)
    ensures forall ix :: Increasing(ix, 0, |nums|) ==> Pick(nums, ix) in Emissions(nums, 0, [])
    ensures Distinct(nums) ==> Distinct(Emissions(nums, 0, []))
  {
    EmissionsCount(nums, 0, []);
    forall e | e in Emissions(nums, 0, [])
      ensures exists ix :: Increasing(ix, 0, |nums|) && e == Pick(nums, ix)
    {
      EmissionsSound(nums, 0, [], e);
      var ix :| Increasing(ix, 0, |nums|) && e == [] + Pick(nums, ix);
      assert e == Pick(nums, ix);
    }
    forall ix | Increasing(ix, 0, |nums|)
      ensures Pick(nums, ix) in Emissions(nums, 0, [])
    {
      EmissionsComplete(nums, 0, [], ix);
      assert [] + Pick(nums, ix) == Pick(nums, ix);
    }
    if Distinct(nums) {
      EmissionsDistinct(nums, 0, []);
    }
  }

  /** The lines printed for [1, 2, 3] once the first element is chosen. */
  lemma DemoFirst()
    ensures Emissions([1, 2, 3], 1, [1]) == [[1], [1, 2], [1, 2, 3], [1, 3]]
  {
    var nums := [1, 2, 3];
    assert [1, 2] + [nums[2]] == [1, 2, 3] && [1] + [nums[2]] == [1, 3] && [1] + [nums[1]] == [1, 2];
    assert Emissions(nums, 3, [1, 2, 3]) == [[1, 2, 3]];
    assert Emissions(nums, 3, [1, 3]) == [[1, 3]];
    assert Fan(nums, 2, 3, [1, 2]) == [[1, 2, 3]];
    assert Emissions(nums, 2, [1, 2]) == [[1, 2], [1, 2, 3]];
    assert Fan(nums, 1, 2, [1]) == [[1, 2], [1, 2, 3]];
    assert Fan(nums, 1, 3, [1]) == [[1, 2], [1, 2, 3], [1, 3]];
  }

  /** The lines printed for [1, 2, 3] once the first element is skipped. */
  lemma DemoRest()
    ensures Emissions([1, 2, 3], 2, [2]) == [[2], [2, 3]]
    ensures Emissions([1, 2, 3], 3, [3]) == [[3]]
  {
    var nums := [1, 2, 3];
    assert [2] + [nums[2]] == [2, 3];
    assert Emissions(nums, 3, [2, 3]) == [[2, 3]];
    assert Fan(nums, 2, 3, [2]) == [[2, 3]];
  }

  /** All lines printed for [1, 2, 3]. */
  lemma DemoAll()
    ensures Emissions([1, 2, 3], 0, []) == [[], [1], [1, 2], [1, 2, 3], [1, 3], [2], [2, 3], [3]]
  {
    var nums := [1, 2, 3];
    DemoFirst();
    DemoRest();
    assert [] + [nums[0]] == [1] && [] + [nums[1]] == [2] && [] + [nums[2]] == [3];
    assert Fan(nums, 0, 1, []) == [[1], [1, 2], [1, 2, 3], [1, 3]];
    assert Fan(nums, 0, 2, []) == [[1], [1, 2], [1, 2, 3], [1, 3], [2], [2, 3]];
    assert Fan(nums, 0, 3, []) == [[1], [1, 2], [1, 2, 3], [1, 3], [2], [2, 3], [3]];
  }

  /** The call in `Main`: the eight subsets of [1, 2, 3], in the order printed. */
  method Scenario() returns (lines: seq<seq<int>>)
    ensures lines == [[], [1], [1, 2], [1, 2, 3], [1, 3], [2], [2, 3], [3]]
  {
    lines := GenerateSubsets([1, 2, 3]);
    DemoAll();
  }
}
