/**
 * The accumulator loops of AlgorithmArry.cs: first non-repeating element,
 * pair with a given sum (two sum), moving zeros to the end, Kadane's maximum
 * subarray sum, the first peak, Boyer-Moore majority voting and the best
 * single stock trade.
 */
module ArrayScans {
  import opened Wrappers
  import opened ArrayBasics
  import opened Sequences

  /** The count is the multiplicity of `x` in the elements of `s`. */
  lemma {:induction false} CountIsMultiplicity(s: seq<int>, x: int)
    ensures Count(s, x) == multiset(s)[x]
  {
    if s != [] {
      CountIsMultiplicity(s[..|s| - 1], x);
      assert s == s[..|s| - 1] + [s[|s| - 1]];
    }
  }

  lemma CountSnoc(s: seq<int>, i: int, x: int)
    requires 0 <= i < |s|
    ensures Count(s[..i + 1], x) == Count(s[..i], x) + (if s[i] == x then 1 else 0)
  {
    assert s[..i + 1][..i] == s[..i];
  }

  /** No element before position `i` occurs exactly once in `a`. */
  predicate FirstOnce(a: seq<int>, i: int)
  {
    forall k :: 0 <= k < i && k < |a| ==> Count(a, a[k]) != 1
  }

  /**
   * `FirstNonRepeatingElement`: a frequency dictionary over the whole array,
   * then the first element whose frequency is 1; nothing when there is none.
   */
  method FirstNonRepeating(a: seq<int>) returns (r: Option<int>)
    ensures r.None? <==> forall i :: 0 <= i < |a| ==> Count(a, a[i]) != 1
    ensures r.Some? ==> exists i :: 0 <= i < |a| && a[i] == r.value && Count(a, a[i]) == 1 && FirstOnce(a, i)
  {
    var freq: map<int, nat> := map[];
    for i := 0 to |a|
      invariant forall x :: x in freq <==> x in a[..i]
      invariant forall x :: x in freq ==> freq[x] == Count(a[..i], x)
    {
      var n := a[i];
      CountSnoc(a, i, n);
      CountIsMultiplicity(a[..i], n);
      assert forall x :: x != n ==> Count(a[..i + 1], x) == Count(a[..i], x) by {
        forall x | x != n { CountSnoc(a, i, x); }
      }
      assert a[..i + 1] == a[..i] + [n];
      freq := freq[n := if n in freq then freq[n] + 1 else 1];
    }
    assert a[..|a|] == a;
    for i := 0 to |a|
      invariant forall k :: 0 <= k < i ==> Count(a, a[k]) != 1
    {
      var n := a[i];
      assert n in a[..|a|];
      if freq[n] == 1 {
        return Some(n);
      }
    }
    return None;
  }

  /**
   * `TwoSum` (and `PairWithGivenSum`, the same loop on a fixed array): a set
   * of the values seen so far; true as soon as `target - num` is among them.
   */
  method TwoSum(a: seq<int>, target: int) returns (found: bool)
    ensures found <==> exists p, q :: 0 <= p < q < |a| && a[p] + a[q] == target
  {
    var seen: set<int> := {};
    for i := 0 to |a|
      invariant forall x :: x in seen <==> x in a[..i]
      invariant forall p, q :: 0 <= p < q < i ==> a[p] + a[q] != target
    {
      var n := a[i];
      if target - n in seen {
        assert target - n in a[..i];
        var p :| 0 <= p < i && a[..i][p] == target - n;
        assert a[p] + a[i] == target;
        return true;
      }
      assert a[..i + 1] == a[..i] + [n];
      seen := seen + {n};
    }
    return false;
  }

  /** The non-zero elements of `s`, in order. */
  function NonZeros(s: seq<int>): (r: seq<int>)
    ensures |r| <= |s|
  {
    if s == [] then []
    else if s[|s| - 1] != 0 then NonZeros(s[..|s| - 1]) + [s[|s| - 1]]
    else NonZeros(s[..|s| - 1])
  }

  function Zeros(n: nat): (r: seq<int>)
    ensures |r| == n && forall i :: 0 <= i < n ==> r[i] == 0
  {
    seq(n, i => 0)
  }

  /** A run of `n` zeros holds the value 0 exactly `n` times and nothing else. */
  lemma {:induction false} ZerosCount(n: nat)
    ensures multiset(Zeros(n))[0] == n
    ensures forall x :: x != 0 ==> multiset(Zeros(n))[x] == 0
  {
    if n > 0 {
      ZerosCount(n - 1);
      assert Zeros(n) == Zeros(n - 1) + [0];
    }
  }

  /**
   * The non-zero part keeps every non-zero value with its multiplicity and
   * drops exactly the zeros.
   */
  lemma {:induction false} NonZerosCounts(s: seq<int>)
    ensures forall i :: 0 <= i < |NonZeros(s)| ==> NonZeros(s)[i] != 0
    ensures forall x :: x != 0 ==> multiset(NonZeros(s))[x] == multiset(s)[x]
    ensures multiset(NonZeros(s))[0] == 0
    ensures |s| - |NonZeros(s)| == multiset(s)[0]
  {
    if s != [] {
      var init := s[..|s| - 1];
      var last := s[|s| - 1];
      NonZerosCounts(init);
      assert s == init + [last];
      assert multiset(s) == multiset(init) + multiset{last};
    }
  }

  /** Non-zero part then zeros: the same elements as `s`, with multiplicity. */
  lemma NonZerosSameElements(s: seq<int>)
    ensures multiset(NonZeros(s) + Zeros(|s| - |NonZeros(s)|)) == multiset(s)
  {
    NonZerosCounts(s);
    var z := |s| - |NonZeros(s)|;
    ZerosCount(z);
    var m := multiset(NonZeros(s) + Zeros(z));
    assert m == multiset(NonZeros(s)) + multiset(Zeros(z));
    assert forall x :: m[x] == multiset(s)[x];
  }

  /**
   * `MoveZerosToEnd`: the non-zero elements are copied forward in order,
   * then the rest of the array is filled with zeros.
   */
  method MoveZerosToEnd(a: array<int>)
    modifies a
    ensures a[..] == NonZeros(old(a[..])) + Zeros(a.Length - |NonZeros(old(a[..]))|)
  {
    ghost var s := a[..];
    var index := 0;
    for i := 0 to a.Length
      invariant index == |NonZeros(s[..i])| && index <= i
      invariant a[..index] == NonZeros(s[..i])
      invariant forall k :: i <= k < a.Length ==> a[k] == s[k]
    {
      var n := a[i];
      assert s[..i + 1][..i] == s[..i];
      if n != 0 {
        ghost var kept := a[..index];
        a[index] := n;
        assert a[..index + 1] == kept + [n];
        index := index + 1;
      }
    }
    assert s[..a.Length] == s;
    ghost var front := index;
    while index < a.Length
      invariant front <= index <= a.Length
      invariant a[..front] == NonZeros(s)
      invariant forall k :: front <= k < index ==> a[k] == 0
    {
      a[index] := 0;
      index := index + 1;
    }
    assert a[..] == a[..front] + a[front..];
  }

  /**
   * `MaxSubArraySum` (Kadane): on a non-empty array, the greatest sum of a
   * non-empty contiguous subarray `a[lo..hi]`.
   */
  method MaxSubArraySum(a: seq<int>) returns (best: int)
    requires |a| >= 1
    ensures exists lo, hi :: 0 <= lo < hi <= |a| && best == SliceSum(a, lo, hi)
    ensures forall lo, hi :: 0 <= lo < hi <= |a| ==> SliceSum(a, lo, hi) <= best
  {
    best := a[0];
    var current := a[0];
    ghost var curLo, bestLo, bestHi := 0, 0, 1;
    var i := 1;
    while i < |a|
      invariant 1 <= i <= |a|
      invariant 0 <= curLo < i && current == SliceSum(a, curLo, i)
      invariant forall lo :: 0 <= lo < i ==> SliceSum(a, lo, i) <= current
      invariant 0 <= bestLo < bestHi <= i && best == SliceSum(a, bestLo, bestHi)
      invariant forall lo, hi :: 0 <= lo < hi <= i ==> SliceSum(a, lo, hi) <= best
    {
      if a[i] > current + a[i] {
        current, curLo := a[i], i;
      } else {
        current := current + a[i];
      }
      if current > best {
        best, bestLo, bestHi := current, curLo, i + 1;
      }
      i := i + 1;
    }
  }

  /** Position `i` is strictly greater than both neighbours. */
  predicate IsPeak(s: seq<int>, i: int)
  {
    1 <= i < |s| - 1 && s[i] > s[i - 1] && s[i] > s[i + 1]
  }

  /**
   * `FindPeakElement`: the value at the first interior position that is
   * strictly greater than both neighbours, or -1 when there is none.
   */
  method FindPeakElement(a: seq<int>) returns (r: int)
    ensures (exists i :: IsPeak(a, i) && r == a[i] && forall k :: 0 <= k < i ==> !IsPeak(a, k))
      || (r == -1 && forall i :: !IsPeak(a, i))
  {
    var i := 1;
    while i < |a| - 1
      invariant 1 <= i
      invariant forall k :: 0 <= k < i ==> !IsPeak(a, k)
    {
      if a[i] > a[i - 1] && a[i] > a[i + 1] {
        return a[i];
      }
      i := i + 1;
    }
    return -1;
  }

  /**
   * `MajorityElement` (Boyer-Moore voting): a value occurring in more than
   * half the positions is the one returned.
   */
  method MajorityElement(a: seq<int>) returns (candidate: int)
    ensures forall x :: 2 * Count(a, x) > |a| ==> candidate == x
  {
    var count := 0;
    candidate := 0;
    for i := 0 to |a|
      invariant 0 <= count <= i
      invariant 2 * Count(a[..i], candidate) <= i + count
      invariant forall x :: x != candidate ==> 2 * Count(a[..i], x) <= i - count
    {
      var num := a[i];
      ghost var previous, votes := candidate, count;
      if count == 0 {
        candidate := num;
      }
      count := count + if num == candidate then 1 else -1;
      CountSnoc(a, i, candidate);
      ghost var seen := a[..i + 1];
      forall x | x != candidate
        ensures 2 * Count(seen, x) <= i + 1 - count
      {
        CountSnoc(a, i, x);
        if x != previous {
          assert 2 * Count(a[..i], x) <= i - votes;
        } else {
          assert 2 * Count(a[..i], x) <= i + votes;
        }
      }
    }
    assert a[..|a|] == a;
  }

  /**
   * `MaxProfit`: one purchase followed by one later sale (or none). The
   * running minimum starts at `int.MaxValue`, which every price is at most.
   */
  method MaxProfit(prices: seq<int>) returns (profit: int)
    requires forall i :: 0 <= i < |prices| ==> prices[i] <= IntMax
    ensures profit >= 0
    ensures forall buy, sell :: 0 <= buy <= sell < |prices| ==> prices[sell] - prices[buy] <= profit
    ensures profit == 0 || exists buy, sell :: 0 <= buy < sell < |prices| && profit == prices[sell] - prices[buy]
  {
    var minPrice := IntMax;
    profit := 0;
    ghost var minAt, buyAt, sellAt := -1, -1, -1;
    for i := 0 to |prices|
      invariant forall k :: 0 <= k < i ==> minPrice <= prices[k]
      invariant minAt == -1 <==> i == 0
      invariant minAt == -1 ==> minPrice == IntMax
      invariant -1 <= minAt < i && (minAt >= 0 ==> minPrice == prices[minAt])
      invariant profit >= 0
      invariant forall buy, sell :: 0 <= buy <= sell < i ==> prices[sell] - prices[buy] <= profit
      invariant profit == 0 || (0 <= buyAt < sellAt < i && profit == prices[sellAt] - prices[buyAt])
    {
      var price := prices[i];
      if price <= minPrice {
        minPrice, minAt := price, i;
      }
      if price - minPrice > profit {
        profit, buyAt, sellAt := price - minPrice, minAt, i;
      }
    }
  }
}
