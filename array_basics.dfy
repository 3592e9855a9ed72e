/**
 * The single-pass array routines of AlgorithmArry.cs: reversing in place
 * with two pointers, the maximum and minimum, linear search, the sortedness
 * check, the sum, and the second-largest element. Each demo routine works on
 * a fixed array; here the array is a parameter and the printed line is the
 * returned value. Arrays the routine only reads are sequences.
 */
module ArrayBasics {

  const IntMin: int := -0x8000_0000
  const IntMax: int := 0x7fff_ffff

  /** Ascending order between every pair of positions. */
  predicate Sorted(s: seq<int>)
  {
    forall i, j :: 0 <= i < j < |s| ==> s[i] <= s[j]
  }

  /** The sequence read back to front. */
  function Reversed<T>(s: seq<T>): (r: seq<T>)
    ensures |r| == |s|
  {
    seq(|s|, i requires 0 <= i < |s| => s[|s| - 1 - i])
  }

  /** The sum of `s[lo..hi]`, adding from the left. */
  function SliceSum(s: seq<int>, lo: int, hi: int): int
    requires 0 <= lo <= hi <= |s|
    decreases hi - lo
  {
    if lo == hi then 0 else SliceSum(s, lo, hi - 1) + s[hi - 1]
  }

  function Sum(s: seq<int>): int
  {
    SliceSum(s, 0, |s|)
  }

  /** Reversing twice gives the sequence back. */
  lemma ReversedTwice<T>(s: seq<T>)
    ensures Reversed(Reversed(s)) == s
  {
    assert forall i :: 0 <= i < |s| ==> Reversed(Reversed(s))[i] == s[i];
  }

  /** Reversing keeps every element with its multiplicity. */
  lemma {:induction false} ReversedSameElements<T>(s: seq<T>)
    ensures multiset(Reversed(s)) == multiset(s)
  {
    if s != [] {
      var rest := s[1..];
      ReversedSameElements(rest);
      assert Reversed(s) == Reversed(rest) + [s[0]];
      assert s == [s[0]] + rest;
    }
  }

  /** Sums split at any point: the sum of a concatenation is the sum of the parts. */
  lemma {:induction false} SliceSumSplit(s: seq<int>, lo: int, mid: int, hi: int)
    requires 0 <= lo <= mid <= hi <= |s|
    ensures SliceSum(s, lo, hi) == SliceSum(s, lo, mid) + SliceSum(s, mid, hi)
    decreases hi - mid
  {
    if mid < hi {
      SliceSumSplit(s, lo, mid, hi - 1);
    }
  }

  /** `ReverseArray`: swap the ends and move both pointers inwards until they meet. */
  method ReverseArray(a: array<int>)
    modifies a
    ensures a[..] == Reversed(old(a[..]))
  {
    var left, right := 0, a.Length - 1;
    while left < right
      invariant 0 <= left <= a.Length && right == a.Length - 1 - left
      invariant left <= right + 2
      invariant forall k :: 0 <= k < left ==> a[k] == old(a[a.Length - 1 - k]) && a[a.Length - 1 - k] == old(a[k])
      invariant forall k :: left <= k <= right ==> a[k] == old(a[k])
    {
      a[left], a[right] := a[right], a[left];
      left := left + 1;
      right := right - 1;
    }
  }

  /** `FindMaxMin`: both extremes in one pass; the first element seeds them. */
  method FindMaxMin(a: seq<int>) returns (max: int, min: int)
    requires |a| >= 1
    ensures max in a && min in a
    ensures forall i :: 0 <= i < |a| ==> min <= a[i] <= max
  {
    max, min := a[0], a[0];
    for i := 0 to |a|
      invariant max in a && min in a
      invariant forall k :: 0 <= k < i ==> min <= a[k] <= max
    {
      var n := a[i];
      if n > max { max := n; }
      if n < min { min := n; }
    }
  }

  /** `LinearSearch`: the first index holding `target`, or -1 when there is none. */
  method LinearSearch(a: seq<int>, target: int) returns (index: int)
    ensures -1 <= index < |a|
    ensures index == -1 <==> target !in a
    ensures 0 <= index ==> a[index] == target && target !in a[..index]
  {
    for i := 0 to |a|
      invariant target !in a[..i]
    {
      if a[i] == target {
        return i;
      }
    }
    return -1;
  }

  /** `CheckIfArraySorted`: compares neighbours only, which decides full ascending order. */
  method CheckIfArraySorted(a: seq<int>) returns (sorted: bool)
    ensures sorted == Sorted(a)
  {
    var i := 1;
    while i < |a|
      invariant 1 <= i <= |a| || a == []
      invariant forall j, k :: 0 <= j < k < i && k < |a| ==> a[j] <= a[k]
    {
      if a[i] < a[i - 1] {
        return false;
      }
      i := i + 1;
    }
    return true;
  }

  /** `SumOfArray`: the running total over the whole array. */
  method SumOfArray(a: seq<int>) returns (sum: int)
    ensures sum == Sum(a)
  {
    sum := 0;
    for i := 0 to |a|
      invariant sum == SliceSum(a, 0, i)
    {
      sum := sum + a[i];
    }
  }

  /**
   * `SecondLargestElement`: `largest` and `second` start at `int.MinValue`.
   * Afterwards `largest` is the maximum, and `second` is the greatest value
   * strictly below it, or `int.MinValue` when there is none (an empty array,
   * or all elements equal).
   */
  method SecondLargestElement(a: seq<int>) returns (largest: int, second: int)
    requires forall i :: 0 <= i < |a| ==> IntMin <= a[i] <= IntMax
    ensures largest == IntMin || largest in a
    ensures forall i :: 0 <= i < |a| ==> a[i] <= largest
    ensures second == IntMin || (second in a && second < largest)
    ensures forall i :: 0 <= i < |a| && a[i] < largest ==> a[i] <= second
  {
    largest, second := IntMin, IntMin;
    for i := 0 to |a|
      invariant largest == IntMin || largest in a[..i]
      invariant forall k :: 0 <= k < i ==> a[k] <= largest
      invariant second == IntMin || (second in a[..i] && second < largest)
      invariant forall k :: 0 <= k < i && a[k] < largest ==> a[k] <= second
      invariant IntMin <= second <= largest
    {
      var n := a[i];
      if n > largest {
        second := largest;
        largest := n;
      } else if n > second && n != largest {
        second := n;
      }
    }
    assert a[..|a|] == a;
  }
}
