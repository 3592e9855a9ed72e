/**
 * `RotateArrayRight` and its helper `Reverse` from AlgorithmArry.cs.
 *
 * The helper's single statement `(arr[start++], arr[end--]) = (arr[end],
 * arr[start])` is a C# deconstructing assignment: the targets, with their
 * post-increment and post-decrement, are evaluated before the right-hand
 * side is read. One step therefore stores the old `arr[end - 1]` at `start`
 * and the old `arr[start + 1]` at `end`; it does not swap. `AsWritten` and
 * `ReverseAsWritten` model that statement; `ReversedRange` and `Reverse`
 * model the swap evidently intended, which `RotateArrayRight` uses.
 */
module RotateRight {
  import opened ArrayBasics

  /** What the as-written loop leaves in `s`, step by step. */
  function AsWritten(s: seq<int>, start: int, end: int): (r: seq<int>)
    requires start >= end || (0 <= start && end < |s|)
    ensures |r| == |s|
    decreases end - start
  {
    if start < end then
      AsWritten(s[start := s[end - 1]][end := s[start + 1]], start + 1, end - 1)
    else s
  }

  /** `s` with the segment `start..end` (both ends included) reversed; nothing for an empty segment. */
  function ReversedRange(s: seq<int>, start: int, end: int): (r: seq<int>)
    requires start >= end || (0 <= start && end < |s|)
    ensures |r| == |s|
  {
    seq(|s|, i requires 0 <= i < |s| => if start <= i <= end then s[start + end - i] else s[i])
  }

  /** The right rotation by `k`: the last `k` elements move to the front. */
  function RotatedRight(s: seq<int>, k: int): (r: seq<int>)
    requires 0 <= k <= |s|
    ensures |r| == |s|
  {
    s[|s| - k..] + s[..|s| - k]
  }

  /** What `RotateArrayRight` computes with the as-written helper. */
  function RotateAsWritten(s: seq<int>, k: int): seq<int>
    requires |s| >= 1 && k >= 0
  {
    var r := k % |s|;
    AsWritten(AsWritten(AsWritten(s, 0, |s| - 1), 0, r - 1), r, |s| - 1)
  }

  /** The helper exactly as written: a copy loop, not a swap. */
  method ReverseAsWritten(a: array<int>, start: int, end: int)
    requires start >= end || (0 <= start && end < a.Length)
    modifies a
    ensures a[..] == AsWritten(old(a[..]), start, end)
  {
    var s, e := start, end;
    while s < e
      invariant s >= e || (0 <= s && e < a.Length)
      invariant AsWritten(a[..], s, e) == AsWritten(old(a[..]), start, end)
      decreases e - s
    {
      var atStart, atEnd := a[e - 1], a[s + 1];
      a[s] := atStart;
      a[e] := atEnd;
      s, e := s + 1, e - 1;
    }
  }

  /**
   * On the demo array the as-written helper does not reverse: it turns
   * [1, 2, 3, 4, 5] into [4, 3, 3, 3, 2], losing 1 and 5; and the rotation
   * by 2 yields [4, 3, 3, 3, 3] instead of [4, 5, 1, 2, 3].
   */
  lemma ReverseAsWrittenCounterexample()
    ensures AsWritten([1, 2, 3, 4, 5], 0, 4) == [4, 3, 3, 3, 2]
    ensures ReversedRange([1, 2, 3, 4, 5], 0, 4) == [5, 4, 3, 2, 1]
    ensures RotateAsWritten([1, 2, 3, 4, 5], 2) == [4, 3, 3, 3, 3]
    ensures RotatedRight([1, 2, 3, 4, 5], 2) == [4, 5, 1, 2, 3]
  {
    var s := [1, 2, 3, 4, 5];
    assert AsWritten(s, 0, 4) == AsWritten([4, 2, 3, 4, 2], 1, 3);
    assert AsWritten([4, 2, 3, 4, 2], 1, 3) == AsWritten([4, 3, 3, 3, 2], 2, 2);
    var t := [4, 3, 3, 3, 2];
    assert AsWritten(t, 0, 1) == AsWritten(t, 1, 0);
    assert AsWritten(t, 2, 4) == AsWritten([4, 3, 3, 3, 3], 3, 3);
    assert Reversed(s[0..5]) == [5, 4, 3, 2, 1];
  }

  /** The helper as intended: swap the ends, then move both inwards. */
  method Reverse(a: array<int>, start: int, end: int)
    requires start >= end || (0 <= start && end < a.Length)
    modifies a
    ensures a[..] == ReversedRange(old(a[..]), start, end)
  {
    var s, e := start, end;
    while s < e
      invariant start < end ==> start <= s && e <= end && s - start == end - e && s <= e + 1
      invariant s >= e || (0 <= s && e < a.Length)
      invariant start < end ==> forall k :: 0 <= k < a.Length && (k < start || end < k || s <= k <= e) ==> a[k] == old(a[k])
      invariant start < end ==> forall k :: start <= k < s ==> a[k] == old(a[end - (k - start)]) && a[end - (k - start)] == old(a[k])
      invariant start >= end ==> s == start && e == end && a[..] == old(a[..])
      decreases e - s
    {
      a[s], a[e] := a[e], a[s];
      s, e := s + 1, e - 1;
    }
    if start < end {
      assert forall k :: 0 <= k < a.Length ==> a[..][k] == ReversedRange(old(a[..]), start, end)[k];
    }
  }

  /** Reversing the whole, then each part, rotates right by the length of the first part. */
  lemma ThreeReversalsRotate(s: seq<int>, k: int)
    requires 0 <= k < |s|
    ensures var whole := ReversedRange(s, 0, |s| - 1);
      ReversedRange(ReversedRange(whole, 0, k - 1), k, |s| - 1) == RotatedRight(s, k)
  {
    var n := |s|;
    var whole := ReversedRange(s, 0, n - 1);
    assert forall i :: 0 <= i < n ==> whole[i] == s[n - 1 - i];
    var first := ReversedRange(whole, 0, k - 1);
    assert forall i :: 0 <= i < k ==> first[i] == s[n - k + i];
    assert forall i :: k <= i < n ==> first[i] == s[n - 1 - i];
    var last := ReversedRange(first, k, n - 1);
    assert forall i :: 0 <= i < k ==> last[i] == s[n - k + i];
    assert forall i :: k <= i < n ==> last[i] == s[i - k];
    assert forall i :: 0 <= i < n ==> last[i] == RotatedRight(s, k)[i];
  }

  /**
   * Each element moves `k` places to the right, wrapping around the end:
   * position `i` goes to `i + k`, or to `i + k - |s|` past the end.
   */
  lemma RotatedRightMoves(s: seq<int>, k: int)
    requires 0 <= k <= |s|
    ensures forall i :: 0 <= i < |s| - k ==> RotatedRight(s, k)[i + k] == s[i]
    ensures forall i :: |s| - k <= i < |s| ==> RotatedRight(s, k)[i + k - |s|] == s[i]
  {
  }

  /**
   * `RotateArrayRight` with the intended helper: the array is rotated right
   * by `k % a.Length`. An empty array makes `k % arr.Length` divide by zero.
   */
  method RotateArrayRight(a: array<int>, k: int)
    requires a.Length >= 1 && k >= 0
    modifies a
    ensures a[..] == RotatedRight(old(a[..]), k % a.Length)
  {
    var r := k % a.Length;
    assert 0 <= r < a.Length;
    ghost var s := a[..];
    Reverse(a, 0, a.Length - 1);
    ghost var whole := a[..];
    Reverse(a, 0, r - 1);
    ghost var first := a[..];
    assert first == ReversedRange(whole, 0, r - 1);
    Reverse(a, r, a.Length - 1);
    assert a[..] == ReversedRange(first, r, a.Length - 1);
    ThreeReversalsRotate(s, r);
  }
}
