/**
 * The routines of AlgorithmArry.cs that produce or rely on ascending order:
 * bubble sort, binary search, merging two sorted arrays, and removing
 * duplicates from a sorted array in place.
 */
module SortedArrays {
  import opened ArrayBasics

  /** `s[m..]` is ascending. */
  predicate SortedFrom(s: seq<int>, m: int)
  {
    forall x, y :: 0 <= x && m <= x < y < |s| ==> s[x] <= s[y]
  }

  /** Nothing before position `m` exceeds anything from `m` on. */
  predicate SplitAt(s: seq<int>, m: int)
  {
    forall x, y :: 0 <= x < m <= y < |s| ==> s[x] <= s[y]
  }

  /** `s[j]` is the largest of `s[..j + 1]`. */
  predicate LargestAt(s: seq<int>, j: int)
    requires 0 <= j < |s|
  {
    forall k :: 0 <= k <= j ==> s[k] <= s[j]
  }

  /**
   * One comparison of the inner loop of `BubbleSort`, inside the unsorted
   * prefix `s[..m]`: swapping `s[j]` and `s[j + 1]` when out of order moves
   * the largest so far to `j + 1` and keeps the sorted part and the elements.
   */
  lemma BubbleStep(s: seq<int>, t: seq<int>, j: int, m: int)
    requires 0 <= j < m - 1 && m <= |s|
    requires t == if s[j] > s[j + 1] then s[j := s[j + 1]][j + 1 := s[j]] else s
    requires LargestAt(s, j) && SortedFrom(s, m) && SplitAt(s, m)
    ensures |t| == |s| && LargestAt(t, j + 1) && SortedFrom(t, m) && SplitAt(t, m)
    ensures multiset(t) == multiset(s)
  {
  }

  /** A finished pass of `BubbleSort` has put the largest of `s[..m]` at `m - 1`. */
  lemma BubblePassDone(s: seq<int>, m: int)
    requires 1 <= m <= |s|
    requires LargestAt(s, m - 1) && SortedFrom(s, m) && SplitAt(s, m)
    ensures SortedFrom(s, m - 1) && SplitAt(s, m - 1)
  {
  }

  /** The tuple swap `(a[i], a[j]) = (a[j], a[i])`. */
  method Swap(a: array<int>, i: int, j: int)
    requires 0 <= i < a.Length && 0 <= j < a.Length
    modifies a
    ensures a[..] == old(a[..])[i := old(a[j])][j := old(a[i])]
  {
    a[i], a[j] := a[j], a[i];
  }

  /**
   * One pass of `BubbleSort` over the unsorted prefix `a[..m]` (the inner
   * loop, with `m = n - i`): comparing neighbours left to right and swapping
   * those out of order carries the largest of the prefix to `m - 1`.
   */
  method BubblePass(a: array<int>, m: int)
    requires 1 <= m <= a.Length && SortedFrom(a[..], m) && SplitAt(a[..], m)
    modifies a
    ensures SortedFrom(a[..], m - 1) && SplitAt(a[..], m - 1)
    ensures multiset(a[..]) == multiset(old(a[..]))
  {
    var j := 0;
    while j < m - 1
      invariant 0 <= j <= m - 1
      invariant LargestAt(a[..], j) && SortedFrom(a[..], m) && SplitAt(a[..], m)
      invariant multiset(a[..]) == multiset(old(a[..]))
    {
      ghost var before := a[..];
      if a[j] > a[j + 1] {
        Swap(a, j, j + 1);
      }
      BubbleStep(before, a[..], j, m);
      j := j + 1;
    }
    BubblePassDone(a[..], m);
  }

  /**
   * `BubbleSort`: pass `i` bubbles the largest element of `a[..n - i]` to
   * position `n - i - 1`. The array ends ascending and holds the same
   * elements.
   */
  method BubbleSort(a: array<int>)
    modifies a
    ensures Sorted(a[..])
    ensures multiset(a[..]) == multiset(old(a[..]))
  {
    var n := a.Length;
    var i := 0;
    while i < n - 1
      invariant 0 <= i <= n
      invariant n >= 1 ==> i <= n - 1
      invariant SortedFrom(a[..], n - i) && SplitAt(a[..], n - i)
      invariant multiset(a[..]) == multiset(old(a[..]))
    {
      BubblePass(a, n - i);
      i := i + 1;
    }
  }

  /**
   * `BinarySearch` on an ascending array: an index holding `target`, or -1
   * exactly when `target` does not occur.
   */
  method BinarySearch(a: seq<int>, target: int) returns (index: int)
    requires Sorted(a)
    ensures -1 <= index < |a|
    ensures 0 <= index ==> a[index] == target
    ensures index == -1 <==> target !in a
  {
    var low, high := 0, |a| - 1;
    while low <= high
      invariant 0 <= low <= high + 1 <= |a|
      invariant forall k :: 0 <= k < |a| && !(low <= k <= high) ==> a[k] != target
    {
      var mid := (low + high) / 2;
      if a[mid] == target {
        return mid;
      } else if a[mid] < target {
        low := mid + 1;
      } else {
        high := mid - 1;
      }
    }
    return -1;
  }

  /**
   * The merge of `MergeSortedArrays` from positions `i` of `x` and `j` of
   * `y` on: the smaller head goes first, and on a tie the head of `y` goes
   * first (the comparison is a strict `<`); the leftovers of either follow.
   */
  function MergeFrom(x: seq<int>, y: seq<int>, i: nat, j: nat): (r: seq<int>)
    requires i <= |x| && j <= |y|
    ensures |r| == |x| - i + |y| - j
    decreases |x| - i + |y| - j
  {
    if i == |x| then y[j..]
    else if j == |y| then x[i..]
    else if x[i] < y[j] then [x[i]] + MergeFrom(x, y, i + 1, j)
    else [y[j]] + MergeFrom(x, y, i, j + 1)
  }

  function Merge(x: seq<int>, y: seq<int>): seq<int>
  {
    MergeFrom(x, y, 0, 0)
  }

  /** The merge holds every element of both inputs, with multiplicity. */
  lemma {:induction false} MergeSameElements(x: seq<int>, y: seq<int>, i: nat, j: nat)
    requires i <= |x| && j <= |y|
    ensures multiset(MergeFrom(x, y, i, j)) == multiset(x[i..]) + multiset(y[j..])
    decreases |x| - i + |y| - j
  {
    if i < |x| && j < |y| {
      if x[i] < y[j] {
        MergeSameElements(x, y, i + 1, j);
        TailElements(x, i);
      } else {
        MergeSameElements(x, y, i, j + 1);
        TailElements(y, j);
      }
    }
  }

  /** The elements from position `i` on are `s[i]` and those from `i + 1` on. */
  lemma TailElements(s: seq<int>, i: nat)
    requires i < |s|
    ensures multiset(s[i..]) == multiset{s[i]} + multiset(s[i + 1..])
  {
    assert s[i..] == [s[i]] + s[i + 1..];
  }

  /** Every element of the merge is at least `lower` when every remaining input element is. */
  lemma MergeLowerBound(x: seq<int>, y: seq<int>, i: nat, j: nat, lower: int)
    requires i <= |x| && j <= |y|
    requires forall k :: i <= k < |x| ==> lower <= x[k]
    requires forall k :: j <= k < |y| ==> lower <= y[k]
    ensures forall k :: 0 <= k < |MergeFrom(x, y, i, j)| ==> lower <= MergeFrom(x, y, i, j)[k]
  {
    MergeSameElements(x, y, i, j);
    var r := MergeFrom(x, y, i, j);
    forall k | 0 <= k < |r|
      ensures lower <= r[k]
    {
      assert r[k] in multiset(r);
      assert r[k] in multiset(x[i..]) || r[k] in multiset(y[j..]);
    }
  }

  /** Merging two ascending sequences gives an ascending sequence. */
  lemma {:induction false} MergeSorted(x: seq<int>, y: seq<int>, i: nat, j: nat)
    requires i <= |x| && j <= |y|
    requires Sorted(x) && Sorted(y)
    ensures Sorted(MergeFrom(x, y, i, j))
    decreases |x| - i + |y| - j
  {
    if i < |x| && j < |y| {
      if x[i] < y[j] {
        MergeSorted(x, y, i + 1, j);
        MergeLowerBound(x, y, i + 1, j, x[i]);
      } else {
        MergeSorted(x, y, i, j + 1);
        MergeLowerBound(x, y, i, j + 1, y[j]);
      }
    }
  }

  /**
   * What `MergeSortedArrays` promises of its output: ascending when both
   * inputs are, `|x| + |y|` long, and holding exactly the elements of both.
   */
  lemma MergeCorrect(x: seq<int>, y: seq<int>)
    ensures |Merge(x, y)| == |x| + |y|
    ensures multiset(Merge(x, y)) == multiset(x) + multiset(y)
    ensures Sorted(x) && Sorted(y) ==> Sorted(Merge(x, y))
  {
    MergeSameElements(x, y, 0, 0);
    assert x[0..] == x && y[0..] == y;
    if Sorted(x) && Sorted(y) {
      MergeSorted(x, y, 0, 0);
    }
  }

  /** When what is left to merge starts with `v`, `v` is the merge's element at `k`. */
  lemma Emit(whole: seq<int>, k: nat, v: int, rest: seq<int>)
    requires k <= |whole| && whole[k..] == [v] + rest
    ensures k < |whole| && whole[k] == v && whole[k + 1..] == rest
  {
    assert whole[k..][0] == v;
    assert whole[k + 1..] == whole[k..][1..];
  }

  /** Once either input is used up, what is left to merge is the rest of the other. */
  lemma LeftoverMerge(x: seq<int>, y: seq<int>, i: nat, j: nat)
    requires i <= |x| && j <= |y| && (i == |x| || j == |y|)
    ensures MergeFrom(x, y, i, j) == x[i..] + y[j..]
  {
    if i == |x| {
      assert x[i..] == [];
    } else {
      assert y[j..] == [];
    }
  }

  /**
   * A leftover loop of `MergeSortedArrays` (`while (i < a.Length)
   * merged[k++] = a[i++];` and its twin for `b`): copies `s[i..]` to
   * `merged` from position `k` on and returns where it stopped.
   */
  method CopyLeftover(merged: array<int>, k: int, s: seq<int>, i: int) returns (end: int)
    requires 0 <= i <= |s| && 0 <= k && k + |s| - i <= merged.Length
    modifies merged
    ensures end == k + |s| - i
    ensures merged[..] == old(merged[..])[..k] + s[i..] + old(merged[..])[end..]
  {
    ghost var before := merged[..];
    var from, to := i, k;
    while from < |s|
      invariant i <= from <= |s| && to == k + from - i
      invariant forall t :: 0 <= t < k ==> merged[t] == before[t]
      invariant forall t :: k <= t < to ==> merged[t] == s[i + t - k]
      invariant forall t :: to <= t < merged.Length ==> merged[t] == before[t]
    {
      merged[to] := s[from];
      from, to := from + 1, to + 1;
    }
    end := to;
    ghost var after := before[..k] + s[i..] + before[end..];
    assert |after| == merged.Length;
    forall t | 0 <= t < merged.Length
      ensures merged[t] == after[t]
    {
      if t < k {
      } else if t < end {
        assert after[t] == s[i..][t - k];
      } else {
        assert after[t] == before[end..][t - end];
      }
    }
    assert merged[..] == after;
  }

  /**
   * The three stretches `MergeSortedArrays` writes make up the merge: `m0`
   * after the two-pointer loop, `m1` after the leftovers of `a`, `m2` after
   * those of `b`.
   */
  lemma Assembled(whole: seq<int>, m0: seq<int>, m1: seq<int>, m2: seq<int>, k: nat, k1: nat, k2: nat,
                  a: seq<int>, i: nat, b: seq<int>, j: nat)
    requires i <= |a| && j <= |b| && k1 == k + |a| - i && k2 == k1 + |b| - j == |whole| == |m0|
    requires whole[k..] == a[i..] + b[j..] && m0[..k] == whole[..k]
    requires m1 == m0[..k] + a[i..] + m0[k1..]
    requires m2 == m1[..k1] + b[j..] + m1[k2..]
    ensures m2 == whole
  {
    assert m1[..k1] == m0[..k] + a[i..];
    assert m1[k2..] == [];
    assert whole == whole[..k] + whole[k..];
  }

  /**
   * `MergeSortedArrays`: a new array of length `a.Length + b.Length` filled
   * by the two-pointer merge and then the leftovers of either input.
   */
  method MergeSortedArrays(a: seq<int>, b: seq<int>) returns (merged: array<int>)
    ensures fresh(merged)
    ensures merged[..] == Merge(a, b)
  {
    ghost var whole := Merge(a, b);
    merged := new int[|a| + |b|];
    var i, j, k := 0, 0, 0;
    while i < |a| && j < |b|
      invariant 0 <= i <= |a| && 0 <= j <= |b| && k == i + j
      invariant forall t :: 0 <= t < k ==> merged[t] == whole[t]
      invariant MergeFrom(a, b, i, j) == whole[k..]
    {
      if a[i] < b[j] {
        Emit(whole, k, a[i], MergeFrom(a, b, i + 1, j));
        merged[k] := a[i];
        i := i + 1;
      } else {
        Emit(whole, k, b[j], MergeFrom(a, b, i, j + 1));
        merged[k] := b[j];
        j := j + 1;
      }
      k := k + 1;
    }
    LeftoverMerge(a, b, i, j);
    ghost var m0 := merged[..];
    assert m0[..k] == whole[..k];
    var k1 := CopyLeftover(merged, k, a, i);
    ghost var m1 := merged[..];
    var k2 := CopyLeftover(merged, k1, b, j);
    Assembled(whole, m0, m1, merged[..], k, k1, k2, a, i, b, j);
  }

  /** Consecutive equal elements collapsed to one, in order. */
  function Dedup(s: seq<int>): (r: seq<int>)
    ensures |r| <= |s|
    ensures |s| >= 1 ==> |r| >= 1 && r[|r| - 1] == s[|s| - 1]
  {
    if |s| <= 1 then s
    else if s[|s| - 1] == s[|s| - 2] then Dedup(s[..|s| - 1])
    else Dedup(s[..|s| - 1]) + [s[|s| - 1]]
  }

  /**
   * On an ascending sequence `Dedup` keeps exactly the values that occur,
   * each once, in strictly ascending order.
   */
  lemma DedupOfSorted(s: seq<int>)
    requires Sorted(s)
    ensures forall i, j :: 0 <= i < j < |Dedup(s)| ==> Dedup(s)[i] < Dedup(s)[j]
    ensures forall v :: v in Dedup(s) <==> v in s
  {
    DedupAscending(s);
    DedupValues(s);
  }

  /** `Dedup` of an ascending sequence is strictly ascending and ends at its largest value. */
  lemma {:induction false} DedupAscending(s: seq<int>)
    requires Sorted(s)
    ensures forall i, j :: 0 <= i < j < |Dedup(s)| ==> Dedup(s)[i] < Dedup(s)[j]
    ensures forall i :: 0 <= i < |Dedup(s)| ==> Dedup(s)[i] <= Dedup(s)[|Dedup(s)| - 1]
  {
    if |s| > 1 {
      var init := s[..|s| - 1];
      DedupAscending(init);
      if s[|s| - 1] != s[|s| - 2] {
        assert s[|s| - 2] < s[|s| - 1];
      }
    }
  }

  /** `Dedup` drops repeats but no value. */
  lemma {:induction false} DedupValues(s: seq<int>)
    ensures forall v :: v in Dedup(s) <==> v in s
  {
    if |s| > 1 {
      var init := s[..|s| - 1];
      DedupValues(init);
      assert s == init + [s[|s| - 1]];
      assert s[|s| - 2] in init;
    }
  }


  /**
   * `RemoveDuplicatesFromSortedArray`: each element that differs from its
   * predecessor is written to the next free slot; the result is the prefix
   * `a[..write]`. Slicing that prefix needs at least one element (`write`
   * starts at 1), so the array must not be empty.
   */
  method RemoveDuplicates(a: array<int>) returns (write: int)
    requires a.Length >= 1
    modifies a
    ensures 1 <= write <= a.Length
    ensures a[..write] == Dedup(old(a[..]))
  {
    ghost var s := a[..];
    write := 1;
    var read := 1;
    while read < a.Length
      invariant 1 <= write <= read <= a.Length
      invariant a[..write] == Dedup(s[..read])
      invariant a[read - 1] == s[read - 1]
      invariant forall k :: read <= k < a.Length ==> a[k] == s[k]
    {
      ghost var kept := a[..write];
      assert s[..read + 1][..read] == s[..read];
      assert a[write - 1] == kept[write - 1] == s[read - 1];
      if a[read] != a[read - 1] {
        a[write] := a[read];
        assert a[..write + 1] == kept + [s[read]];
        write := write + 1;
      } else {
        assert a[..write] == kept;
      }
      read := read + 1;
    }
    assert s[..a.Length] == s;
  }
}
