/**
 * `LongestUniqueSubstring` of NEXT_LEVEL_ALGORITHMS.cs: a window
 * `s[left..right]` without repeated characters, mirrored by a hash set, is
 * moved along the string; the longest window seen is the answer.
 */
module SlidingWindow {

  /** No character occurs twice in `s[lo..hi]`. */
  predicate Unique(s: string, lo: int, hi: int)
    requires 0 <= lo <= hi <= |s|
  {
    forall i, j :: lo <= i < j < hi ==> s[i] != s[j]
  }

  /** No window ending at `hi` that starts before `left` is free of repeats. */
  predicate StartsAtLeast(s: string, left: int, hi: int)
    requires 0 <= left <= hi <= |s|
  {
    forall lo :: 0 <= lo < left ==> !Unique(s, lo, hi)
  }

  /** The characters of `s[lo..hi]`. */
  function Chars(s: string, lo: int, hi: int): set<char>
    requires 0 <= lo <= hi <= |s|
  {
    set k | lo <= k < hi :: s[k]
  }

  /**
   * The length of the longest substring without a repeated character: some
   * such substring has length `maxLen`, and none is longer.
   */
  method LongestUniqueSubstring(s: string) returns (maxLen: int)
    ensures 0 <= maxLen <= |s|
    ensures exists lo, hi :: 0 <= lo <= hi <= |s| && hi - lo == maxLen && Unique(s, lo, hi)
    ensures forall lo, hi :: 0 <= lo <= hi <= |s| && Unique(s, lo, hi) ==> hi - lo <= maxLen
  {
    var window: set<char> := {};
    var left := 0;
    maxLen := 0;
    ghost var bestLo := 0;
    ghost var bestHi := 0;
    for right := 0 to |s|
      invariant 0 <= left <= right
      invariant Unique(s, left, right) && window == Chars(s, left, right)
      invariant StartsAtLeast(s, left, right)
      invariant 0 <= maxLen <= right && 0 <= bestLo <= right - maxLen && Unique(s, bestLo, bestLo + maxLen)
      invariant forall lo, hi :: 0 <= lo <= hi <= right && Unique(s, lo, hi) ==> hi - lo <= maxLen
    {
      ghost var next := right + 1;
      assert StartsAtLeast(s, left, next) by {
        forall lo | 0 <= lo < left
          ensures !Unique(s, lo, next)
        {
          assert !Unique(s, lo, right);
        }
      }
      while s[right] in window
        invariant 0 <= left <= right
        invariant Unique(s, left, right) && window == Chars(s, left, right)
        invariant StartsAtLeast(s, left, right + 1)
        decreases right - left
      {
        var k :| left <= k < right && s[k] == s[right];
        assert !Unique(s, left, right + 1);
        window := window - {s[left]};
        left := left + 1;
      }
      window := window + {s[right]};
      if right - left + 1 > maxLen {
        maxLen, bestLo := right - left + 1, left;
      }
    }
    assert Unique(s, bestLo, bestLo + maxLen);
  }

  /** Every four consecutive characters of "abcabcbb" hold a repeat. */
  lemma RepeatWithinFour(s: string, lo: int, hi: int)
    requires s == "abcabcbb" && 0 <= lo <= hi <= 8
    ensures hi - lo >= 4 ==> !Unique(s, lo, hi)
  {
    if hi - lo >= 4 {
      if lo <= 2 {
        assert s[lo] == s[lo + 3];
      } else {
        assert s[4] == s[6];
      }
    }
  }

  /** The demo: the longest substring of "abcabcbb" without a repeat has length 3. */
  lemma Demo(n: int)
    requires exists lo, hi :: 0 <= lo <= hi <= 8 && hi - lo == n && Unique("abcabcbb", lo, hi)
    requires forall lo, hi :: 0 <= lo <= hi <= 8 && Unique("abcabcbb", lo, hi) ==> hi - lo <= n
    ensures n == 3
  {
    var s := "abcabcbb";
    assert Unique(s, 0, 3);
    var lo, hi :| 0 <= lo <= hi <= 8 && hi - lo == n && Unique(s, lo, hi);
    RepeatWithinFour(s, lo, hi);
  }

  /** The call in `Main`: `LongestUniqueSubstring("abcabcbb")` is 3. */
  method Scenario() returns (n: int)
    ensures n == 3
  {
    n := LongestUniqueSubstring("abcabcbb");
    Demo(n);
  }
}
