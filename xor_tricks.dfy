/**
 * The XOR folds: `FindMissingNumber` of AlgorithmArry.cs and `SingleNumber`
 * of NEXT_LEVEL_ALGORITHMS.cs. C# `int ^ int` acts on the 32-bit pattern of
 * its operands; a pattern is held here as the natural number it spells in
 * binary (a negative `int` stands for its pattern `x + 2^32`), and `^` is
 * `Xor`, defined bit by bit from the lowest.
 */
module XorTricks {
  import opened Powers
  import opened Sequences

  function Bit(differ: bool): nat
  {
    if differ then 1 else 0
  }

  /** Bitwise exclusive or: the low bits are compared, the remaining bits combined recursively. */
  function Xor(a: nat, b: nat): nat
    decreases a + b
  {
    if a == 0 then b
    else if b == 0 then a
    else 2 * Xor(a / 2, b / 2) + Bit(a % 2 != b % 2)
  }

  /** The lowest bit of `Xor(a, b)` is set when the operands' lowest bits differ; the rest is the XOR of the rest. */
  lemma XorBits(a: nat, b: nat)
    ensures Xor(a, b) % 2 == Bit(a % 2 != b % 2)
    ensures Xor(a, b) / 2 == Xor(a / 2, b / 2)
  {
  }

  /** Two naturals with the same lowest bit and the same remaining bits are equal. */
  lemma SameBits(x: nat, y: nat)
    requires x % 2 == y % 2 && x / 2 == y / 2
    ensures x == y
  {
  }

  /** Every value cancels itself. */
  lemma {:induction false} XorSelf(a: nat)
    ensures Xor(a, a) == 0
    decreases a
  {
    if a > 0 {
      XorSelf(a / 2);
    }
  }

  lemma {:induction false} XorComm(a: nat, b: nat)
    ensures Xor(a, b) == Xor(b, a)
    decreases a + b
  {
    if a > 0 && b > 0 {
      XorComm(a / 2, b / 2);
    }
  }

  lemma {:induction false} XorAssoc(a: nat, b: nat, c: nat)
    ensures Xor(Xor(a, b), c) == Xor(a, Xor(b, c))
    decreases a + b + c
  {
    if a + b + c > 0 {
      XorAssoc(a / 2, b / 2, c / 2);
      XorBits(a, b);
      XorBits(b, c);
      XorBits(Xor(a, b), c);
      XorBits(a, Xor(b, c));
      SameBits(Xor(Xor(a, b), c), Xor(a, Xor(b, c)));
    }
  }

  /** XOR-ing the same value twice gives back the start. */
  lemma XorCancel(a: nat, y: nat)
    ensures Xor(Xor(a, y), y) == a
  {
    XorAssoc(a, y, y);
    XorSelf(y);
  }

  /** The XOR of two `n`-bit patterns is an `n`-bit pattern. */
  lemma {:induction false} XorWidth(a: nat, b: nat, n: nat)
    requires a < Pow2(n) && b < Pow2(n)
    ensures Xor(a, b) < Pow2(n)
    decreases n
  {
    if a > 0 && b > 0 {
      XorWidth(a / 2, b / 2, n - 1);
    }
  }

  /** The XOR of all elements, folded from the left. */
  function XorAll(s: seq<nat>): nat
  {
    if s == [] then 0 else Xor(XorAll(s[..|s| - 1]), s[|s| - 1])
  }

  /** Every element is a 32-bit pattern, as a C# `int` is. */
  predicate Words(s: seq<nat>)
  {
    forall i :: 0 <= i < |s| ==> s[i] < Pow2(32)
  }

  /** Folding 32-bit patterns gives a 32-bit pattern. */
  lemma {:induction false} XorAllWidth(s: seq<nat>)
    requires Words(s)
    ensures XorAll(s) < Pow2(32)
  {
    if s != [] {
      XorAllWidth(s[..|s| - 1]);
      XorWidth(XorAll(s[..|s| - 1]), s[|s| - 1], 32);
    }
  }

  lemma {:induction false} XorAppend(s: seq<nat>, t: seq<nat>)
    ensures XorAll(s + t) == Xor(XorAll(s), XorAll(t))
    decreases |t|
  {
    if t == [] {
      assert s + t == s;
    } else {
      var init := t[..|t| - 1];
      XorAppend(s, init);
      assert (s + t)[..|s + t| - 1] == s + init;
      XorAssoc(XorAll(s), XorAll(init), t[|t| - 1]);
    }
  }

  /** Appending one element folds it in last. */
  lemma XorSnoc(s: seq<nat>, x: nat)
    ensures XorAll(s + [x]) == Xor(XorAll(s), x)
  {
    assert (s + [x])[..|s|] == s;
  }

  /** Taking one element out of the fold. */
  lemma XorRemoveAt(s: seq<nat>, k: int)
    requires 0 <= k < |s|
    ensures XorAll(s) == Xor(XorAll(s[..k] + s[k + 1..]), s[k])
  {
    var front, x, back := s[..k], s[k], s[k + 1..];
    assert s == (front + [x]) + back;
    XorAppend(front + [x], back);
    XorSnoc(front, x);
    XorAppend(front, back);
    XorAssoc(XorAll(front), x, XorAll(back));
    XorComm(x, XorAll(back));
    XorAssoc(XorAll(front), XorAll(back), x);
  }

  lemma {:induction false} CountAppend(s: seq<nat>, t: seq<nat>, x: nat)
    ensures Count(s + t, x) == Count(s, x) + Count(t, x)
    decreases |t|
  {
    if t == [] {
      assert s + t == s;
    } else {
      CountAppend(s, t[..|t| - 1], x);
      assert (s + t)[..|s + t| - 1] == s + t[..|t| - 1];
    }
  }

  /** A value that is counted occurs at some position. */
  lemma {:induction false} CountedOccurs(s: seq<nat>, x: nat) returns (k: int)
    requires Count(s, x) > 0
    ensures 0 <= k < |s| && s[k] == x
    decreases |s|
  {
    if s[|s| - 1] == x {
      k := |s| - 1;
    } else {
      k := CountedOccurs(s[..|s| - 1], x);
    }
  }

  /** Taking out position `k` lowers the count of `s[k]` by one and leaves every other count. */
  lemma CountRemoveAt(s: seq<nat>, k: int)
    requires 0 <= k < |s|
    ensures forall x :: Count(s[..k] + s[k + 1..], x) == Count(s, x) - (if x == s[k] then 1 else 0)
  {
    var front, y, back := s[..k], s[k], s[k + 1..];
    assert s == front + [y] + back;
    forall x
      ensures Count(front + back, x) == Count(s, x) - (if x == y then 1 else 0)
    {
      CountAppend(front + [y], back, x);
      CountAppend(front, [y], x);
      CountAppend(front, back, x);
      assert [y][..0] == [];
    }
  }

  /** `s` and `t` hold the same values with the same multiplicities. */
  ghost predicate SameCounts(s: seq<nat>, t: seq<nat>)
  {
    forall x :: Count(s, x) == Count(t, x)
  }

  /** Only the empty sequence has the counts of the empty sequence. */
  lemma EmptyCounts(t: seq<nat>)
    requires SameCounts([], t)
    ensures t == []
  {
    if t != [] {
      assert Count(t, t[|t| - 1]) > 0;
      assert false;
    }
  }

  /**
   * The last element of `s` occurs in `t` at some `k`; dropping both leaves
   * sequences with equal counts again.
   */
  lemma MatchLast(s: seq<nat>, t: seq<nat>) returns (k: int)
    requires s != [] && SameCounts(s, t)
    ensures 0 <= k < |t| && t[k] == s[|s| - 1]
    ensures SameCounts(s[..|s| - 1], t[..k] + t[k + 1..])
  {
    var x, init := s[|s| - 1], s[..|s| - 1];
    assert Count(t, x) > 0;
    k := CountedOccurs(t, x);
    CountRemoveAt(t, k);
    forall z
      ensures Count(init, z) == Count(t[..k] + t[k + 1..], z)
    {
      assert Count(s, z) == Count(init, z) + (if x == z then 1 else 0);
    }
  }

  /** Folds that agree once a matched pair of elements is dropped agree. */
  lemma XorMatched(s: seq<nat>, t: seq<nat>, k: int)
    requires s != [] && 0 <= k < |t| && t[k] == s[|s| - 1]
    requires XorAll(s[..|s| - 1]) == XorAll(t[..k] + t[k + 1..])
    ensures XorAll(s) == XorAll(t)
  {
    XorRemoveAt(t, k);
  }

  /** The fold depends only on the elements and their multiplicities, not on their order. */
  lemma {:induction false} XorPermutation(s: seq<nat>, t: seq<nat>)
    requires SameCounts(s, t)
    ensures XorAll(s) == XorAll(t)
    decreases |s|
  {
    if s == [] {
      EmptyCounts(t);
    } else {
      var k := MatchLast(s, t);
      XorPermutation(s[..|s| - 1], t[..k] + t[k + 1..]);
      XorMatched(s, t, k);
    }
  }

  /** The last element and an equal one before it cancel out of the fold. */
  lemma XorPaired(s: seq<nat>, k: int)
    requires 0 <= k < |s| - 1 && s[k] == s[|s| - 1]
    ensures XorAll(s) == XorAll(s[..|s| - 1][..k] + s[..|s| - 1][k + 1..])
  {
    var init := s[..|s| - 1];
    XorRemoveAt(init, k);
    XorCancel(XorAll(init[..k] + init[k + 1..]), s[k]);
  }

  /** Every value occurs an even number of times in `s`. */
  ghost predicate AllEven(s: seq<nat>)
  {
    forall y :: Count(s, y) % 2 == 0
  }

  /**
   * The last element of `s` occurs once more at some `k` before it when it
   * occurs an even number of times; dropping both lowers that value's count
   * by two and leaves every other count.
   */
  lemma PairLast(s: seq<nat>) returns (k: int)
    requires s != [] && Count(s, s[|s| - 1]) % 2 == 0
    ensures 0 <= k < |s| - 1 && s[k] == s[|s| - 1]
    ensures forall z :: Count(s[..|s| - 1][..k] + s[..|s| - 1][k + 1..], z) == Count(s, z) - (if z == s[|s| - 1] then 2 else 0)
  {
    var y, init := s[|s| - 1], s[..|s| - 1];
    assert Count(s, y) == Count(init, y) + 1;
    k := CountedOccurs(init, y);
    CountRemoveAt(init, k);
  }

  /** Every value occurs an even number of times: the fold is zero. */
  lemma {:induction false} XorAllEven(s: seq<nat>)
    requires AllEven(s)
    ensures XorAll(s) == 0
    decreases |s|
  {
    if s != [] {
      var y, init := s[|s| - 1], s[..|s| - 1];
      assert Count(s, y) % 2 == 0;
      var k := PairLast(s);
      var rest := init[..k] + init[k + 1..];
      assert AllEven(rest) by {
        forall z
          ensures Count(rest, z) % 2 == 0
        {
          assert Count(s, z) % 2 == 0;
        }
      }
      XorAllEven(rest);
      XorPaired(s, k);
    }
  }

  /** `x` occurs an odd number of times and every other value an even number of times. */
  ghost predicate OddOneOut(s: seq<nat>, x: nat)
  {
    Count(s, x) % 2 == 1 && forall y :: y != x ==> Count(s, y) % 2 == 0
  }

  /** When the odd one out is last, every count before it is even. */
  lemma OddOneOutLast(s: seq<nat>, x: nat)
    requires OddOneOut(s, x) && s != [] && s[|s| - 1] == x
    ensures AllEven(s[..|s| - 1])
  {
    var init := s[..|s| - 1];
    forall z
      ensures Count(init, z) % 2 == 0
    {
      assert Count(s, z) == Count(init, z) + (if x == z then 1 else 0);
      if z != x {
        assert Count(s, z) % 2 == 0;
      }
    }
  }

  /** When some other value is last, pairing it off keeps `x` the odd one out. */
  lemma OddOneOutPair(s: seq<nat>, x: nat) returns (k: int)
    requires OddOneOut(s, x) && s != [] && s[|s| - 1] != x
    ensures 0 <= k < |s| - 1 && s[k] == s[|s| - 1]
    ensures OddOneOut(s[..|s| - 1][..k] + s[..|s| - 1][k + 1..], x)
  {
    assert Count(s, s[|s| - 1]) % 2 == 0;
    k := PairLast(s);
    var rest := s[..|s| - 1][..k] + s[..|s| - 1][k + 1..];
    forall z | z != x
      ensures Count(rest, z) % 2 == 0
    {
      assert Count(s, z) % 2 == 0;
    }
  }

  /** The fold of a sequence with one odd one out is that value. */
  lemma {:induction false} XorOddOneOut(s: seq<nat>, x: nat)
    requires OddOneOut(s, x)
    ensures XorAll(s) == x
    decreases |s|
  {
    assert s != [];
    var init := s[..|s| - 1];
    if s[|s| - 1] == x {
      OddOneOutLast(s, x);
      XorAllEven(init);
    } else {
      var k := OddOneOutPair(s, x);
      XorOddOneOut(init[..k] + init[k + 1..], x);
      XorPaired(s, k);
    }
  }

  /** The values `0, 1, ..., k - 1`. */
  function Range(k: nat): (r: seq<nat>)
    ensures |r| == k
  {
    seq(k, i requires 0 <= i < k => i)
  }

  /** The XOR of `0, 1, ..., k - 1`, as the first loop of `FindMissingNumber` builds it. */
  function XorUpTo(k: nat): nat
  {
    if k == 0 then 0 else Xor(XorUpTo(k - 1), k - 1)
  }

  /** The indices of a C# array fit in 32 bits, and so does their XOR. */
  lemma {:induction false} XorUpToWidth(k: nat)
    requires k <= Pow2(32)
    ensures XorUpTo(k) < Pow2(32)
  {
    if k > 0 {
      XorUpToWidth(k - 1);
      XorWidth(XorUpTo(k - 1), k - 1, 32);
    }
  }

  lemma {:induction false} XorUpToIsRange(k: nat)
    ensures XorUpTo(k) == XorAll(Range(k))
  {
    if k > 0 {
      XorUpToIsRange(k - 1);
      assert Range(k)[..k - 1] == Range(k - 1);
    }
  }

  /** `nums` holds every value of `0..|nums|` except `m`, each once. */
  ghost predicate MissingFrom(nums: seq<nat>, m: nat)
  {
    SameCounts(nums + [m], Range(|nums| + 1))
  }

  /** The value `FindMissingNumber` returns. */
  function MissingXor(nums: seq<nat>): nat
  {
    Xor(XorUpTo(|nums| + 1), XorAll(nums))
  }

  /** When exactly one value of `0..n` is missing, the XOR trick finds it. */
  lemma MissingXorFinds(nums: seq<nat>, m: nat)
    requires MissingFrom(nums, m)
    ensures MissingXor(nums) == m
  {
    XorUpToIsRange(|nums| + 1);
    XorPermutation(nums + [m], Range(|nums| + 1));
    XorSnoc(nums, m);
    XorCancel(m, XorAll(nums));
    XorComm(m, XorAll(nums));
    XorComm(XorUpTo(|nums| + 1), XorAll(nums));
  }

  /** The demo input [1, 2, 4, 5]: the routine answers 6. */
  lemma MissingDemo()
    ensures MissingXor([1, 2, 4, 5]) == 6
  {
    var s: seq<nat> := [1, 2, 4, 5];
    assert XorAll([1]) == 1 by { assert [1][..0] == []; }
    assert XorAll([1, 2]) == 3 by { assert [1, 2][..1] == [1]; }
    assert XorAll([1, 2, 4]) == 7 by { assert [1, 2, 4][..2] == [1, 2]; assert Xor(3, 4) == 2 * Xor(1, 2) + 1; }
    assert XorAll(s) == 2 by {
      assert s[..3] == [1, 2, 4];
      assert Xor(3, 2) == 2 * Xor(1, 1) + 1;
      assert Xor(7, 5) == 2 * Xor(3, 2);
    }
    assert XorUpTo(5) == 4 by {
      assert XorUpTo(3) == 3;
      assert Xor(3, 3) == 2 * Xor(1, 1);
    }
    assert Xor(4, 2) == 2 * Xor(2, 1) && Xor(2, 1) == 2 * Xor(1, 0) + 1;
  }

  /**
   * The demo input [1, 2, 4, 5] is not `0..4` with one value missing: 5 is
   * out of range, so no `m` completes it (and the answer 6 is meaningless).
   */
  lemma MissingDemoOutOfRange()
    ensures forall m :: !MissingFrom([1, 2, 4, 5], m)
  {
    var s: seq<nat> := [1, 2, 4, 5];
    assert Count(s, 5) == 1 by {
      assert s[..3] == [1, 2, 4] && s[..3][..2] == [1, 2] && [1, 2][..1] == [1] && [1][..0] == [];
    }
    assert Count(Range(5), 5) == 0 by {
      var r := Range(5);
      assert r[..4] == Range(4) && r[..4][..3] == Range(3) && Range(3)[..2] == Range(2) && Range(2)[..1] == Range(1) && Range(1)[..0] == [];
    }
    forall m
      ensures !MissingFrom(s, m)
    {
      CountAppend(s, [m], 5);
    }
  }

  /** One more element of `s` folded into an accumulator that started at `a`. */
  lemma XorPrefix(s: seq<nat>, j: int, a: nat)
    requires 0 <= j < |s|
    ensures Xor(Xor(a, XorAll(s[..j])), s[j]) == Xor(a, XorAll(s[..j + 1]))
  {
    assert s[..j + 1][..j] == s[..j];
    XorAssoc(a, XorAll(s[..j]), s[j]);
  }

  /** `FindMissingNumber`: XOR of `0..nums.Length`, then of every element. */
  method FindMissingNumber(nums: seq<nat>) returns (xor: nat)
    ensures xor == MissingXor(nums)
    ensures forall m :: MissingFrom(nums, m) ==> xor == m
    ensures Words(nums) && |nums| < Pow2(32) ==> xor < Pow2(32)
  {
    xor := 0;
    for i := 0 to |nums| + 1
      invariant xor == XorUpTo(i)
    {
      xor := Xor(xor, i);
    }
    ghost var upTo := xor;
    for j := 0 to |nums|
      invariant xor == Xor(upTo, XorAll(nums[..j]))
    {
      XorPrefix(nums, j, upTo);
      xor := Xor(xor, nums[j]);
    }
    assert nums[..|nums|] == nums;
    forall m | MissingFrom(nums, m)
      ensures xor == m
    {
      MissingXorFinds(nums, m);
    }
    if Words(nums) && |nums| < Pow2(32) {
      XorUpToWidth(|nums| + 1);
      XorAllWidth(nums);
      XorWidth(upTo, XorAll(nums), 32);
    }
  }

  /** `SingleNumber`: XOR of every element. */
  method SingleNumber(nums: seq<nat>) returns (res: nat)
    ensures res == XorAll(nums)
    ensures forall x :: OddOneOut(nums, x) ==> res == x
    ensures Words(nums) ==> res < Pow2(32)
  {
    res := 0;
    for j := 0 to |nums|
      invariant res == Xor(0, XorAll(nums[..j]))
    {
      XorPrefix(nums, j, 0);
      res := Xor(res, nums[j]);
    }
    assert nums[..|nums|] == nums;
    forall x | OddOneOut(nums, x)
      ensures res == x
    {
      XorOddOneOut(nums, x);
    }
    if Words(nums) {
      XorAllWidth(nums);
    }
  }

  /** The demo: in [4, 1, 2, 1, 2] every value but 4 occurs twice, and the fold is 4. */
  lemma SingleDemo()
    ensures OddOneOut([4, 1, 2, 1, 2], 4)
    ensures XorAll([4, 1, 2, 1, 2]) == 4
  {
    var s: seq<nat> := [4, 1, 2, 1, 2];
    assert s[..4] == [4, 1, 2, 1] && s[..4][..3] == [4, 1, 2] && s[..4][..3][..2] == [4, 1] && [4, 1][..1] == [4] && [4][..0] == [];
    forall y
      ensures Count(s, y) == (if y == 4 then 1 else 0) + (if y == 1 || y == 2 then 2 else 0)
    {
      assert Count([4], y) == if y == 4 then 1 else 0;
      assert Count([4, 1], y) == Count([4], y) + if y == 1 then 1 else 0;
      assert Count([4, 1, 2], y) == Count([4, 1], y) + if y == 2 then 1 else 0;
      assert Count([4, 1, 2, 1], y) == Count([4, 1, 2], y) + if y == 1 then 1 else 0;
    }
    XorOddOneOut(s, 4);
  }
}
