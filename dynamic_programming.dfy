/**
 * The two rolling-pair loops of NEXT_LEVEL_ALGORITHMS.cs: `Fibonacci` and
 * `ClimbStairs`. Both keep the last two values of a recurrence in `a` and
 * `b` and shift them along.
 */
module DynamicProgramming {

  /** The Fibonacci numbers: F(0) = 0, F(1) = 1, F(n) = F(n - 1) + F(n - 2). */
  function Fib(n: nat): nat
  {
    if n <= 1 then n else Fib(n - 1) + Fib(n - 2)
  }

  /**
   * `Fibonacci`: `n` itself when `n <= 1` (a negative argument comes back
   * unchanged), otherwise F(n).
   */
  method Fibonacci(n: int) returns (r: int)
    ensures n <= 1 ==> r == n
    ensures n >= 0 ==> r == Fib(n)
  {
    if n <= 1 {
      return n;
    }
    var a, b := 0, 1;
    for i := 2 to n + 1
      invariant a == Fib(i - 2) && b == Fib(i - 1)
    {
      var c := a + b;
      a := b;
      b := c;
    }
    return b;
  }

  /**
   * The number of ways to climb `n >= 1` stairs taking one or two at a time:
   * the first step is one stair (then `n - 1` remain) or two (then `n - 2`).
   * With nothing left there is one way, the empty climb.
   */
  function Ways(n: nat): nat
  {
    if n <= 1 then 1 else Ways(n - 1) + Ways(n - 2)
  }

  /** The number of climbs is a Fibonacci number, one place on. */
  lemma {:induction false} WaysIsFib(n: nat)
    ensures Ways(n) == Fib(n + 1)
  {
    if n >= 2 {
      WaysIsFib(n - 1);
      WaysIsFib(n - 2);
    }
  }

  /**
   * `ClimbStairs`: `n` itself when `n <= 2` (so 0 for no stairs, and a
   * negative argument unchanged), otherwise the number of climbs, computed
   * from `a = 1`, `b = 2` upwards.
   */
  method ClimbStairs(n: int) returns (r: int)
    ensures n <= 2 ==> r == n
    ensures n >= 1 ==> r == Ways(n)
  {
    if n <= 2 {
      return n;
    }
    var a, b := 1, 2;
    for i := 3 to n + 1
      invariant a == Ways(i - 2) && b == Ways(i - 1)
    {
      var c := a + b;
      a := b;
      b := c;
    }
    return b;
  }

  /** The demo values: `Fibonacci(10)` is 55 and `ClimbStairs(5)` is 8. */
  lemma Demo()
    ensures Fib(10) == 55
    ensures Ways(5) == 8
  {
    assert Fib(2) == 1 && Fib(3) == 2 && Fib(4) == 3 && Fib(5) == 5 && Fib(6) == 8;
    assert Fib(7) == 13 && Fib(8) == 21 && Fib(9) == 34;
    WaysIsFib(5);
  }
}
