/** Lesson2 Fibonacci: the doubly recursive definition and the two-variable loop. Both
    return `n` itself for n <= 1, negative `n` included. Go's int overflow for large `n`
    is not modelled: integers here are unbounded. */
module Fibonacci {

  /** fibonacciRecursive. */
  function FibonacciRecursive(n: int): (r: int)
    ensures n >= 0 ==> r >= 0
    ensures n >= 2 ==> r >= n - 1
    decreases n
  {
    if n <= 1 then n else FibonacciRecursive(n - 1) + FibonacciRecursive(n - 2)
  }

  /** fibonacciIterative: after the iteration for `i`, the pair (a, b) holds the
      (i-1)-th and i-th Fibonacci numbers. */
  method FibonacciIterative(n: int) returns (r: int)
    ensures r == FibonacciRecursive(n)
  {
    if n <= 1 {
      return n;
    }
    var a, b := 0, 1;
    var i := 2;
    while i <= n
      invariant 2 <= i <= n + 1
      invariant a == FibonacciRecursive(i - 2) && b == FibonacciRecursive(i - 1)
    {
      a, b := b, a + b;
      i := i + 1;
    }
    return b;
  }

  /** The sequence is non-decreasing from 0 on. */
  lemma {:induction false} FibonacciMonotone(m: int, n: int)
    requires 0 <= m <= n
    ensures FibonacciRecursive(m) <= FibonacciRecursive(n)
    decreases n - m
  {
    if m < n {
      FibonacciMonotone(m, n - 1);
      if n >= 2 {
        assert FibonacciRecursive(n) == FibonacciRecursive(n - 1) + FibonacciRecursive(n - 2);
      }
    }
  }
}
