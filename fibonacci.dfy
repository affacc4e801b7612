/** `fibonacci_sum`: the sum of the first `n` Fibonacci numbers. */
module Fibonacci {

  /** F(0) = 0, F(1) = 1, F(k) = F(k-1) + F(k-2). */
  function Fib(n: nat): nat
  {
    if n < 2 then n else Fib(n - 1) + Fib(n - 2)
  }

  /** F(0) + F(1) + ... + F(n-1). */
  function FibPrefixSum(n: nat): nat
  {
    if n == 0 then 0 else FibPrefixSum(n - 1) + Fib(n - 1)
  }

  /** The closed form of the prefix sum: F(0) + ... + F(n-1) = F(n+1) - 1. */
  lemma {:induction false} FibPrefixSumClosedForm(n: nat)
    ensures FibPrefixSum(n) == Fib(n + 1) - 1
  {
    if n > 0 {
      FibPrefixSumClosedForm(n - 1);
    }
  }

  /**
   * The loop carries `(a, b) = (F(k), F(k+1))` and adds `a` to the running
   * total `n` times, so it returns F(0) + ... + F(n-1).
   */
  method FibonacciSum(n: nat) returns (total: nat)
    ensures total == FibPrefixSum(n)
    ensures total == Fib(n + 1) - 1
  {
    var a: nat, b: nat := 0, 1;
    total := 0;
    for k := 0 to n
      invariant a == Fib(k) && b == Fib(k + 1)
      invariant total == FibPrefixSum(k)
    {
      total := total + a;
      a, b := b, a + b;
    }
    FibPrefixSumClosedForm(n);
  }

}
