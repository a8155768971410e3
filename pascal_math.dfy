/** Binomial coefficients, Fibonacci numbers and the shallow-diagonal identity
    that makes the hovered row's diagonal sum a Fibonacci number. */
module PascalMath {

  /** C(n, k); zero above the main diagonal (k > n). */
  function Binom(n: nat, k: nat): nat
    decreases n
  {
    if k > n then 0
    else if k == 0 || k == n then 1
    else Binom(n - 1, k - 1) + Binom(n - 1, k)
  }

  /** Fibonacci numbers with Fib(0) = 0, Fib(1) = Fib(2) = 1. */
  function Fib(n: nat): nat
  {
    if n == 0 then 0
    else if n == 1 then 1
    else Fib(n - 1) + Fib(n - 2)
  }

  /** Sum of the cells (n, k), (n - 1, k + 1), (n - 2, k + 2), ... of Pascal's
      triangle, stopping at the first cell whose column exceeds its row. */
  function DiagSum(n: int, k: nat): nat
    decreases n + 1
  {
    if n < 0 || k > n then 0
    else Binom(n, k) + DiagSum(n - 1, k + 1)
  }

  /** Pascal's rule, including the edge k == n where C(n - 1, n) is zero. */
  lemma PascalRule(n: nat, k: nat)
    requires 1 <= k <= n
    ensures Binom(n, k) == Binom(n - 1, k - 1) + Binom(n - 1, k)
  {
  }

  /** A shallow diagonal splits into the two diagonals starting one row up. */
  lemma {:induction false} DiagSumSplit(n: int, k: nat)
    requires k >= 1
    ensures DiagSum(n, k) == DiagSum(n - 1, k) + DiagSum(n - 1, k - 1)
    decreases n + 1
  {
    if n < 0 || k > n {
      assert DiagSum(n - 1, k) == 0;
      assert DiagSum(n - 1, k - 1) == 0;
    } else {
      PascalRule(n, k);
      DiagSumSplit(n - 1, k + 1);
      assert DiagSum(n - 1, k - 1) == Binom(n - 1, k - 1) + DiagSum(n - 2, k);
      if k == n {
        assert DiagSum(n - 1, k) == 0;
        assert DiagSum(n - 2, k + 1) == 0;
      } else {
        assert DiagSum(n - 1, k) == Binom(n - 1, k) + DiagSum(n - 2, k + 1);
      }
    }
  }

  /** The shallow diagonal that starts at (n, 0) sums to the Fibonacci number
      F(n + 1): sum over j of C(n - j, j) equals F(n + 1). */
  lemma {:induction false} DiagonalIsFibonacci(n: nat)
    ensures DiagSum(n, 0) == Fib(n + 1)
  {
    if n == 0 {
      assert DiagSum(-1, 1) == 0;
    } else if n == 1 {
      assert DiagSum(0, 1) == 0;
    } else {
      DiagonalIsFibonacci(n - 1);
      DiagonalIsFibonacci(n - 2);
      DiagSumSplit(n - 1, 1);
      assert DiagSum(n, 0) == 1 + DiagSum(n - 1, 1);
      assert DiagSum(n - 1, 0) == 1 + DiagSum(n - 2, 1);
    }
  }
}
