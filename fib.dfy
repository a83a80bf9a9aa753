/** Fib: the Fibonacci numbers, memoised in a package-level map that lives
    across calls, here the field of one Memo object. */
module Fibonacci {

  /** The value Fib computes: n itself for every n <= 1 (negative n included),
      the sum of the two previous values above that. */
  function Fibonacci(n: int): int
    decreases n
  {
    if n <= 1 then n else Fibonacci(n - 1) + Fibonacci(n - 2)
  }

  class Memo {
    var memo: map<int, int>

    /** Every stored entry is the Fibonacci value of its key, and only keys of
        at least 2 are ever stored. */
    ghost predicate Valid()
      reads this
    {
      forall k :: k in memo ==> k >= 2 && memo[k] == Fibonacci(k)
    }

    /** The package starts with an empty memo. */
    constructor ()
      ensures Valid() && memo == map[]
    {
      memo := map[];
    }

    /** Fib: a stored entry if there is one; n for n <= 1; otherwise the sum
        of the two recursive calls, stored before it is returned. The result
        is the Fibonacci value whatever the memo held, and entries are only
        ever added. */
    method Fib(n: int) returns (r: int)
      requires Valid()
      modifies this
      ensures Valid() && r == Fibonacci(n)
      ensures old(memo).Keys <= memo.Keys
      ensures n >= 2 ==> n in memo
      decreases n
    {
      if n in memo {
        return memo[n];
      }
      if n <= 1 {
        return n;
      }
      var a := Fib(n - 1);
      var b := Fib(n - 2);
      memo := memo[n := a + b];
      return memo[n];
    }
  }

  /** The Fibonacci values of natural numbers are natural and never decrease. */
  lemma {:induction false} FibonacciGrows(n: nat)
    ensures 0 <= Fibonacci(n) <= Fibonacci(n + 1)
    decreases n
  {
    if n >= 2 {
      FibonacciGrows(n - 1);
      FibonacciGrows(n - 2);
    }
  }

  /** A second call is answered from the memo with the same value. */
  method FibScenario() returns (first: int, second: int)
    ensures first == 55 && second == 55
  {
    var m := new Memo();
    first := m.Fib(10);
    assert 10 in m.memo;
    second := m.Fib(10);
  }
}
