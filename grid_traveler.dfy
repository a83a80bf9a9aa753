/** GridTraveler: the number of ways to cross an x-by-y grid moving only down
    or right, memoised in a package-level map of maps. */
module GridTraveling {

  /** The value GridTraveler computes: 0 for an empty grid (a zero side,
      whatever the other one is), 1 for a single cell, otherwise the ways
      after a first step down plus those after a first step right. */
  function Routes(x: int, y: int): int
    requires x == 0 || y == 0 || (x >= 0 && y >= 0)
    decreases x + y
  {
    if x == 0 || y == 0 then 0
    else if x == 1 && y == 1 then 1
    else Routes(x - 1, y) + Routes(x, y - 1)
  }

  /** Every entry of a memo is the Routes value of its coordinates, and no
      base case (an empty grid, a single cell) is stored. */
  ghost predicate Stored(memo: map<int, map<int, int>>)
  {
    forall x, y :: x in memo && y in memo[x] ==>
      x >= 1 && y >= 1 && !(x == 1 && y == 1) && memo[x][y] == Routes(x, y)
  }

  /** Adding an empty inner map keeps a memo correct. */
  lemma AddRowKeepsStored(memo: map<int, map<int, int>>, x: int)
    requires Stored(memo)
    ensures Stored(memo[x := map[]])
  {
  }

  /** Storing the Routes value of a non-base cell keeps a memo correct. */
  lemma StoreKeepsStored(memo: map<int, map<int, int>>, x: int, y: int)
    requires Stored(memo) && x in memo
    requires x >= 1 && y >= 1 && !(x == 1 && y == 1)
    ensures Stored(memo[x := memo[x][y := Routes(x, y)]])
  {
  }

  class Memo {
    var memo: map<int, map<int, int>>

    /** Every stored entry is the Routes value of its coordinates, and the base
        cases (an empty grid, a single cell) are never stored. */
    ghost predicate Valid()
      reads this
    {
      Stored(memo)
    }

    /** The package starts with an empty memo. */
    constructor ()
      ensures Valid() && memo == map[]
    {
      memo := map[];
    }

    /** GridTraveler: a stored entry if there is one; the base cases; otherwise
        the inner map for x is created when missing and the sum of the two
        recursive calls is stored and returned. */
    method GridTraveler(x: int, y: int) returns (r: int)
      requires x == 0 || y == 0 || (x >= 0 && y >= 0)
      requires Valid()
      modifies this
      ensures Valid() && r == Routes(x, y)
      ensures old(memo).Keys <= memo.Keys
      decreases x + y
    {
      if x in memo && y in memo[x] {
        return memo[x][y];
      }
      if x == 0 || y == 0 {
        return 0;
      }
      if x == 1 && y == 1 {
        return 1;
      }
      if x !in memo {
        AddRowKeepsStored(memo, x);
        memo := memo[x := map[]];
      }
      var down := GridTraveler(x - 1, y);
      var right := GridTraveler(x, y - 1);
      assert down + right == Routes(x, y);
      StoreKeepsStored(memo, x, y);
      memo := memo[x := memo[x][y := down + right]];
      r := memo[x][y];
    }
  }

  /** Pascal's triangle: the number of ways to choose k things out of n. */
  function Binomial(n: nat, k: nat): nat
    requires k <= n
  {
    if k == 0 || k == n then 1 else Binomial(n - 1, k - 1) + Binomial(n - 1, k)
  }

  /** A route across an x-by-y grid is a choice of which x - 1 of its
      x + y - 2 steps go down. */
  lemma {:induction false} RoutesAreBinomial(x: nat, y: nat)
    requires x >= 1 && y >= 1
    ensures Routes(x, y) == Binomial(x + y - 2, x - 1)
    decreases x + y
  {
    if x == 1 && y == 1 {
    } else if x == 1 {
      RoutesAreBinomial(1, y - 1);
    } else if y == 1 {
      RoutesAreBinomial(x - 1, 1);
    } else {
      RoutesAreBinomial(x - 1, y);
      RoutesAreBinomial(x, y - 1);
    }
  }

  /** Crossing a grid one way has as many routes as crossing it the other way. */
  lemma {:induction false} RoutesSymmetric(x: nat, y: nat)
    ensures Routes(x, y) == Routes(y, x)
    decreases x + y
  {
    if x >= 1 && y >= 1 && !(x == 1 && y == 1) {
      if x >= 2 {
        RoutesSymmetric(x - 1, y);
      }
      if y >= 2 {
        RoutesSymmetric(x, y - 1);
      }
    }
  }

  /** A zero side gives 0 routes even when the other side is negative: such
      cells are never stored, so the lookup misses and the base case answers. */
  method NegativeSideScenario() returns (r: int, s: int)
    ensures r == 0 && s == 0
  {
    var m := new Memo();
    r := m.GridTraveler(-3, 0);
    s := m.GridTraveler(0, -3);
  }

  /** A 3-by-3 grid has 6 routes; asking again reads the memo. */
  method GridScenario() returns (first: int, second: int)
    ensures first == 6 && second == 6
  {
    var m := new Memo();
    first := m.GridTraveler(3, 3);
    second := m.GridTraveler(3, 3);
  }
}
