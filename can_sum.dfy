/** CanSum: whether a target is a sum of elements of an array, each usable
    any number of times. The package-level memo is written but never read
    before it is written. */
module CanSumming {

  /** Every element is positive: the recursion then strictly lowers the target. */
  predicate Positive(arr: seq<int>)
  {
    forall i :: 0 <= i < |arr| ==> arr[i] > 0
  }

  /** The value CanSum computes: true for 0, false below 0, and above 0 true
      when some element leaves a remainder that can be summed. */
  function Summable(target: int, arr: seq<int>): bool
    requires Positive(arr)
    decreases target, 1
  {
    if target == 0 then true
    else if target < 0 then false
    else SummableFrom(target, arr, 0)
  }

  /** The loop of CanSum from element i on: true at the first element whose
      remainder can be summed. */
  function SummableFrom(target: int, arr: seq<int>, i: int): bool
    requires Positive(arr) && 0 <= i <= |arr| && target > 0
    decreases target, 0, |arr| - i
  {
    if i == |arr| then false
    else Summable(target - arr[i], arr) || SummableFrom(target, arr, i + 1)
  }

  /** The loop from element i succeeds exactly when some element from i on leaves a summable remainder. */
  lemma {:induction false} SummableFromExists(target: int, arr: seq<int>, i: int)
    requires Positive(arr) && 0 <= i <= |arr| && target > 0
    ensures SummableFrom(target, arr, i) <==> exists j :: i <= j < |arr| && Summable(target - arr[j], arr)
    decreases |arr| - i
  {
    if i < |arr| {
      SummableFromExists(target, arr, i + 1);
    }
  }

  /** Above 0, a target can be summed exactly when some element leaves a
      remainder that can. */
  lemma SummableStep(target: int, arr: seq<int>)
    requires Positive(arr) && target > 0
    ensures Summable(target, arr) <==> exists i :: 0 <= i < |arr| && Summable(target - arr[i], arr)
  {
    SummableFromExists(target, arr, 0);
  }

  /** The sum of a sequence, last element added last. */
  function Sum(s: seq<int>): int
  {
    if s == [] then 0 else Sum(s[..|s| - 1]) + s[|s| - 1]
  }

  /** Every element of `s` is an element of `arr`. */
  predicate DrawnFrom(s: seq<int>, arr: seq<int>)
  {
    forall k :: 0 <= k < |s| ==> s[k] in arr
  }

  /** Completeness: a target that some sequence of elements sums to can be summed. */
  lemma {:induction false} SummableComplete(s: seq<int>, arr: seq<int>)
    requires Positive(arr) && DrawnFrom(s, arr)
    ensures Summable(Sum(s), arr)
    decreases |s|
  {
    if s != [] {
      var init := s[..|s| - 1];
      var a := s[|s| - 1];
      assert DrawnFrom(init, arr) by {
        forall k | 0 <= k < |init| ensures init[k] in arr {
          assert init[k] == s[k];
        }
      }
      SummableComplete(init, arr);
      SumOfDrawnIsNatural(init, arr);
      var i :| 0 <= i < |arr| && arr[i] == a;
      assert Sum(s) - arr[i] == Sum(init);
      SummableStep(Sum(s), arr);
    }
  }

  /** A sum of positive elements is not negative. */
  lemma {:induction false} SumOfDrawnIsNatural(s: seq<int>, arr: seq<int>)
    requires Positive(arr) && DrawnFrom(s, arr)
    ensures Sum(s) >= 0
    decreases |s|
  {
    if s != [] {
      var init := s[..|s| - 1];
      assert DrawnFrom(init, arr) by {
        forall k | 0 <= k < |init| ensures init[k] in arr {
          assert init[k] == s[k];
        }
      }
      SumOfDrawnIsNatural(init, arr);
      var i :| 0 <= i < |arr| && arr[i] == s[|s| - 1];
    }
  }

  class Memo {
    var memo: map<int, bool>

    /** The package starts with an empty memo. */
    constructor ()
      ensures memo == map[]
    {
      memo := map[];
    }

    /** CanSum: true for 0, false below 0; otherwise each element in turn
        stores the recursive answer for its remainder under the target and
        returns it when true; false when none is. The result does not depend
        on what the memo held. */
    method CanSum(target: int, arr: seq<int>) returns (r: bool)
      requires Positive(arr)
      modifies this
      ensures r == Summable(target, arr)
      ensures forall k :: k in memo && k !in old(memo) ==> 0 < k <= target
      decreases target
    {
      if target == 0 {
        return true;
      }
      if target < 0 {
        return false;
      }
      var i := 0;
      while i < |arr|
        invariant 0 <= i <= |arr|
        invariant SummableFrom(target, arr, 0) == SummableFrom(target, arr, i)
        invariant forall k :: k in memo && k !in old(memo) ==> 0 < k <= target
      {
        var rest := target - arr[i];
        var found := CanSum(rest, arr);
        memo := memo[target := found];
        if memo[target] {
          return memo[target];
        }
        i := i + 1;
      }
      return false;
    }
  }

  /** From an array with 5 and 3, 6 can be summed (3 + 3); from 2 and 4, 7 cannot. */
  method CanSumScenario() returns (six: bool, seven: bool)
    ensures six && !seven
  {
    var m := new Memo();
    six := m.CanSum(6, [5, 3, 4, 7]);
    seven := m.CanSum(7, [2, 4]);
    OddNotSummable(7, [2, 4]);
  }

  /** With only even elements, no odd target can be summed. */
  lemma {:induction false} OddNotSummable(target: int, arr: seq<int>)
    requires Positive(arr) && forall i :: 0 <= i < |arr| ==> arr[i] % 2 == 0
    requires target % 2 == 1
    ensures !Summable(target, arr)
    decreases target
  {
    if target > 0 {
      forall i | 0 <= i < |arr| ensures !Summable(target - arr[i], arr) {
        OddNotSummable(target - arr[i], arr);
      }
      SummableStep(target, arr);
    }
  }
}
