/** HowSum: one way to write a target as a sum of elements of an array (each
    usable any number of times), or nil when there is none. The memo maps a
    remainder to the answer last computed for it. */
module HowSumming {
  import opened Common
  import opened CanSumming

  /** The value HowSum computes: the empty list for 0, nil below 0, and above
      0 the first element whose remainder has a decomposition, appended to
      that decomposition. */
  function Decomposition(target: int, arr: seq<int>): Option<seq<int>>
    requires Positive(arr)
    decreases target, 1
  {
    if target == 0 then Some([])
    else if target < 0 then None
    else DecompositionFrom(target, arr, 0)
  }

  /** The loop of HowSum from element i on. */
  function DecompositionFrom(target: int, arr: seq<int>, i: int): Option<seq<int>>
    requires Positive(arr) && 0 <= i <= |arr| && target > 0
    decreases target, 0, |arr| - i
  {
    if i == |arr| then None
    else
      match Decomposition(target - arr[i], arr)
      case Some(s) => Some(s + [arr[i]])
      case None => DecompositionFrom(target, arr, i + 1)
  }

  /** A decomposition sums to the target and uses only elements of the array. */
  lemma {:induction false} DecompositionSound(target: int, arr: seq<int>)
    requires Positive(arr)
    ensures Decomposition(target, arr).Some? ==>
              var s := Decomposition(target, arr).value;
              Sum(s) == target && DrawnFrom(s, arr)
    decreases target, 1
  {
    if target > 0 {
      DecompositionFromSound(target, arr, 0);
    }
  }

  lemma {:induction false} DecompositionFromSound(target: int, arr: seq<int>, i: int)
    requires Positive(arr) && 0 <= i <= |arr| && target > 0
    ensures DecompositionFrom(target, arr, i).Some? ==>
              var s := DecompositionFrom(target, arr, i).value;
              Sum(s) == target && DrawnFrom(s, arr)
    decreases target, 0, |arr| - i
  {
    if i < |arr| {
      var rest := Decomposition(target - arr[i], arr);
      DecompositionSound(target - arr[i], arr);
      if rest.Some? {
        AppendSound(rest.value, arr, i);
      } else {
        DecompositionFromSound(target, arr, i + 1);
      }
    }
  }

  /** Appending element i to a sequence drawn from the array adds arr[i] to its sum. */
  lemma AppendSound(s: seq<int>, arr: seq<int>, i: int)
    requires 0 <= i < |arr| && DrawnFrom(s, arr)
    ensures Sum(s + [arr[i]]) == Sum(s) + arr[i] && DrawnFrom(s + [arr[i]], arr)
  {
    var t := s + [arr[i]];
    assert t[..|t| - 1] == s;
    forall k | 0 <= k < |t| ensures t[k] in arr {
      if k < |s| {
        assert t[k] == s[k];
      }
    }
  }

  /** HowSum answers nil exactly when CanSum answers false. */
  lemma {:induction false} DecompositionExactlyWhenSummable(target: int, arr: seq<int>)
    requires Positive(arr)
    ensures Decomposition(target, arr).Some? <==> Summable(target, arr)
    decreases target, 1
  {
    if target > 0 {
      DecompositionFromExactlyWhenSummableFrom(target, arr, 0);
    }
  }

  lemma {:induction false} DecompositionFromExactlyWhenSummableFrom(target: int, arr: seq<int>, i: int)
    requires Positive(arr) && 0 <= i <= |arr| && target > 0
    ensures DecompositionFrom(target, arr, i).Some? <==> SummableFrom(target, arr, i)
    decreases target, 0, |arr| - i
  {
    if i < |arr| {
      DecompositionExactlyWhenSummable(target - arr[i], arr);
      DecompositionFromExactlyWhenSummableFrom(target, arr, i + 1);
    }
  }

  /** Above 0, HowSum answers nil exactly when no element leaves a remainder
      with a decomposition. */
  lemma NoDecomposition(target: int, arr: seq<int>)
    requires Positive(arr) && target > 0
    ensures Decomposition(target, arr).None? <==>
              forall i :: 0 <= i < |arr| ==> Decomposition(target - arr[i], arr).None?
  {
    DecompositionExactlyWhenSummable(target, arr);
    SummableStep(target, arr);
    forall i | 0 <= i < |arr| {
      DecompositionExactlyWhenSummable(target - arr[i], arr);
    }
  }

  /** CanSum is sound: a summable target is the sum of some sequence of elements. */
  lemma SummableHasWitness(target: int, arr: seq<int>)
    requires Positive(arr) && Summable(target, arr)
    ensures exists s :: DrawnFrom(s, arr) && Sum(s) == target
  {
    DecompositionExactlyWhenSummable(target, arr);
    DecompositionSound(target, arr);
    var s := Decomposition(target, arr).value;
    assert DrawnFrom(s, arr) && Sum(s) == target;
  }

  class Memo {
    var memo: map<int, Option<seq<int>>>

    /** The package starts with an empty memo. */
    constructor ()
      ensures memo == map[]
    {
      memo := map[];
    }

    /** HowSum: the empty list for 0, nil below 0; otherwise each element in
        turn stores the recursive answer under its remainder and, when that is
        not nil, returns it with the element appended; nil when none works.
        The result does not depend on what the memo held, and every entry
        written holds the answer for its key. */
    method HowSum(target: int, arr: seq<int>) returns (r: Option<seq<int>>)
      requires Positive(arr)
      modifies this
      ensures r == Decomposition(target, arr)
      ensures forall k :: k in memo ==>
                (k in old(memo) && memo[k] == old(memo)[k]) || memo[k] == Decomposition(k, arr)
      decreases target
    {
      if target == 0 {
        return Some([]);
      }
      if target < 0 {
        return None;
      }
      var result: seq<int> := [];
      var i := 0;
      while i < |arr|
        invariant 0 <= i <= |arr|
        invariant DecompositionFrom(target, arr, 0) == DecompositionFrom(target, arr, i)
        invariant forall k :: k in memo ==>
                    (k in old(memo) && memo[k] == old(memo)[k]) || memo[k] == Decomposition(k, arr)
      {
        var n := arr[i];
        var rest := target - n;
        var sub := HowSum(rest, arr);
        memo := memo[rest := sub];
        if memo[rest].Some? {
          result := memo[rest].value + [n];
          return Some(result);
        }
        i := i + 1;
      }
      return None;
    }
  }

  /** With 14 and 5, 100 has a decomposition (twenty 5s is one), so HowSum
      returns a list of 14s and 5s summing to 100. */
  method HowSumScenario() returns (r: Option<seq<int>>)
    ensures r.Some? && Sum(r.value) == 100 && DrawnFrom(r.value, [14, 5])
  {
    var m := new Memo();
    r := m.HowSum(100, [14, 5]);
    DecompositionSound(100, [14, 5]);
    assert Summable(100, [5]) by {
      var twenty := seq(20, k => 5);
      SumOfFives(twenty);
      SummableComplete(twenty, [5]);
    }
    SummableMoreElements(100, [5], [14, 5]);
    DecompositionExactlyWhenSummable(100, [14, 5]);
  }

  lemma {:induction false} SumOfFives(s: seq<int>)
    requires forall k :: 0 <= k < |s| ==> s[k] == 5
    ensures Sum(s) == 5 * |s|
    decreases |s|
  {
    if s != [] {
      SumOfFives(s[..|s| - 1]);
    }
  }

  /** Allowing more elements keeps every summable target summable. */
  lemma SummableMoreElements(target: int, arr: seq<int>, more: seq<int>)
    requires Positive(arr) && Positive(more) && Summable(target, arr)
    requires forall i :: 0 <= i < |arr| ==> arr[i] in more
    ensures Summable(target, more)
  {
    SummableHasWitness(target, arr);
    var s :| DrawnFrom(s, arr) && Sum(s) == target;
    SummableComplete(s, more);
  }
}
