/** The generic LIFO stack of Items. */
module SimpleStack {
  import opened Common

  class Stack<T(==)> {
    /** Bottom to top: the last element is the top. */
    var elements: seq<Item<T>>

    /** Push is the only insertion path and it refuses empty items. */
    ghost predicate Valid()
      reads this
    {
      NoEmptyItems(elements)
    }

    /** NewStack. */
    constructor ()
      ensures Valid() && elements == []
    {
      elements := [];
    }

    /** Adds `item` on top, or fails with InvalidElement and leaves the stack alone. */
    method Push(item: Item<T>) returns (err: Option<Error>)
      requires Valid()
      modifies this
      ensures Valid()
      ensures err == (if item.IsEmpty() then Some(InvalidElement) else None)
      ensures elements == if item.IsEmpty() then old(elements) else old(elements) + [item]
    {
      if item.IsEmpty() {
        return Some(InvalidElement);
      }
      elements := elements + [item];
      return None;
    }

    /** Removes and returns the top item; fails with EmptyContainer on an empty stack. */
    method Pop() returns (r: Result<Item<T>>)
      requires Valid()
      modifies this
      ensures Valid()
      ensures old(elements) == [] ==> r == Fail(EmptyContainer) && elements == []
      ensures old(elements) != [] ==>
                r == Ok(old(elements)[|old(elements)| - 1]) && elements == old(elements)[..|old(elements)| - 1]
    {
      if |elements| == 0 {
        return Fail(EmptyContainer);
      }
      var element := elements[|elements| - 1];
      elements := elements[..|elements| - 1];
      return Ok(element);
    }

    /** The top item without removing it; None (Go's zero item) when the stack is empty. */
    method Peek() returns (r: Option<Item<T>>)
      requires Valid()
      ensures elements == [] <==> r == None
      ensures r.Some? ==> r.value == elements[|elements| - 1] && !r.value.IsEmpty()
    {
      if |elements| == 0 {
        return None;
      }
      return Some(elements[|elements| - 1]);
    }

    method IsEmpty() returns (b: bool)
      ensures b <==> elements == []
    {
      return |elements| == 0;
    }

    method Size() returns (n: nat)
      ensures n == |elements|
    {
      return |elements|;
    }

    /** Removes every element. */
    method Clear()
      modifies this
      ensures Valid() && elements == []
    {
      elements := [];
    }

    /** The elements bottom to top, that is, in push order. */
    method ToSlice() returns (s: seq<Item<T>>)
      requires Valid()
      ensures s == elements && NoEmptyItems(s)
    {
      return elements;
    }

    /** Linear scan with Equals; false for an empty probe. */
    method Contains(item: Item<T>) returns (found: bool)
      ensures found <==> !item.IsEmpty() && exists i :: 0 <= i < |elements| && elements[i].Equals(item)
    {
      if item.IsEmpty() {
        return false;
      }
      var i := 0;
      while i < |elements|
        invariant 0 <= i <= |elements|
        invariant forall j :: 0 <= j < i ==> !elements[j].Equals(item)
      {
        if elements[i].Equals(item) {
          return true;
        }
        i := i + 1;
      }
      return false;
    }
  }

  /** LIFO: a successful push followed by a pop returns the pushed item and
      restores the previous contents. */
  method PushThenPop<T(==)>(s: Stack<T>, item: Item<T>) returns (r: Result<Item<T>>)
    requires s.Valid() && !item.IsEmpty()
    modifies s
    ensures s.Valid() && r == Ok(item) && s.elements == old(s.elements)
  {
    var _ := s.Push(item);
    r := s.Pop();
  }

  /** Pushing 1 and then 2 on a fresh stack pops 2, then 1, then fails. */
  method PushPopScenario() returns (first: Result<Item<int>>, second: Result<Item<int>>, third: Result<Item<int>>)
    ensures first == Ok(IntItemFactory().Wrap(2)) && second == Ok(IntItemFactory().Wrap(1)) && third == Fail(EmptyContainer)
  {
    var s := new Stack<int>();
    var _ := s.Push(IntItemFactory().Wrap(1));
    var _ := s.Push(IntItemFactory().Wrap(2));
    first := s.Pop();
    second := s.Pop();
    third := s.Pop();
  }
}
