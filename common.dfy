/** Values shared by the containers, the traversal layer and the graph algorithms:
    the Item contract, the item factories, the errors the containers report,
    and Option/Result. */
module Common {

  /** Go's `nil` versus a present value. */
  datatype Option<+T> = None | Some(value: T)

  /** The two container errors: inserting an empty item, removing from an empty container. */
  datatype Error = InvalidElement | EmptyContainer

  /** A value together with the error a Go function returns beside it. */
  datatype Result<+T> = Ok(value: T) | Fail(error: Error)

  /** An Item wraps a value and knows whether it is the "no value" sentinel.
      Every Item implementation of the repository compares items by their
      wrapped value, so `Equals` is value equality. */
  datatype Item<T(==)> = Item(value: T, empty: bool)
  {
    predicate IsEmpty() { empty }

    function Value(): T { value }

    predicate Equals(other: Item<T>) { value == other.value }
  }

  /** True when no item of `s` is the empty sentinel. */
  ghost predicate NoEmptyItems<T>(s: seq<Item<T>>)
  {
    forall i :: 0 <= i < |s| ==> !s[i].IsEmpty()
  }

  /** An item factory wraps a raw value into an Item. Every factory of the
      repository keeps the value and differs only in which value it treats as
      the sentinel, so a factory is given by that sentinel test. */
  datatype ItemFactory<!T(==)> = ItemFactory(isSentinel: T -> bool)
  {
    function Wrap(v: T): (it: Item<T>)
      ensures it.Value() == v
      ensures it.IsEmpty() <==> isSentinel(v)
    {
      Item(v, isSentinel(v))
    }
  }

  /** StringItemFactory: the empty string is the sentinel (also the factories
      of the DFS and BFS string items, which behave the same). */
  function StringItemFactory(): (f: ItemFactory<string>)
    ensures forall s: string :: f.Wrap(s).IsEmpty() <==> |s| == 0
  {
    ItemFactory(s => s == "")
  }

  /** IntItemFactory: 0 is the sentinel. */
  function IntItemFactory(): (f: ItemFactory<int>)
    ensures forall n: int :: f.Wrap(n).IsEmpty() <==> n == 0
  {
    ItemFactory(n => n == 0)
  }

  /** A removal took one item: the old items are the new ones plus `it`. */
  ghost predicate TookOne<T>(before: seq<Item<T>>, after: seq<Item<T>>, it: Item<T>)
  {
    |before| == |after| + 1 && it in before
    && (forall x :: x in after ==> x in before)
    && (forall x :: x in before ==> x == it || x in after)
  }

  /** Removing the last item (a pop) takes one item. */
  lemma TakeLast<T>(before: seq<Item<T>>, after: seq<Item<T>>, it: Item<T>)
    requires before != [] && it == before[|before| - 1] && after == before[..|before| - 1]
    ensures TookOne(before, after, it)
  {
    assert before == after + [it];
  }

  /** Removing the first item (a dequeue) takes one item. */
  lemma TakeFirst<T>(before: seq<Item<T>>, after: seq<Item<T>>, it: Item<T>)
    requires before != [] && it == before[0] && after == before[1..]
    ensures TookOne(before, after, it)
  {
    assert before == [it] + after;
  }

  /** The set of the elements of a sequence. */
  function Elements<T>(s: seq<T>): set<T>
  {
    set x | x in s
  }

  /** Extending a sequence by one element adds that element to its set. */
  lemma ElementsSnoc<T>(s: seq<T>, x: T)
    ensures Elements(s + [x]) == Elements(s) + {x}
  {
    assert forall y :: y in s + [x] <==> y in s || y == x;
  }
}
