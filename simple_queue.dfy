/** The generic FIFO queue of Items. */
module SimpleQueue {
  import opened Common

  class Queue<T(==)> {
    /** Front to back: the first element is the next to leave. */
    var elements: seq<Item<T>>

    /** Enqueue is the only insertion path and it refuses empty items. */
    ghost predicate Valid()
      reads this
    {
      NoEmptyItems(elements)
    }

    /** NewQueue. */
    constructor ()
      ensures Valid() && elements == []
    {
      elements := [];
    }

    /** Adds `item` at the back, or fails with InvalidElement and leaves the queue alone. */
    method Enqueue(item: Item<T>) returns (err: Option<Error>)
      requires Valid()
      modifies this
      ensures Valid()
      ensures err == (if item.IsEmpty() then Some(InvalidElement) else None)
      ensures elements == if item.IsEmpty() then old(elements) else old(elements) + [item]
    {
      if item.IsEmpty() {
        return Some(InvalidElement);
      }
      elements := elements + [item];
      return None;
    }

    /** Removes and returns the front item; fails with EmptyContainer on an empty queue. */
    method Dequeue() returns (r: Result<Item<T>>)
      requires Valid()
      modifies this
      ensures Valid()
      ensures old(elements) == [] ==> r == Fail(EmptyContainer) && elements == []
      ensures old(elements) != [] ==> r == Ok(old(elements)[0]) && elements == old(elements)[1..]
    {
      if |elements| == 0 {
        return Fail(EmptyContainer);
      }
      var element := elements[0];
      elements := elements[1..];
      return Ok(element);
    }

    /** The front item without removing it; None (Go's zero item) when the queue is empty. */
    method Peek() returns (r: Option<Item<T>>)
      requires Valid()
      ensures elements == [] <==> r == None
      ensures r.Some? ==> r.value == elements[0] && !r.value.IsEmpty()
    {
      if |elements| == 0 {
        return None;
      }
      return Some(elements[0]);
    }

    method IsEmpty() returns (b: bool)
      ensures b <==> elements == []
    {
      return |elements| == 0;
    }

    method Size() returns (n: nat)
      ensures n == |elements|
    {
      return |elements|;
    }

    /** Removes every element. */
    method Clear()
      modifies this
      ensures Valid() && elements == []
    {
      elements := [];
    }

    /** The elements front to back, that is, in enqueue order. */
    method ToSlice() returns (s: seq<Item<T>>)
      requires Valid()
      ensures s == elements && NoEmptyItems(s)
    {
      return elements;
    }

    /** Linear scan with Equals; false for an empty probe. */
    method Contains(item: Item<T>) returns (found: bool)
      ensures found <==> !item.IsEmpty() && exists i :: 0 <= i < |elements| && elements[i].Equals(item)
    {
      if item.IsEmpty() {
        return false;
      }
      var i := 0;
      while i < |elements|
        invariant 0 <= i <= |elements|
        invariant forall j :: 0 <= j < i ==> !elements[j].Equals(item)
      {
        if elements[i].Equals(item) {
          return true;
        }
        i := i + 1;
      }
      return false;
    }
  }

  /** FIFO: after enqueuing `a` and then `b` on an empty queue, two dequeues
      return `a` and then `b` and leave the queue empty. */
  method EnqueueTwiceDequeueTwice<T(==)>(q: Queue<T>, a: Item<T>, b: Item<T>)
    returns (first: Result<Item<T>>, second: Result<Item<T>>)
    requires q.Valid() && q.elements == [] && !a.IsEmpty() && !b.IsEmpty()
    modifies q
    ensures q.Valid() && first == Ok(a) && second == Ok(b) && q.elements == []
  {
    var _ := q.Enqueue(a);
    var _ := q.Enqueue(b);
    first := q.Dequeue();
    second := q.Dequeue();
  }

  /** An empty item is refused and a dequeue of the empty queue fails, both
      without changing the queue. */
  method RefusalScenario() returns (err: Option<Error>, r: Result<Item<string>>, size: nat)
    ensures err == Some(InvalidElement) && r == Fail(EmptyContainer) && size == 0
  {
    var q := new Queue<string>();
    err := q.Enqueue(StringItemFactory().Wrap(""));
    r := q.Dequeue();
    size := q.Size();
  }
}
