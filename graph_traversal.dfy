/** The transporter layer: one add/next/empty interface over either a stack
    or a queue, so that a graph algorithm is written once and its visiting
    order is chosen by the caller. */
module GraphTraversal {
  import opened Common
  import opened SimpleStack
  import opened SimpleQueue

  /** Go's TraversalStrategy is an int; only these two values are recognised. */
  type TraversalStrategy = int
  const StackTraversal: TraversalStrategy := 0
  const QueueTraversal: TraversalStrategy := 1

  /** Adapts a stack: `Next` is `Pop`. */
  class StackTransporter<T(==)> {
    const stack: Stack<T>
    const itemFactory: ItemFactory<T>

    constructor (itemFactory: ItemFactory<T>)
      ensures fresh(stack) && stack.Valid() && stack.elements == []
      ensures this.itemFactory == itemFactory
    {
      stack := new Stack<T>();
      this.itemFactory := itemFactory;
    }

    method Next() returns (r: Result<Item<T>>)
      requires stack.Valid()
      modifies stack
      ensures stack.Valid()
      ensures old(stack.elements) == [] ==> r == Fail(EmptyContainer) && stack.elements == []
      ensures old(stack.elements) != [] ==>
                r == Ok(old(stack.elements)[|old(stack.elements)| - 1])
                && stack.elements == old(stack.elements)[..|old(stack.elements)| - 1]
    {
      r := stack.Pop();
    }

    method Add(v: T) returns (err: Option<Error>)
      requires stack.Valid()
      modifies stack
      ensures stack.Valid()
      ensures err == (if itemFactory.Wrap(v).IsEmpty() then Some(InvalidElement) else None)
      ensures stack.elements == if err.Some? then old(stack.elements) else old(stack.elements) + [itemFactory.Wrap(v)]
    {
      err := stack.Push(itemFactory.Wrap(v));
    }

    method IsEmpty() returns (b: bool)
      ensures b <==> stack.elements == []
    {
      b := stack.IsEmpty();
    }
  }

  /** Adapts a queue: `Next` is `Dequeue`. */
  class QueueTransporter<T(==)> {
    const queue: Queue<T>
    const itemFactory: ItemFactory<T>

    constructor (itemFactory: ItemFactory<T>)
      ensures fresh(queue) && queue.Valid() && queue.elements == []
      ensures this.itemFactory == itemFactory
    {
      queue := new Queue<T>();
      this.itemFactory := itemFactory;
    }

    method Next() returns (r: Result<Item<T>>)
      requires queue.Valid()
      modifies queue
      ensures queue.Valid()
      ensures old(queue.elements) == [] ==> r == Fail(EmptyContainer) && queue.elements == []
      ensures old(queue.elements) != [] ==>
                r == Ok(old(queue.elements)[0]) && queue.elements == old(queue.elements)[1..]
    {
      r := queue.Dequeue();
    }

    method Add(v: T) returns (err: Option<Error>)
      requires queue.Valid()
      modifies queue
      ensures queue.Valid()
      ensures err == (if itemFactory.Wrap(v).IsEmpty() then Some(InvalidElement) else None)
      ensures queue.elements == if err.Some? then old(queue.elements) else old(queue.elements) + [itemFactory.Wrap(v)]
    {
      err := queue.Enqueue(itemFactory.Wrap(v));
    }

    method IsEmpty() returns (b: bool)
      ensures b <==> queue.elements == []
    {
      b := queue.IsEmpty();
    }
  }

  /** The Transporter interface: a value is one of the two adapters. */
  datatype Transporter<T(==)> = Stacked(st: StackTransporter<T>) | Queued(qt: QueueTransporter<T>)
  {
    /** The container the transporter owns, the only object its methods change. */
    ghost function Repr(): set<object>
    {
      if Stacked? then {st.stack} else {qt.queue}
    }

    function Factory(): ItemFactory<T>
    {
      if Stacked? then st.itemFactory else qt.itemFactory
    }

    ghost predicate Valid()
      reads Repr()
    {
      if Stacked? then st.stack.Valid() else qt.queue.Valid()
    }

    /** The pending items, in container order. */
    ghost function Items(): seq<Item<T>>
      reads Repr()
    {
      if Stacked? then st.stack.elements else qt.queue.elements
    }

    /** Wraps `v` with the factory and inserts it; fails exactly when the wrapped item is empty. */
    method Add(v: T) returns (err: Option<Error>)
      requires Valid()
      modifies Repr()
      ensures Valid()
      ensures err == (if Factory().Wrap(v).IsEmpty() then Some(InvalidElement) else None)
      ensures Items() == if err.Some? then old(Items()) else old(Items()) + [Factory().Wrap(v)]
    {
      match this
      case Stacked(s) => err := s.Add(v);
      case Queued(q) => err := q.Add(v);
    }

    /** Removes the most recent item (stack) or the earliest one (queue);
        the container's EmptyContainer error is passed on unchanged. */
    method Next() returns (r: Result<Item<T>>)
      requires Valid()
      modifies Repr()
      ensures Valid()
      ensures old(Items()) == [] ==> r == Fail(EmptyContainer) && Items() == []
      ensures old(Items()) != [] && Stacked? ==>
                r == Ok(old(Items())[|old(Items())| - 1]) && Items() == old(Items())[..|old(Items())| - 1]
      ensures old(Items()) != [] && Queued? ==>
                r == Ok(old(Items())[0]) && Items() == old(Items())[1..]
    {
      match this
      case Stacked(s) => r := s.Next();
      case Queued(q) => r := q.Next();
    }

    method IsEmpty() returns (b: bool)
      ensures b <==> Items() == []
    {
      match this
      case Stacked(s) => b := s.IsEmpty();
      case Queued(q) => b := q.IsEmpty();
    }
  }

  /** Both strategies' Next take exactly one pending item on a non-empty transporter. */
  lemma NextTakesOne<T>(t: Transporter<T>, before: seq<Item<T>>, after: seq<Item<T>>, it: Item<T>)
    requires before != []
    requires t.Stacked? ==> it == before[|before| - 1] && after == before[..|before| - 1]
    requires t.Queued? ==> it == before[0] && after == before[1..]
    ensures TookOne(before, after, it)
  {
    if t.Stacked? {
      TakeLast(before, after, it);
    } else {
      TakeFirst(before, after, it);
    }
  }

  /** NewTransporter: a stack-backed transporter for StackTraversal, a
      queue-backed one for QueueTraversal, and None (Go's nil) otherwise. */
  method NewTransporter<T(==)>(strategy: TraversalStrategy, itemFactory: ItemFactory<T>)
    returns (t: Option<Transporter<T>>)
    ensures strategy == StackTraversal <==> t.Some? && t.value.Stacked?
    ensures strategy == QueueTraversal <==> t.Some? && t.value.Queued?
    ensures t.Some? ==> t.value.Valid() && t.value.Items() == [] && t.value.Factory() == itemFactory
    ensures t.Some? ==> fresh(t.value.Repr())
  {
    if strategy == StackTraversal {
      var s := new StackTransporter(itemFactory);
      return Some(Stacked(s));
    } else if strategy == QueueTraversal {
      var q := new QueueTransporter(itemFactory);
      return Some(Queued(q));
    }
    return None;
  }

  /** The stack transporter hands back the later of two added values first. */
  method StackTransporterIsLifo<T(==)>(itemFactory: ItemFactory<T>, a: T, b: T)
    returns (first: Result<Item<T>>, second: Result<Item<T>>, third: Result<Item<T>>)
    requires !itemFactory.Wrap(a).IsEmpty() && !itemFactory.Wrap(b).IsEmpty()
    ensures first == Ok(itemFactory.Wrap(b)) && second == Ok(itemFactory.Wrap(a))
    ensures third == Fail(EmptyContainer)
  {
    var t := NewTransporter(StackTraversal, itemFactory);
    var tr := t.value;
    var _ := tr.Add(a);
    var _ := tr.Add(b);
    assert tr.Items() == [itemFactory.Wrap(a), itemFactory.Wrap(b)];
    first := tr.Next();
    second := tr.Next();
    assert tr.Items() == [];
    third := tr.Next();
  }

  /** The queue transporter hands back the earlier of two added values first. */
  method QueueTransporterIsFifo<T(==)>(itemFactory: ItemFactory<T>, a: T, b: T)
    returns (first: Result<Item<T>>, second: Result<Item<T>>, third: Result<Item<T>>)
    requires !itemFactory.Wrap(a).IsEmpty() && !itemFactory.Wrap(b).IsEmpty()
    ensures first == Ok(itemFactory.Wrap(a)) && second == Ok(itemFactory.Wrap(b))
    ensures third == Fail(EmptyContainer)
  {
    var t := NewTransporter(QueueTraversal, itemFactory);
    var tr := t.value;
    var _ := tr.Add(a);
    var _ := tr.Add(b);
    assert tr.Items() == [itemFactory.Wrap(a), itemFactory.Wrap(b)];
    first := tr.Next();
    second := tr.Next();
    assert tr.Items() == [];
    third := tr.Next();
  }
}
