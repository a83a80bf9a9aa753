/** A singly linked list with head and tail pointers. The ghost `nodes` is the
    spine from head to tail and `contents` the values along it. */
module LinkedLists {

  class Node<T> {
    var value: T
    var next: Node?<T>

    constructor (value: T, next: Node?<T>)
      ensures this.value == value && this.next == next
    {
      this.value := value;
      this.next := next;
    }
  }

  /** The position a (possibly negative) index stands for in RemoveAt and AddAt:
      IndexAt treats every index below 0 as 0, so `index - 1` reaches the head
      when `index` is negative and the operation acts at position 1. */
  function Position(index: int): nat
  {
    if index < 0 then 1 else index
  }

  /** `s` with `x` placed at position j, described index by index. */
  function Insert<X>(s: seq<X>, j: nat, x: X): (r: seq<X>)
    requires j <= |s|
    ensures |r| == |s| + 1 && r[j] == x
    ensures forall i :: 0 <= i < j ==> r[i] == s[i]
    ensures forall i :: j < i < |r| ==> r[i] == s[i - 1]
  {
    s[..j] + [x] + s[j..]
  }

  class LinkedList<T> {
    var head: Node?<T>
    var tail: Node?<T>
    ghost var nodes: seq<Node<T>>
    ghost var contents: seq<T>
    ghost var Repr: set<object>

    /** The spine starts at head, follows `next`, ends at tail (whose `next` is
        nil) and never repeats a node; head is nil exactly when tail is. */
    ghost predicate Valid()
      reads this, Repr
    {
      && this in Repr
      && |nodes| == |contents|
      && (forall i :: 0 <= i < |nodes| ==> nodes[i] in Repr)
      && (forall i :: 0 <= i < |nodes| ==> nodes[i].value == contents[i])
      && (forall i, j :: 0 <= i < j < |nodes| ==> nodes[i] != nodes[j])
      && (forall i :: 0 <= i < |nodes| - 1 ==> nodes[i].next == nodes[i + 1])
      && (nodes == [] ==> head == null && tail == null)
      && (nodes != [] ==> head == nodes[0] && tail == nodes[|nodes| - 1] && tail.next == null)
    }

    /** The zero value of Go's LinkedList: no head, no tail. */
    constructor ()
      ensures Valid() && fresh(Repr) && contents == []
    {
      head := null;
      tail := null;
      nodes := [];
      contents := [];
      Repr := {this};
    }

    /** The node at spine position `k`, nil past the end. */
    ghost function NodeAt(k: nat): Node?<T>
      reads this
    {
      if k < |nodes| then nodes[k] else null
    }

    /** First: the head node, nil for an empty list. */
    function First(): (r: Node?<T>)
      requires Valid()
      reads this, Repr
      ensures r == NodeAt(0)
      ensures r == null <==> contents == []
      ensures r != null ==> r.value == contents[0]
    {
      head
    }

    /** Last: the tail node, nil for an empty list. */
    function Last(): (r: Node?<T>)
      requires Valid()
      reads this, Repr
      ensures r == null <==> contents == []
      ensures r != null ==> r == nodes[|nodes| - 1] && r.value == contents[|contents| - 1]
    {
      tail
    }

    /** AddFirst: prepends `value`. */
    method AddFirst(value: T)
      requires Valid()
      modifies this
      ensures Valid() && fresh(Repr - old(Repr))
      ensures contents == [value] + old(contents)
      ensures nodes[1..] == old(nodes)
    {
      var newNode := new Node(value, null);
      if head == null {
        head := newNode;
        tail := newNode;
      } else {
        newNode.next := head;
        head := newNode;
      }
      nodes := [newNode] + nodes;
      contents := [value] + contents;
      Repr := Repr + {newNode};
    }

    /** AddLast: appends `value`, linking it after the old tail. */
    method AddLast(value: T)
      requires Valid()
      modifies Repr
      ensures Valid() && fresh(Repr - old(Repr))
      ensures contents == old(contents) + [value]
      ensures nodes[..|nodes| - 1] == old(nodes)
    {
      var newNode := new Node(value, null);
      if tail == null {
        head := newNode;
        tail := newNode;
      } else {
        tail.next := newNode;
        tail := newNode;
      }
      nodes := nodes + [newNode];
      contents := contents + [value];
      Repr := Repr + {newNode};
    }

    /** RemoveFirst: nil for an empty list; otherwise unlinks and returns the head. */
    method RemoveFirst() returns (r: Node?<T>)
      requires Valid()
      modifies this
      ensures Valid() && Repr == old(Repr)
      ensures old(contents) == [] ==> r == null && contents == []
      ensures old(contents) != [] ==>
                r == old(nodes[0]) && r.value == old(contents[0]) && contents == old(contents[1..])
    {
      if head == null {
        return null;
      }
      r := head;
      head := head.next;
      if head == null {
        tail := null;
      }
      nodes := nodes[1..];
      contents := contents[1..];
    }

    /** RemoveLast: nil for an empty list; otherwise walks to the node before
        the tail, makes it the tail and returns the old tail. */
    method RemoveLast() returns (r: Node?<T>)
      requires Valid()
      modifies Repr
      ensures Valid() && Repr == old(Repr)
      ensures old(contents) == [] ==> r == null && contents == []
      ensures old(contents) != [] ==>
                && r == old(nodes[|nodes| - 1])
                && r.value == old(contents[|contents| - 1])
                && contents == old(contents[..|contents| - 1])
    {
      if head == null {
        return null;
      }
      if head == tail {
        r := head;
        head := null;
        tail := null;
        nodes := [];
        contents := [];
        return;
      }
      var current := head;
      ghost var k := 0;
      while current.next != tail
        invariant 0 <= k < |nodes| - 1 && current == nodes[k]
        decreases |nodes| - k
      {
        current := current.next;
        k := k + 1;
      }
      assert nodes[k + 1] == nodes[|nodes| - 1];
      r := tail;
      tail := current;
      tail.next := null;
      nodes := nodes[..|nodes| - 1];
      contents := contents[..|contents| - 1];
    }

    /** IndexAt: walks `index` links from the head, stopping at nil. An index
        below 0 gives the head. */
    method IndexAt(index: int) returns (r: Node?<T>)
      requires Valid()
      ensures r == NodeAt(if index < 0 then 0 else index)
      ensures r != null ==> r.value == contents[if index < 0 then 0 else index]
    {
      r := head;
      var i := 0;
      while r != null && i < index
        invariant 0 <= i <= (if index < 0 then 0 else index)
        invariant r == NodeAt(i)
        decreases |nodes| - i
      {
        r := r.next;
        i := i + 1;
      }
    }

    /** The unlinking step of RemoveAt: `prev` is the node at position j - 1
        and has a successor, which is unlinked and returned. */
    method RemoveAfter(prev: Node<T>, ghost j: nat) returns (r: Node<T>)
      requires Valid() && 0 < j < |nodes| && prev == nodes[j - 1]
      modifies Repr
      ensures Valid() && Repr == old(Repr)
      ensures r == old(nodes[j]) && r.value == old(contents[j])
      ensures contents == old(contents[..j] + contents[j + 1..])
    {
      ghost var ns := nodes;
      assert prev.next == ns[j];
      r := prev.next;
      ghost var after := r.next;
      assert j + 1 < |ns| ==> after == ns[j + 1];
      assert j + 1 == |ns| ==> after == null && r == tail;
      prev.next := r.next;
      if r == tail {
        tail := prev;
      }
      nodes := ns[..j] + ns[j + 1..];
      contents := contents[..j] + contents[j + 1..];
      forall i | 0 <= i < |nodes| ensures nodes[i] in Repr && nodes[i].value == contents[i] {
        assert nodes[i] == ns[if i < j then i else i + 1];
      }
      forall i, k | 0 <= i < k < |nodes| ensures nodes[i] != nodes[k] {
        assert nodes[i] == ns[if i < j then i else i + 1] && nodes[k] == ns[if k < j then k else k + 1];
      }
      forall i | 0 <= i < |nodes| - 1 ensures nodes[i].next == nodes[i + 1] {
        if i < j - 1 {
          assert nodes[i] == ns[i] != prev && nodes[i + 1] == ns[i + 1];
        } else if i >= j {
          assert nodes[i] == ns[i + 1] != prev && nodes[i + 1] == ns[i + 2];
        } else {
          assert nodes[i] == prev && nodes[i + 1] == ns[j + 1];
        }
      }
    }

    /** RemoveAt: unlinks and returns the node at Position(index), moving the
        tail back when that node was the tail; nil (and no change) when the
        list is too short. */
    method RemoveAt(index: int) returns (r: Node?<T>)
      requires Valid()
      modifies Repr
      ensures Valid() && Repr == old(Repr)
      ensures Position(index) < |old(contents)| ==>
                && r == old(nodes[Position(index)])
                && r.value == old(contents[Position(index)])
                && contents == old(contents[..Position(index)] + contents[Position(index) + 1..])
      ensures Position(index) >= |old(contents)| ==> r == null && contents == old(contents)
    {
      if index == 0 {
        r := RemoveFirst();
        return;
      }
      var prev := IndexAt(index - 1);
      if prev == null || prev.next == null {
        return null;
      }
      r := RemoveAfter(prev, Position(index));
    }

    /** The linking step of AddAt: `newNode`, a node outside the list whose
        successor is that of `prev` (the node at position j - 1), goes right
        after `prev`. */
    method InsertAfter(prev: Node<T>, ghost j: nat, newNode: Node<T>)
      requires Valid() && 0 < j <= |nodes| && prev == nodes[j - 1]
      requires newNode !in Repr && newNode.next == prev.next
      modifies Repr
      ensures Valid() && Repr == old(Repr) + {newNode}
      ensures contents == old(contents[..j]) + [newNode.value] + old(contents[j..])
    {
      ghost var ns := nodes;
      ghost var succ := prev.next;
      assert j < |ns| ==> succ == ns[j];
      assert j == |ns| ==> succ == null && prev == tail;
      prev.next := newNode;
      if newNode.next == null {
        tail := newNode;
      }
      nodes := Insert(ns, j, newNode);
      contents := Insert(contents, j, newNode.value);
      Repr := Repr + {newNode};
      forall i | 0 <= i < |nodes| - 1 ensures nodes[i].next == nodes[i + 1] {
        if i < j - 1 {
          assert nodes[i] == ns[i] != prev && nodes[i + 1] == ns[i + 1];
        } else if i > j {
          assert nodes[i] == ns[i - 1] != prev && nodes[i + 1] == ns[i];
        }
      }
    }

    /** AddAt: links a new node holding `value` in at Position(index), moving
        the tail when it lands at the end; no change when the list is too short. */
    method AddAt(index: int, value: T)
      requires Valid()
      modifies Repr
      ensures Valid() && fresh(Repr - old(Repr))
      ensures Position(index) <= |old(contents)| ==>
                contents == old(contents[..Position(index)]) + [value] + old(contents[Position(index)..])
      ensures Position(index) > |old(contents)| ==> contents == old(contents)
    {
      if index == 0 {
        AddFirst(value);
        return;
      }
      var prev := IndexAt(index - 1);
      if prev == null {
        return;
      }
      var newNode := new Node(value, prev.next);
      InsertAfter(prev, Position(index), newNode);
    }
  }

  /** RemoveAt with a negative index: on the list [1, 2], RemoveAt(-1)
      removes and returns the second element instead of reporting an index
      out of range. */
  method NegativeRemoveAtScenario() returns (r: Node?<int>, list: LinkedList<int>)
    ensures r != null && r.value == 2 && list.contents == [1]
  {
    list := new LinkedList();
    list.AddLast(1);
    list.AddLast(2);
    r := list.RemoveAt(-1);
  }

  /** AddAt with a negative index: on the list [1, 2], AddAt(-1, 9) inserts at
      position 1 instead of leaving the list alone. */
  method NegativeAddAtScenario() returns (list: LinkedList<int>)
    ensures list.contents == [1, 9, 2]
  {
    list := new LinkedList();
    list.AddLast(1);
    list.AddLast(2);
    list.AddAt(-1, 9);
  }

  /** RemoveAt as evidently intended: an index outside 0 .. length - 1 gives
      nil and leaves the list unchanged. */
  method RemoveAtInRange<T>(list: LinkedList<T>, index: int) returns (r: Node?<T>)
    requires list.Valid()
    modifies list.Repr
    ensures list.Valid() && list.Repr == old(list.Repr)
    ensures 0 <= index < |old(list.contents)| ==>
              && r == old(list.nodes[index])
              && r.value == old(list.contents[index])
              && list.contents == old(list.contents[..index] + list.contents[index + 1..])
    ensures !(0 <= index < |old(list.contents)|) ==> r == null && list.contents == old(list.contents)
  {
    if index < 0 {
      return null;
    }
    r := list.RemoveAt(index);
  }

  /** AddAt as evidently intended: an index outside 0 .. length leaves the
      list unchanged. */
  method AddAtInRange<T>(list: LinkedList<T>, index: int, value: T)
    requires list.Valid()
    modifies list.Repr
    ensures list.Valid() && fresh(list.Repr - old(list.Repr))
    ensures 0 <= index <= |old(list.contents)| ==>
              list.contents == old(list.contents[..index]) + [value] + old(list.contents[index..])
    ensures !(0 <= index <= |old(list.contents)|) ==> list.contents == old(list.contents)
  {
    if index < 0 {
      return;
    }
    list.AddAt(index, value);
  }

  /** The operations compose on the abstract sequence: build [1, 5, 2] from
      both ends and the middle, then take the last and the first back off. */
  method ListScenario() returns (last: Node?<int>, first: Node?<int>, list: LinkedList<int>)
    ensures last != null && last.value == 2
    ensures first != null && first.value == 1
    ensures list.contents == [5]
  {
    list := new LinkedList();
    list.AddFirst(1);
    list.AddLast(2);
    list.AddAt(1, 5);
    assert list.contents == [1, 5, 2];
    last := list.RemoveLast();
    first := list.RemoveFirst();
  }
}
