/** Breadth-first collection of the nodes reachable from a start node, driven by a queue. */
module Bfs {
  import opened Common
  import opened SimpleQueue
  import opened GraphPaths
  import Dfs

  /** The neighbour loop of BreadthFirstSearch; enqueue errors are ignored. */
  method EnqueueUnvisited<T(==)>(queue: Queue<T>, neighbours: seq<T>, visited: set<T>, itemFactory: ItemFactory<T>)
    requires queue.Valid()
    modifies queue
    ensures queue.Valid()
    ensures queue.elements == old(queue.elements) + Pushed(neighbours, visited, itemFactory)
  {
    var i := 0;
    while i < |neighbours|
      invariant 0 <= i <= |neighbours|
      invariant queue.Valid()
      invariant queue.elements == old(queue.elements) + Pushed(neighbours[..i], visited, itemFactory)
    {
      var node := neighbours[i];
      if node !in visited {
        var _ := queue.Enqueue(itemFactory.Wrap(node));
      }
      assert neighbours[..i + 1][..i] == neighbours[..i];
      i := i + 1;
    }
    assert neighbours[..i] == neighbours;
  }

  /** What the main loop of BreadthFirstSearch keeps: `queue` holds the pending
      items, `paths` a witness path from `start` to every node ever enqueued, and
      (when no node is a sentinel) every neighbour of a visited key is visited
      or pending. Unlike the depth-first search, a dequeued node that is not a
      key is still visited (it simply has no neighbours). */
  ghost predicate Inv<T(!new)>(graph: Graph<T>, start: T, itemFactory: ItemFactory<T>, complete: bool,
                               queue: seq<Item<T>>, visited: set<T>, response: seq<T>, paths: map<T, seq<T>>)
  {
    && (forall it :: it in queue ==> it == itemFactory.Wrap(it.value) && it.value in paths && it.value in Nodes(graph))
    && (forall v :: v in visited <==> v in response)
    && NoDuplicates(response)
    && (response == [] ==> queue == [itemFactory.Wrap(start)])
    && (response != [] ==> response[0] == start)
    && (forall v :: v in visited ==> v in Nodes(graph) && v in paths && !itemFactory.Wrap(v).IsEmpty())
    && (forall v :: v in paths ==> PathFromTo(graph, paths[v], start, v))
    && (complete ==> NoSentinelNodes(graph, itemFactory))
    && (complete ==> forall v, n :: v in visited && v in graph && n in graph[v] ==>
                       n in visited || itemFactory.Wrap(n) in queue)
  }

  /** Dequeuing a node that was visited already keeps the invariant. */
  lemma SkipKeepsInv<T(!new)>(graph: Graph<T>, start: T, itemFactory: ItemFactory<T>, complete: bool,
                              before: seq<Item<T>>, after: seq<Item<T>>, it: Item<T>,
                              visited: set<T>, response: seq<T>, paths: map<T, seq<T>>)
    requires Inv(graph, start, itemFactory, complete, before, visited, response, paths)
    requires TookOne(before, after, it) && it.value in visited
    ensures Inv(graph, start, itemFactory, complete, after, visited, response, paths)
  {
  }

  /** Dequeuing an unvisited node, recording it and enqueuing its neighbours keeps the invariant. */
  lemma VisitKeepsInv<T(!new)>(graph: Graph<T>, start: T, itemFactory: ItemFactory<T>, complete: bool,
                               before: seq<Item<T>>, after: seq<Item<T>>, it: Item<T>,
                               visited: set<T>, response: seq<T>, paths: map<T, seq<T>>)
    requires Inv(graph, start, itemFactory, complete, before, visited, response, paths)
    requires TookOne(before, after, it) && NoEmptyItems(before)
    requires it.value !in visited
    ensures
      var current := it.value;
      var visited' := visited + {current};
      var paths' := ExtendPaths(graph, paths, current);
      Inv(graph, start, itemFactory, complete, after + Pushed(Neighbours(graph, current), visited', itemFactory),
          visited', response + [current], paths')
  {
    var current := it.value;
    assert !it.IsEmpty() by {
      var k :| 0 <= k < |before| && before[k] == it;
    }
    var ns := Neighbours(graph, current);
    var visited' := visited + {current};
    var pushed := Pushed(ns, visited', itemFactory);
    var paths' := ExtendPaths(graph, paths, current);
    PushedItems(ns, visited', itemFactory);
    forall n | n in ns ensures n in Nodes(graph) && (n !in paths ==> PathFromTo(graph, paths'[n], start, n)) {
      assert current in graph && n in graph[current];
      if n !in paths {
        ExtendPath(graph, paths[current], start, current, n);
      }
    }
    var queue' := after + pushed;
    assert forall x :: x in queue' <==> x in after || x in pushed;
    if complete {
      forall v, n | v in visited' && v in graph && n in graph[v]
        ensures n in visited' || itemFactory.Wrap(n) in queue'
      {
        if v == current {
          assert !itemFactory.Wrap(n).IsEmpty();
        } else if n !in visited {
          assert itemFactory.Wrap(n) in before;
        }
      }
    }
    assert response == [] ==> after == [];
  }

  /** With nothing pending, the invariant gives soundness and, when no node is a
      sentinel, completeness. */
  lemma InvAtEnd<T(!new)>(graph: Graph<T>, start: T, itemFactory: ItemFactory<T>, complete: bool,
                          visited: set<T>, response: seq<T>, paths: map<T, seq<T>>)
    requires Inv(graph, start, itemFactory, complete, [], visited, response, paths) && response != []
    ensures forall v :: v in response ==> Reachable(graph, start, v)
    ensures complete ==> forall v :: Reachable(graph, start, v) ==> v in response
  {
    forall v | v in response ensures Reachable(graph, start, v) {
      assert PathFromTo(graph, paths[v], start, v);
    }
    if complete {
      assert Closed(graph, visited);
      forall v | Reachable(graph, start, v) ensures v in response {
        var p :| PathFromTo(graph, p, start, v);
        ClosedHoldsPath(graph, visited, p);
      }
    }
  }

  /** Level order: a direct neighbour of `start` is preceded only by `start`
      and other direct neighbours. */
  ghost predicate DirectNeighboursFirst<T>(graph: Graph<T>, start: T, response: seq<T>)
  {
    forall i, k :: 0 <= i < k < |response| && response[k] in Neighbours(graph, start) ==>
      response[i] == start || response[i] in Neighbours(graph, start)
  }

  /** The queue after one more dequeue, restricted to a prefix that is still waiting. */
  ghost function Rest<T>(s: seq<T>): seq<T>
  {
    if s == [] then [] else s[1..]
  }

  /** What the main loop keeps for the level order: `front` is the part of the
      queue that still holds the items enqueued while visiting `start`; while it
      is not used up, only `start` and its direct neighbours have been visited,
      and every direct neighbour is visited or waiting in `front`. */
  ghost predicate LevelInv<T>(graph: Graph<T>, start: T, itemFactory: ItemFactory<T>,
                              queue: seq<Item<T>>, visited: set<T>, response: seq<T>, front: seq<Item<T>>)
  {
    && (response == [] ==> front == [])
    && |front| <= |queue| && front == queue[..|front|]
    && (forall it :: it in front ==> it.value in Neighbours(graph, start))
    && (front != [] ==> forall v :: v in response ==> v == start || v in Neighbours(graph, start))
    && (response != [] ==> forall n :: n in Neighbours(graph, start) && !itemFactory.Wrap(n).IsEmpty() ==>
                             n in visited || itemFactory.Wrap(n) in front)
    && DirectNeighboursFirst(graph, start, response)
  }

  /** Visiting `start` first makes the items it enqueues the front. */
  lemma LevelStart<T>(graph: Graph<T>, start: T, itemFactory: ItemFactory<T>,
                      before: seq<Item<T>>, visited: set<T>, response: seq<T>)
    requires before == [itemFactory.Wrap(start)] && response == []
    requires forall v :: v in visited <==> v in response
    ensures
      var current := before[0].value;
      var queue' := before[1..] + Pushed(Neighbours(graph, current), visited + {current}, itemFactory);
      LevelInv(graph, start, itemFactory, queue', visited + {current}, response + [current], queue')
  {
    assert before[0].value == start;
    assert visited + {start} == {start};
    assert before[1..] == [];
    var pushed := Pushed(Neighbours(graph, start), {start}, itemFactory);
    assert before[1..] + pushed == pushed;
    PushedItems(Neighbours(graph, start), {start}, itemFactory);
    assert LevelInv(graph, start, itemFactory, pushed, {start}, [start], pushed);
  }

  /** Dequeuing a visited node keeps the level invariant. */
  lemma LevelSkip<T>(graph: Graph<T>, start: T, itemFactory: ItemFactory<T>,
                     before: seq<Item<T>>, visited: set<T>, response: seq<T>, front: seq<Item<T>>)
    requires LevelInv(graph, start, itemFactory, before, visited, response, front)
    requires before != [] && before[0].value in visited && response != []
    ensures LevelInv(graph, start, itemFactory, before[1..], visited, response, Rest(front))
  {
    if front != [] {
      assert front[0] == before[0];
      assert forall it :: it in front ==> it == front[0] || it in front[1..];
    }
  }

  /** Dequeuing an unvisited node after `start`, recording it and enqueuing
      its neighbours keeps the level invariant. */
  lemma LevelVisit<T>(graph: Graph<T>, start: T, itemFactory: ItemFactory<T>,
                      before: seq<Item<T>>, visited: set<T>, response: seq<T>, front: seq<Item<T>>,
                      pushed: seq<Item<T>>)
    requires LevelInv(graph, start, itemFactory, before, visited, response, front)
    requires before != [] && before[0].value !in visited && response != []
    requires NoEmptyItems(before) && before[0] == itemFactory.Wrap(before[0].value)
    requires forall v :: v in visited <==> v in response
    ensures
      var current := before[0].value;
      LevelInv(graph, start, itemFactory, before[1..] + pushed, visited + {current}, response + [current], Rest(front))
  {
    var current := before[0].value;
    assert !before[0].IsEmpty();
    var response' := response + [current];
    if front != [] {
      assert front[0] == before[0];
      assert forall it :: it in front ==> it == front[0] || it in front[1..];
      assert current in Neighbours(graph, start);
    }
    var queue' := before[1..] + pushed;
    assert Rest(front) == queue'[..|Rest(front)|];
    forall i, k | 0 <= i < k < |response'| && response'[k] in Neighbours(graph, start)
      ensures response'[i] == start || response'[i] in Neighbours(graph, start)
    {
      if k == |response| {
        assert front != [];
      }
    }
  }

  /** BreadthFirstSearch: the nodes reachable from `start`, each once, in visiting order.
      Go's `graph[start] == nil` is read as "start is not a key". */
  method BreadthFirstSearch<T(==,!new)>(graph: Graph<T>, start: T, itemFactory: ItemFactory<T>)
    returns (response: seq<T>)
    ensures itemFactory.Wrap(start).IsEmpty() || start !in graph ==> response == []
    ensures !itemFactory.Wrap(start).IsEmpty() && start in graph ==> |response| > 0 && response[0] == start
    ensures NoDuplicates(response)
    ensures forall v :: v in response ==> Reachable(graph, start, v)
    ensures forall v :: v in response ==> !itemFactory.Wrap(v).IsEmpty()
    ensures start in graph && NoSentinelNodes(graph, itemFactory) ==>
              forall v :: Reachable(graph, start, v) ==> v in response
    ensures DirectNeighboursFirst(graph, start, response)
  {
    if itemFactory.Wrap(start).IsEmpty() || start !in graph {
      return [];
    }

    var visited: set<T> := {};
    response := [];

    var queue := new Queue<T>();
    var _ := queue.Enqueue(itemFactory.Wrap(start));
    // a witness path from start to every node that was ever enqueued
    ghost var paths: map<T, seq<T>> := map[start := [start]];
    ghost var complete := NoSentinelNodes(graph, itemFactory);
    // the items enqueued while visiting start that are still waiting
    ghost var front: seq<Item<T>> := [];

    var empty := queue.IsEmpty();
    while !empty
      invariant queue.Valid() && (empty <==> queue.elements == [])
      invariant Inv(graph, start, itemFactory, complete, queue.elements, visited, response, paths)
      invariant LevelInv(graph, start, itemFactory, queue.elements, visited, response, front)
      decreases Nodes(graph) - visited, |queue.elements|
    {
      ghost var before := queue.elements;
      var r := queue.Dequeue();
      if r.Fail? {
        break;
      }
      var current := r.value.Value();

      if current in visited {
        TakeFirst(before, queue.elements, r.value);
        SkipKeepsInv(graph, start, itemFactory, complete, before, queue.elements, r.value, visited, response, paths);
        LevelSkip(graph, start, itemFactory, before, visited, response, front);
        front := Rest(front);
      } else {
        TakeFirst(before, queue.elements, r.value);
        VisitKeepsInv(graph, start, itemFactory, complete, before, queue.elements, r.value, visited, response, paths);
        ghost var first := response == [];
        if first {
          LevelStart(graph, start, itemFactory, before, visited, response);
        } else {
          LevelVisit(graph, start, itemFactory, before, visited, response, front,
                     Pushed(Neighbours(graph, current), visited + {current}, itemFactory));
        }
        visited := visited + {current};
        response := response + [current];
        EnqueueUnvisited(queue, Neighbours(graph, current), visited, itemFactory);
        paths := ExtendPaths(graph, paths, current);
        front := if first then queue.elements else Rest(front);
      }
      empty := queue.IsEmpty();
    }

    InvAtEnd(graph, start, itemFactory, complete, visited, response, paths);
  }

  /** When every listed neighbour is a key and no node is a sentinel, the
      breadth-first and the depth-first search collect the same nodes (in
      general in different orders). */
  method SameNodesAsDepthFirst<T(==,!new)>(graph: Graph<T>, start: T, itemFactory: ItemFactory<T>)
    returns (breadth: seq<T>, depth: seq<T>)
    requires start in graph && NoSentinelNodes(graph, itemFactory)
    requires forall v, n :: v in graph && n in graph[v] ==> n in graph
    ensures forall v :: v in breadth <==> v in depth
  {
    breadth := BreadthFirstSearch(graph, start, itemFactory);
    depth := Dfs.DeepFirstSearch(graph, start, itemFactory);
    forall v ensures v in breadth <==> v in depth {
      AllNeighboursKeysReach(graph, start, v);
    }
  }

  /** The six-node graph A -> B, C; B -> D, E; C -> F; E -> F. */
  function SixNodeGraph(): Graph<string>
  {
    map["A" := ["B", "C"], "B" := ["D", "E"], "C" := ["F"], "D" := [], "E" := ["F"], "F" := []]
  }

  function SixNodes(): set<string>
  {
    {"A", "B", "C", "D", "E", "F"}
  }

  lemma SixNodesAreSix()
    ensures |SixNodes()| == 6
  {
    assert SixNodes() == {"A"} + {"B"} + {"C"} + {"D"} + {"E"} + {"F"};
  }

  /** No node of the six-node graph is the empty string. */
  lemma SixNodeGraphHasNoSentinel()
    ensures "A" in SixNodeGraph() && NoSentinelNodes(SixNodeGraph(), StringItemFactory())
  {
  }

  /** Exactly the six named nodes are reachable from A. */
  lemma SixNodeGraphReach(v: string)
    ensures Reachable(SixNodeGraph(), "A", v) <==> v in SixNodes()
  {
    var g := SixNodeGraph();
    if Reachable(g, "A", v) {
      assert Closed(g, SixNodes());
      var p :| PathFromTo(g, p, "A", v);
      ClosedHoldsPath(g, SixNodes(), p);
    }
    if v in SixNodes() {
      var p := if v == "A" then ["A"] else if v == "B" then ["A", "B"] else if v == "C" then ["A", "C"]
               else if v == "D" then ["A", "B", "D"] else if v == "E" then ["A", "B", "E"] else ["A", "C", "F"];
      assert PathFromTo(g, p, "A", v);
    }
  }

  /** Searching the six-node graph from A gives A first and then the other
      five nodes, each once. */
  method SixNodeScenario() returns (response: seq<string>)
    ensures |response| == 6 && response[0] == "A"
    ensures forall v :: v in response <==> v in SixNodes()
  {
    SixNodeGraphHasNoSentinel();
    response := BreadthFirstSearch(SixNodeGraph(), "A", StringItemFactory());
    forall v ensures v in response <==> v in SixNodes() {
      SixNodeGraphReach(v);
    }
    DistinctCount(response, SixNodes());
    SixNodesAreSix();
  }
}
