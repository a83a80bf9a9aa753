/** Depth-first collection of the nodes reachable from a start node, driven by a stack. */
module Dfs {
  import opened Common
  import opened SimpleStack
  import opened GraphPaths

  /** The neighbour loop of DeepFirstSearch; push errors are ignored. */
  method PushUnvisited<T(==)>(stack: Stack<T>, neighbours: seq<T>, visited: set<T>, itemFactory: ItemFactory<T>)
    requires stack.Valid()
    modifies stack
    ensures stack.Valid()
    ensures stack.elements == old(stack.elements) + Pushed(neighbours, visited, itemFactory)
  {
    var i := 0;
    while i < |neighbours|
      invariant 0 <= i <= |neighbours|
      invariant stack.Valid()
      invariant stack.elements == old(stack.elements) + Pushed(neighbours[..i], visited, itemFactory)
    {
      var node := neighbours[i];
      if node !in visited {
        var _ := stack.Push(itemFactory.Wrap(node));
      }
      assert neighbours[..i + 1][..i] == neighbours[..i];
      i := i + 1;
    }
    assert neighbours[..i] == neighbours;
  }

  /** What the main loop of DeepFirstSearch keeps: `stack` holds the pending
      items, `paths` a witness path from `start` to every node ever pushed, and
      (when no key is a sentinel) every key neighbour of a visited node is
      visited or pending. */
  ghost predicate Inv<T(!new)>(graph: Graph<T>, start: T, itemFactory: ItemFactory<T>, complete: bool,
                               stack: seq<Item<T>>, visited: set<T>, response: seq<T>, paths: map<T, seq<T>>)
  {
    && (forall it :: it in stack ==> it == itemFactory.Wrap(it.value) && it.value in paths)
    && (forall v :: v in visited <==> v in response)
    && NoDuplicates(response)
    && (response == [] ==> stack == [itemFactory.Wrap(start)])
    && (response != [] ==> response[0] == start)
    && (forall v :: v in visited ==> v in graph && v in paths && !itemFactory.Wrap(v).IsEmpty())
    && (forall v :: v in paths ==> PathFromTo(graph, paths[v], start, v))
    && (complete ==> NoSentinelKeys(graph, itemFactory))
    && (complete ==> forall v, n :: v in visited && n in graph[v] && n in graph ==>
                       n in visited || itemFactory.Wrap(n) in stack)
  }

  /** Popping a node that is not a key, or was visited already, keeps the invariant. */
  lemma SkipKeepsInv<T(!new)>(graph: Graph<T>, start: T, itemFactory: ItemFactory<T>, complete: bool,
                              before: seq<Item<T>>, after: seq<Item<T>>, it: Item<T>,
                              visited: set<T>, response: seq<T>, paths: map<T, seq<T>>)
    requires Inv(graph, start, itemFactory, complete, before, visited, response, paths)
    requires TookOne(before, after, it) && response != []
    requires it.value !in graph || it.value in visited
    ensures Inv(graph, start, itemFactory, complete, after, visited, response, paths)
  {
  }

  /** Popping an unvisited key, recording it and pushing its neighbours keeps the invariant. */
  lemma VisitKeepsInv<T(!new)>(graph: Graph<T>, start: T, itemFactory: ItemFactory<T>, complete: bool,
                               before: seq<Item<T>>, after: seq<Item<T>>, it: Item<T>,
                               visited: set<T>, response: seq<T>, paths: map<T, seq<T>>)
    requires Inv(graph, start, itemFactory, complete, before, visited, response, paths)
    requires TookOne(before, after, it) && NoEmptyItems(before)
    requires it.value in graph && it.value !in visited
    ensures
      var current := it.value;
      var visited' := visited + {current};
      var paths' := ExtendPaths(graph, paths, current);
      Inv(graph, start, itemFactory, complete, after + Pushed(graph[current], visited', itemFactory),
          visited', response + [current], paths')
  {
    var current := it.value;
    assert !it.IsEmpty() by {
      var k :| 0 <= k < |before| && before[k] == it;
    }
    var visited' := visited + {current};
    var pushed := Pushed(graph[current], visited', itemFactory);
    var paths' := ExtendPaths(graph, paths, current);
    PushedItems(graph[current], visited', itemFactory);
    forall n | n in graph[current] && n !in paths ensures PathFromTo(graph, paths'[n], start, n) {
      ExtendPath(graph, paths[current], start, current, n);
    }
    var stack' := after + pushed;
    assert forall x :: x in stack' <==> x in after || x in pushed;
    if complete {
      forall v, n | v in visited' && n in graph[v] && n in graph
        ensures n in visited' || itemFactory.Wrap(n) in stack'
      {
        if v == current {
          assert !itemFactory.Wrap(n).IsEmpty();
        } else if n !in visited {
          assert itemFactory.Wrap(n) in before;
        }
      }
    }
    assert response == [] ==> after == [];
  }

  /** DeepFirstSearch: the keys reachable from `start`, each once, in visiting order.
      Go's `graph[start] == nil` is read as "start is not a key". */
  method DeepFirstSearch<T(==,!new)>(graph: Graph<T>, start: T, itemFactory: ItemFactory<T>)
    returns (response: seq<T>)
    ensures itemFactory.Wrap(start).IsEmpty() || start !in graph ==> response == []
    ensures !itemFactory.Wrap(start).IsEmpty() && start in graph ==> |response| > 0 && response[0] == start
    ensures NoDuplicates(response)
    ensures forall v :: v in response ==> v in graph && KeyReachable(graph, start, v)
    ensures forall v :: v in response ==> !itemFactory.Wrap(v).IsEmpty()
    ensures NoSentinelKeys(graph, itemFactory) ==>
              forall v :: KeyReachable(graph, start, v) ==> v in response
  {
    if itemFactory.Wrap(start).IsEmpty() || start !in graph {
      return [];
    }

    var visited: set<T> := {};
    response := [];

    var stack := new Stack<T>();
    var _ := stack.Push(itemFactory.Wrap(start));
    // a witness path from start to every node that was ever pushed
    ghost var paths: map<T, seq<T>> := map[start := [start]];
    ghost var complete := NoSentinelKeys(graph, itemFactory);

    var empty := stack.IsEmpty();
    while !empty
      invariant stack.Valid() && (empty <==> stack.elements == [])
      invariant Inv(graph, start, itemFactory, complete, stack.elements, visited, response, paths)
      decreases graph.Keys - visited, |stack.elements|
    {
      ghost var before := stack.elements;
      var r := stack.Pop();
      if r.Fail? {
        break;
      }
      TakeLast(before, stack.elements, r.value);
      var current := r.value.Value();

      if current !in graph {
        // not a key: skipped
        SkipKeepsInv(graph, start, itemFactory, complete, before, stack.elements, r.value, visited, response, paths);
      } else if current in visited {
        // already visited: skipped
        SkipKeepsInv(graph, start, itemFactory, complete, before, stack.elements, r.value, visited, response, paths);
      } else {
        VisitKeepsInv(graph, start, itemFactory, complete, before, stack.elements, r.value, visited, response, paths);
        visited := visited + {current};
        response := response + [current];
        PushUnvisited(stack, graph[current], visited, itemFactory);
        paths := ExtendPaths(graph, paths, current);
      }
      empty := stack.IsEmpty();
    }

    forall v | v in response ensures KeyReachable(graph, start, v) {
      KeyEndMakesKeyPath(graph, paths[v]);
    }
    if complete {
      assert KeyClosed(graph, visited);
      forall v | KeyReachable(graph, start, v) ensures v in response {
        var p :| PathFromTo(graph, p, start, v) && KeyPath(graph, p);
        KeyClosedHoldsKeyPath(graph, visited, p);
      }
    }
  }
}
