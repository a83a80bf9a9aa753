/** ConnectedComponentsCount: scan the keys in an arbitrary order and, from
    every key not yet visited, flood its component through a transporter,
    counting the floods. */
module ComponentsCount {
  import opened Common
  import opened GraphPaths
  import opened GraphTraversal

  /** The items the neighbour loop adds: each neighbour that is neither visited
      before the loop nor listed earlier, except those the transporter refuses
      as empty. */
  function Added<T(==)>(ns: seq<T>, visited: set<T>, itemFactory: ItemFactory<T>): seq<Item<T>>
  {
    if ns == [] then []
    else
      var init := ns[..|ns| - 1];
      var n := ns[|ns| - 1];
      Added(init, visited, itemFactory)
      + (if n !in visited && n !in init && !itemFactory.Wrap(n).IsEmpty() then [itemFactory.Wrap(n)] else [])
  }

  /** Exactly the unvisited, non-sentinel neighbours are added, each wrapped by the factory. */
  lemma {:induction false} AddedItems<T>(ns: seq<T>, visited: set<T>, itemFactory: ItemFactory<T>)
    ensures forall it :: it in Added(ns, visited, itemFactory) ==>
              it == itemFactory.Wrap(it.value) && it.value in ns && it.value !in visited
    ensures forall n :: n in ns && n !in visited && !itemFactory.Wrap(n).IsEmpty() ==>
              itemFactory.Wrap(n) in Added(ns, visited, itemFactory)
    ensures (forall n :: n in ns ==> n in visited) ==> Added(ns, visited, itemFactory) == []
    decreases |ns|
  {
    if ns != [] {
      var init := ns[..|ns| - 1];
      AddedItems(init, visited, itemFactory);
      assert ns == init + [ns[|ns| - 1]];
    }
  }

  /** One more neighbour is added exactly when it is new and not a sentinel. */
  lemma AddedSnoc<T>(ns: seq<T>, n: T, visited: set<T>, itemFactory: ItemFactory<T>)
    ensures Added(ns + [n], visited, itemFactory) == Added(ns, visited, itemFactory)
              + (if n !in visited && n !in ns && !itemFactory.Wrap(n).IsEmpty() then [itemFactory.Wrap(n)] else [])
  {
    assert (ns + [n])[..|ns + [n]| - 1] == ns;
  }

  /** AddedSnoc, stated after the items already pending. */
  lemma AddedStep<T>(items0: seq<Item<T>>, ns: seq<T>, n: T, visited: set<T>, itemFactory: ItemFactory<T>)
    ensures items0 + Added(ns + [n], visited, itemFactory) == items0 + Added(ns, visited, itemFactory)
              + (if n !in visited && n !in ns && !itemFactory.Wrap(n).IsEmpty() then [itemFactory.Wrap(n)] else [])
  {
    AddedSnoc(ns, n, visited, itemFactory);
  }

  /** The neighbour loop of ConnectedComponentsCount: every unvisited neighbour
      is marked and added; add errors are ignored. */
  method MarkAndAdd<T(==)>(tr: Transporter<T>, ns: seq<T>, visited: set<T>) returns (visited': set<T>)
    requires tr.Valid()
    modifies tr.Repr()
    ensures tr.Valid()
    ensures visited' == visited + Elements(ns)
    ensures tr.Items() == old(tr.Items()) + Added(ns, visited, tr.Factory())
  {
    ghost var f := tr.Factory();
    ghost var items0 := tr.Items();
    visited' := visited;
    var i := 0;
    while i < |ns|
      invariant 0 <= i <= |ns|
      invariant tr.Valid()
      invariant visited' == visited + Elements(ns[..i])
      invariant tr.Items() == items0 + Added(ns[..i], visited, f)
    {
      var neighbor := ns[i];
      ghost var items := tr.Items();
      assert ns[..i + 1] == ns[..i] + [neighbor];
      ElementsSnoc(ns[..i], neighbor);
      AddedStep(items0, ns[..i], neighbor, visited, f);
      assert neighbor in visited' <==> neighbor in visited || neighbor in ns[..i];
      if neighbor !in visited' {
        visited' := visited' + {neighbor};
        var _ := tr.Add(neighbor);
        assert tr.Items() == items + (if f.Wrap(neighbor).IsEmpty() then [] else [f.Wrap(neighbor)]);
      }
      i := i + 1;
    }
    assert ns[..i] == ns;
  }

  /** Every visited node is a key whose whole reach set is visited. */
  ghost predicate ComponentsUnion<T(!new)>(g: Graph<T>, visited: set<T>)
  {
    forall v :: v in visited ==> v in g && ReachSet(g, v) <= visited
  }

  /** What the flood from `k` keeps: the pending items wrap nodes it marked;
      every node it marked has a witness path from `k`; and (in a graph with
      symmetric reachability and no sentinel key, flooding from a union of
      components) every
      node it marked is pending or has all its neighbours marked. */
  ghost predicate FloodInv<T(!new)>(g: Graph<T>, k: T, itemFactory: ItemFactory<T>, complete: bool,
                                    visited0: set<T>, items: seq<Item<T>>, visited: set<T>, paths: map<T, seq<T>>)
  {
    && (forall it :: it in items ==> it == itemFactory.Wrap(it.value) && it.value in visited && it.value !in visited0)
    && k in visited && k in paths && visited0 <= visited
    && (forall v :: v in visited && v !in visited0 ==> v in Nodes(g) && v in paths)
    && (forall v :: v in paths ==> PathFromTo(g, paths[v], k, v))
    && (complete ==> ReachSymmetric(g) && NoSentinelKeys(g, itemFactory) && ComponentsUnion(g, visited0))
    && (complete ==> forall v :: v in visited && v !in visited0 ==>
                       itemFactory.Wrap(v) in items || forall n :: n in Neighbours(g, v) ==> n in visited)
  }

  /** Taking one item and marking and adding its neighbours keeps the flood invariant. */
  lemma FloodStep<T(!new)>(g: Graph<T>, k: T, itemFactory: ItemFactory<T>, complete: bool, visited0: set<T>,
                           before: seq<Item<T>>, after: seq<Item<T>>, it: Item<T>,
                           visited: set<T>, paths: map<T, seq<T>>)
    requires FloodInv(g, k, itemFactory, complete, visited0, before, visited, paths)
    requires TookOne(before, after, it)
    ensures it.value in paths
    ensures
      var ns := Neighbours(g, it.value);
      FloodInv(g, k, itemFactory, complete, visited0, after + Added(ns, visited, itemFactory),
               visited + Elements(ns), ExtendPaths(g, paths, it.value))
    ensures
      var ns := Neighbours(g, it.value);
      && (visited + Elements(ns) == visited ==> Added(ns, visited, itemFactory) == [])
      && (visited + Elements(ns) != visited ==> Nodes(g) - (visited + Elements(ns)) < Nodes(g) - visited)
  {
    var current := it.value;
    var ns := Neighbours(g, current);
    var added := Added(ns, visited, itemFactory);
    var visited' := visited + Elements(ns);
    var paths' := ExtendPaths(g, paths, current);
    AddedItems(ns, visited, itemFactory);
    forall n | n in ns ensures n in Nodes(g) && n in paths' && PathFromTo(g, paths'[n], k, n) {
      assert current in g && n in g[current];
      if n !in paths {
        ExtendPath(g, paths[current], k, current, n);
      }
    }
    if visited' != visited {
      var x :| x in visited' && x !in visited;
      assert x in Nodes(g) - visited;
    }
    var items' := after + added;
    assert forall x :: x in items' <==> x in after || x in added;
    if complete {
      forall v | v in visited' && v !in visited0
        ensures itemFactory.Wrap(v) in items' || forall n :: n in Neighbours(g, v) ==> n in visited'
      {
        if v == current {
        } else if v in visited {
          assert itemFactory.Wrap(v) != it;
        } else {
          assert current in g && v in g[current];
        }
      }
    }
  }

  /** A flood that has nothing pending has marked exactly the reach set of `k`. */
  lemma FloodEnd<T(!new)>(g: Graph<T>, k: T, itemFactory: ItemFactory<T>, visited0: set<T>,
                          visited: set<T>, paths: map<T, seq<T>>)
    requires FloodInv(g, k, itemFactory, true, visited0, [], visited, paths) && k in g
    ensures visited == visited0 + ReachSet(g, k)
  {
    forall v | v in visited && v !in visited0 ensures v in ReachSet(g, k) {
      assert PathFromTo(g, paths[v], k, v);
    }
    assert Closed(g, visited) by {
      forall v, n | v in visited && v in g && n in g[v] ensures n in visited {
        if v in visited0 {
          assert PathFromTo(g, [v, n], v, n);
          assert n in ReachSet(g, v);
        } else {
          assert n in Neighbours(g, v);
        }
      }
    }
    forall w | w in ReachSet(g, k) ensures w in visited {
      var p :| PathFromTo(g, p, k, w);
      ClosedHoldsPath(g, visited, p);
    }
  }

  /** From an unvisited key `k`: mark and add it, then drain the transporter,
      marking and adding the unvisited neighbours of every node taken. The
      error of a failing Next is passed on; it cannot happen, since Next is
      only called on a non-empty transporter. */
  method Flood<T(==,!new)>(tr: Transporter<T>, g: Graph<T>, k: T, visited0: set<T>)
    returns (visited: set<T>, err: Option<Error>)
    requires tr.Valid() && tr.Items() == [] && k in g && k !in visited0
    modifies tr.Repr()
    ensures tr.Valid() && tr.Items() == [] && err == None
    ensures visited0 + {k} <= visited && visited - visited0 <= Nodes(g)
    ensures ReachSymmetric(g) && NoSentinelKeys(g, tr.Factory()) && ComponentsUnion(g, visited0) ==>
              visited == visited0 + ReachSet(g, k)
  {
    var _ := tr.Add(k);
    visited := visited0 + {k};
    ghost var paths := map[k := [k]];
    ghost var complete := ReachSymmetric(g) && NoSentinelKeys(g, tr.Factory()) && ComponentsUnion(g, visited0);
    assert PathFromTo(g, [k], k, k);

    var empty := tr.IsEmpty();
    while !empty
      invariant tr.Valid() && (empty <==> tr.Items() == [])
      invariant FloodInv(g, k, tr.Factory(), complete, visited0, tr.Items(), visited, paths)
      decreases Nodes(g) - visited, |tr.Items()|
    {
      ghost var before := tr.Items();
      var r := tr.Next();
      if r.Fail? {
        return visited, Some(EmptyContainer);
      }
      NextTakesOne(tr, before, tr.Items(), r.value);
      var current := r.value.Value();
      FloodStep(g, k, tr.Factory(), complete, visited0, before, tr.Items(), r.value, visited, paths);
      visited := MarkAndAdd(tr, Neighbours(g, current), visited);
      paths := ExtendPaths(g, paths, current);
      empty := tr.IsEmpty();
    }
    if complete {
      FloodEnd(g, k, tr.Factory(), visited0, visited, paths);
    }
    err := None;
  }

  /** What the key scan keeps, in a graph with symmetric reachability and no
      sentinel key:
      one counted component per flood, each the reach set of a key, and the
      visited nodes exactly the union of the counted components, covering
      every key scanned so far. */
  ghost predicate CountInv<T(!new)>(g: Graph<T>, remaining: set<T>, visited: set<T>, comps: set<set<T>>, count: int)
  {
    && count == |comps|
    && comps <= Components(g)
    && (forall c :: c in comps ==> c <= visited)
    && (forall v :: v in visited ==> v in g && ReachSet(g, v) in comps)
    && g.Keys - remaining <= visited
  }

  /** The visited nodes of the key scan are a union of components. */
  lemma CountInvUnion<T(!new)>(g: Graph<T>, remaining: set<T>, visited: set<T>, comps: set<set<T>>, count: int)
    requires CountInv(g, remaining, visited, comps, count)
    ensures ComponentsUnion(g, visited)
  {
  }

  /** Flooding from an unvisited key adds one new component to the count. */
  lemma CountStep<T(!new)>(g: Graph<T>, node: T, remaining: set<T>, visited: set<T>, comps: set<set<T>>,
                           count: int)
    requires ReachSymmetric(g) && CountInv(g, remaining, visited, comps, count)
    requires node in remaining && remaining <= g.Keys && node !in visited
    ensures CountInv(g, remaining - {node}, visited + ReachSet(g, node), comps + {ReachSet(g, node)}, count + 1)
  {
    var R := ReachSet(g, node);
    ReachSetHasKey(g, node);
    assert R !in comps;
    var visited' := visited + R;
    forall v | v in visited' ensures v in g && ReachSet(g, v) in comps + {R} {
      if v !in visited {
        SameComponent(g, node, v);
      }
    }
  }

  /** Scanning one more key adds one to the number of keys scanned. */
  lemma RemoveOneKey<T>(g: Graph<T>, remaining: set<T>, node: T)
    requires remaining <= g.Keys && node in remaining
    ensures |g.Keys - (remaining - {node})| == |g.Keys - remaining| + 1
  {
    assert g.Keys - (remaining - {node}) == (g.Keys - remaining) + {node};
  }

  /** What the key scan keeps: the count is at least one once a key was
      scanned and at most the number of keys scanned, and (when `complete`)
      CountInv holds. */
  ghost predicate ScanInv<T(!new)>(g: Graph<T>, itemFactory: ItemFactory<T>, complete: bool,
                                   remaining: set<T>, visited: set<T>, comps: set<set<T>>, count: int)
  {
    && remaining <= g.Keys
    && 0 <= count <= |g.Keys - remaining|
    && (remaining != g.Keys ==> count >= 1)
    && (remaining == g.Keys ==> visited == {})
    && (complete ==> ReachSymmetric(g) && NoSentinelKeys(g, itemFactory) && CountInv(g, remaining, visited, comps, count))
  }

  /** The body of the key scan: an unvisited key is counted and flooded, a
      visited one is passed over. */
  method ScanKey<T(==,!new)>(tr: Transporter<T>, g: Graph<T>, ghost complete: bool, node: T, ghost remaining: set<T>,
                             visited: set<T>, count: int, ghost comps: set<set<T>>)
    returns (visited': set<T>, count': int, err: Option<Error>, ghost comps': set<set<T>>)
    requires tr.Valid() && tr.Items() == [] && node in remaining
    requires ScanInv(g, tr.Factory(), complete, remaining, visited, comps, count)
    modifies tr.Repr()
    ensures tr.Valid() && tr.Items() == [] && err == None
    ensures ScanInv(g, tr.Factory(), complete, remaining - {node}, visited', comps', count')
    ensures node in visited ==> visited' == visited && count' == count
    ensures node !in visited ==> count' == count + 1 && visited + {node} <= visited'
  {
    RemoveOneKey(g, remaining, node);
    if node in visited {
      return visited, count, None, comps;
    }
    if complete {
      CountInvUnion(g, remaining, visited, comps, count);
      CountStep(g, node, remaining, visited, comps, count);
    }
    count' := count + 1;
    visited', err := Flood(tr, g, node, visited);
    comps' := comps + {ReachSet(g, node)};
  }

  /** A finished key scan has counted every component. */
  lemma ScanEnd<T(!new)>(g: Graph<T>, itemFactory: ItemFactory<T>, complete: bool,
                         visited: set<T>, comps: set<set<T>>, count: int)
    requires ScanInv(g, itemFactory, complete, {}, visited, comps, count)
    ensures 0 <= count <= |g.Keys|
    ensures |g| > 0 ==> count >= 1
    ensures complete ==> count == |Components(g)|
  {
    assert g.Keys - {} == g.Keys;
    if complete {
      assert comps == Components(g);
    }
  }

  /** The key scan over a fresh transporter: every key is scanned once, in an
      order the model leaves open. */
  method CountComponents<T(==,!new)>(tr: Transporter<T>, g: Graph<T>) returns (count: int, err: Option<Error>)
    requires tr.Valid() && tr.Items() == []
    modifies tr.Repr()
    ensures err == None
    ensures 0 <= count <= |g.Keys|
    ensures |g| > 0 ==> count >= 1
    ensures ReachSymmetric(g) && NoSentinelKeys(g, tr.Factory()) ==> count == |Components(g)|
  {
    var visited: set<T> := {};
    count := 0;
    // the keys the scan has not reached yet; Go ranges over the map in an unspecified order
    var remaining := g.Keys;
    ghost var comps: set<set<T>> := {};
    ghost var complete := ReachSymmetric(g) && NoSentinelKeys(g, tr.Factory());

    while remaining != {}
      invariant tr.Valid() && tr.Items() == []
      invariant ScanInv(g, tr.Factory(), complete, remaining, visited, comps, count)
      decreases remaining
    {
      var node :| node in remaining;
      var e;
      visited, count, e, comps := ScanKey(tr, g, complete, node, remaining, visited, count, comps);
      if e.Some? {
        return count, e;
      }
      remaining := remaining - {node};
    }
    ScanEnd(g, tr.Factory(), complete, visited, comps, count);
    err := None;
  }

  /** ConnectedComponentsCount. An empty graph and an unknown strategy give 0.
      Otherwise the count is at least 1 and at most the number of keys. In a
      graph without sentinel keys whose reachability is symmetric (every
      symmetric graph, and every strongly connected one) it is the number of
      components, whatever order the keys are scanned in. */
  method ConnectedComponentsCount<T(==,!new)>(strategy: TraversalStrategy, g: Graph<T>, itemFactory: ItemFactory<T>)
    returns (count: int, err: Option<Error>)
    ensures err == None
    ensures 0 <= count <= |g.Keys|
    ensures |g| == 0 || (strategy != StackTraversal && strategy != QueueTraversal) ==> count == 0
    ensures |g| > 0 && (strategy == StackTraversal || strategy == QueueTraversal) ==> count >= 1
    ensures ReachSymmetric(g) && NoSentinelKeys(g, itemFactory) && (strategy == StackTraversal || strategy == QueueTraversal) ==>
              count == |Components(g)|
  {
    if |g| == 0 {
      return 0, None;
    }
    var t := NewTransporter(strategy, itemFactory);
    if t.None? {
      return 0, None;
    }
    count, err := CountComponents(t.value, g);
  }

  /** The repository's "Graph with Cycles" case, 1 -> 2 -> 3 -> 1: a directed
      graph whose keys all reach each other. */
  function CycleGraph(): Graph<int>
  {
    map[1 := [2], 2 := [3], 3 := [1]]
  }

  /** The key after `a` on the cycle. */
  function CycleNext(a: int): int
  {
    if a == 3 then 1 else a + 1
  }

  /** Each key of the cycle reaches the next one along a single edge. */
  lemma CycleStep(a: int)
    requires a in CycleGraph()
    ensures Reachable(CycleGraph(), a, CycleNext(a))
  {
    assert PathFromTo(CycleGraph(), [a, CycleNext(a)], a, CycleNext(a));
  }

  /** In the cycle every key reaches every key, in at most two steps. */
  lemma CycleReachesAll(a: int, b: int)
    requires a in CycleGraph() && b in CycleGraph()
    ensures Reachable(CycleGraph(), a, b)
  {
    var g := CycleGraph();
    if b == a {
      assert PathFromTo(g, [a], a, b);
    } else if b == CycleNext(a) {
      CycleStep(a);
    } else {
      CycleStep(a);
      CycleStep(CycleNext(a));
      ReachableTrans(g, a, CycleNext(a), b);
    }
  }

  /** Every key of the cycle has all three keys as its reach set. */
  lemma CycleReachSet(a: int)
    requires a in CycleGraph()
    ensures ReachSet(CycleGraph(), a) == {1, 2, 3}
  {
    forall b | b in CycleGraph() ensures Reachable(CycleGraph(), a, b) {
      CycleReachesAll(a, b);
    }
  }

  /** The cycle has symmetric reachability, no sentinel key and one component. */
  lemma CycleIsOneComponent()
    ensures ReachSymmetric(CycleGraph()) && NoSentinelKeys(CycleGraph(), IntItemFactory())
    ensures |Components(CycleGraph())| == 1
  {
    var g := CycleGraph();
    forall a | a in g ensures ReachSet(g, a) == {1, 2, 3} {
      CycleReachSet(a);
    }
    assert Components(g) == {{1, 2, 3}} by {
      assert ReachSet(g, 1) in Components(g);
    }
  }

  /** ConnectedComponentsCount gives 1 on the cycle with either strategy, as
      the repository's tests expect. */
  method CycleScenario() returns (byStack: int, byQueue: int)
    ensures byStack == 1 && byQueue == 1
  {
    CycleIsOneComponent();
    var e;
    byStack, e := ConnectedComponentsCount(StackTraversal, CycleGraph(), IntItemFactory());
    byQueue, e := ConnectedComponentsCount(QueueTraversal, CycleGraph(), IntItemFactory());
  }
}
