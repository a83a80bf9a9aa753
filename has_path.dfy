/** HasPath: whether a destination can be reached from a source through keys
    of the graph, searched with either traversal strategy and stopping at the
    first sighting of the destination. */
module HasPathSearch {
  import opened Common
  import opened GraphPaths
  import opened GraphTraversal

  /** What the search keeps: every pending item wraps a visited node; the
      visited nodes are keys with a trail path through keys from `src`;
      `dst` is never marked (the search stops when it sees it); and every
      visited node is pending, being scanned (in `scanning`), or has all its
      key neighbours visited. */
  ghost predicate Inv<T(!new)>(g: Graph<T>, src: T, dst: T, itemFactory: ItemFactory<T>, items: seq<Item<T>>,
                               visited: set<T>, paths: map<T, seq<T>>, scanning: set<T>)
  {
    && (forall it :: it in items ==> it == itemFactory.Wrap(it.value) && it.value in visited)
    && src in visited && dst !in visited
    && (forall v :: v in visited ==> v in g && v in paths)
    && (forall v :: v in paths ==> PathFromTo(g, paths[v], src, v) && KeyPath(g, paths[v]))
    && (forall v :: v in visited ==>
          v in scanning || itemFactory.Wrap(v) in items || forall n :: n in g[v] && n in g ==> n in visited)
  }

  /** `p` is a path through keys from `s` to `d`. */
  ghost predicate Reaches<T>(g: Graph<T>, p: seq<T>, s: T, d: T)
  {
    PathFromTo(g, p, s, d) && KeyPath(g, p)
  }

  /** `p` is a path through keys from `s` whose last node is the factory's sentinel. */
  ghost predicate ReachesSentinel<T>(g: Graph<T>, p: seq<T>, s: T, itemFactory: ItemFactory<T>)
  {
    |p| > 0 && Reaches(g, p, s, p[|p| - 1]) && itemFactory.Wrap(p[|p| - 1]).IsEmpty()
  }

  /** Taking the next item starts the scan of its node. */
  lemma NextKeepsInv<T(!new)>(g: Graph<T>, src: T, dst: T, itemFactory: ItemFactory<T>,
                              before: seq<Item<T>>, after: seq<Item<T>>, it: Item<T>,
                              visited: set<T>, paths: map<T, seq<T>>)
    requires Inv(g, src, dst, itemFactory, before, visited, paths, {})
    requires TookOne(before, after, it)
    ensures it.value in visited
    ensures Inv(g, src, dst, itemFactory, after, visited, paths, {it.value})
  {
  }

  /** Marking an unvisited key neighbour that is not `dst` and adding it keeps the invariant. */
  lemma AddKeepsInv<T(!new)>(g: Graph<T>, src: T, dst: T, itemFactory: ItemFactory<T>, items: seq<Item<T>>,
                             visited: set<T>, paths: map<T, seq<T>>, current: T, n: T)
    requires Inv(g, src, dst, itemFactory, items, visited, paths, {current})
    requires current in visited && n in g[current] && n in g && n != dst && n !in visited
    requires !itemFactory.Wrap(n).IsEmpty()
    ensures Inv(g, src, dst, itemFactory, items + [itemFactory.Wrap(n)], visited + {n},
                paths[n := paths[current] + [n]], {current})
  {
    ExtendKeyPath(g, paths[current], src, current, n);
    var items' := items + [itemFactory.Wrap(n)];
    assert forall x :: x in items' <==> x in items || x == itemFactory.Wrap(n);
  }

  /** A scan that has reached every key neighbour of `current` is complete. */
  lemma ScanDoneKeepsInv<T(!new)>(g: Graph<T>, src: T, dst: T, itemFactory: ItemFactory<T>, items: seq<Item<T>>,
                                  visited: set<T>, paths: map<T, seq<T>>, current: T)
    requires Inv(g, src, dst, itemFactory, items, visited, paths, {current})
    requires current in g && forall n :: n in g[current] && n in g ==> n in visited
    ensures Inv(g, src, dst, itemFactory, items, visited, paths, {})
  {
  }

  /** Once nothing is pending and nothing is being scanned, `dst` cannot be reached. */
  lemma InvAtEnd<T(!new)>(g: Graph<T>, src: T, dst: T, itemFactory: ItemFactory<T>,
                          visited: set<T>, paths: map<T, seq<T>>)
    requires Inv(g, src, dst, itemFactory, [], visited, paths, {})
    ensures !KeyReachable(g, src, dst)
  {
    assert KeyClosed(g, visited);
    if KeyReachable(g, src, dst) {
      var p :| PathFromTo(g, p, src, dst) && KeyPath(g, p);
      KeyClosedHoldsKeyPath(g, visited, p);
    }
  }

  /** One round of the neighbour loop of HasPath: a non-key is skipped, `dst`
      ends the search with true, and an unvisited key is marked and added; a
      failed add ends the search with its error. */
  method VisitNeighbour<T(==,!new)>(t: Transporter<T>, g: Graph<T>, src: T, dst: T, current: T, neighbor: T,
                                    visited: set<T>, ghost paths: map<T, seq<T>>)
    returns (found: bool, err: Option<Error>, visited': set<T>, ghost paths': map<T, seq<T>>, ghost trail: seq<T>)
    requires t.Valid() && current in visited && current in g && neighbor in g[current]
    requires Inv(g, src, dst, t.Factory(), t.Items(), visited, paths, {current})
    modifies t.Repr()
    ensures t.Valid()
    ensures found ==> err == None && Reaches(g, trail, src, dst)
    ensures err.Some? ==> !found && err == Some(InvalidElement) && ReachesSentinel(g, trail, src, t.Factory())
    ensures !found && err == None ==>
              Inv(g, src, dst, t.Factory(), t.Items(), visited', paths', {current}) &&
              (neighbor in g ==> neighbor in visited')
    ensures visited <= visited' <= g.Keys
    ensures visited' == visited ==> t.Items() == old(t.Items())
  {
    found, err, visited', paths', trail := false, None, visited, paths, [];
    // neighbours that are not keys are skipped
    if neighbor !in g {
      return;
    }
    trail := paths[current] + [neighbor];
    ExtendKeyPath(g, paths[current], src, current, neighbor);
    if neighbor == dst {
      found := true;
      return;
    }
    if neighbor !in visited {
      if !t.Factory().Wrap(neighbor).IsEmpty() {
        AddKeepsInv(g, src, dst, t.Factory(), t.Items(), visited, paths, current, neighbor);
      }
      visited' := visited + {neighbor};
      paths' := paths[neighbor := paths[current] + [neighbor]];
      err := t.Add(neighbor);
    }
  }

  /** What the neighbour loop keeps after `j` rounds: the search invariant
      with `current` being scanned, the visited set grown from `visited0`
      within the keys, the items unchanged while nothing was marked, and every
      key among the first `j` neighbours visited. */
  ghost predicate ScanInv<T(!new)>(g: Graph<T>, src: T, dst: T, itemFactory: ItemFactory<T>, current: T,
                                   ns: seq<T>, j: int, items0: seq<Item<T>>, visited0: set<T>,
                                   items: seq<Item<T>>, visited: set<T>, paths: map<T, seq<T>>)
  {
    && 0 <= j <= |ns|
    && Inv(g, src, dst, itemFactory, items, visited, paths, {current})
    && visited0 <= visited <= g.Keys
    && (visited == visited0 ==> items == items0)
    && (forall n :: n in ns[..j] && n in g ==> n in visited)
  }

  /** A round that neither finds `dst` nor fails extends the scanned prefix. */
  lemma RoundKeepsScanInv<T(!new)>(g: Graph<T>, src: T, dst: T, itemFactory: ItemFactory<T>, current: T,
                                   ns: seq<T>, j: int, items0: seq<Item<T>>, visited0: set<T>,
                                   items: seq<Item<T>>, visited: set<T>, paths: map<T, seq<T>>,
                                   items': seq<Item<T>>, visited': set<T>, paths': map<T, seq<T>>)
    requires ScanInv(g, src, dst, itemFactory, current, ns, j, items0, visited0, items, visited, paths)
    requires j < |ns|
    requires Inv(g, src, dst, itemFactory, items', visited', paths', {current})
    requires ns[j] in g ==> ns[j] in visited'
    requires visited <= visited' <= g.Keys
    requires visited' == visited ==> items' == items
    ensures ScanInv(g, src, dst, itemFactory, current, ns, j + 1, items0, visited0, items', visited', paths')
  {
    assert ns[..j + 1] == ns[..j] + [ns[j]];
  }

  /** A loop that has scanned every neighbour of `current` leaves the search invariant with nothing being scanned. */
  lemma ScanInvAtEnd<T(!new)>(g: Graph<T>, src: T, dst: T, itemFactory: ItemFactory<T>, current: T,
                              ns: seq<T>, items0: seq<Item<T>>, visited0: set<T>,
                              items: seq<Item<T>>, visited: set<T>, paths: map<T, seq<T>>)
    requires current in g && ns == g[current]
    requires ScanInv(g, src, dst, itemFactory, current, ns, |ns|, items0, visited0, items, visited, paths)
    ensures Inv(g, src, dst, itemFactory, items, visited, paths, {})
  {
    assert ns[..|ns|] == ns;
    ScanDoneKeepsInv(g, src, dst, itemFactory, items, visited, paths, current);
  }

  /** Round `j` of the neighbour loop: visits `ns[j]` and, unless the search
      stops there, extends the scanned prefix by one. */
  method ScanRound<T(==,!new)>(t: Transporter<T>, g: Graph<T>, src: T, dst: T, current: T, ns: seq<T>, j: int,
                               ghost items0: seq<Item<T>>, ghost visited0: set<T>,
                               visited: set<T>, ghost paths: map<T, seq<T>>)
    returns (found: bool, err: Option<Error>, visited': set<T>, ghost paths': map<T, seq<T>>, ghost trail: seq<T>)
    requires t.Valid() && current in visited && current in g && ns == g[current] && j < |ns|
    requires ScanInv(g, src, dst, t.Factory(), current, ns, j, items0, visited0, t.Items(), visited, paths)
    modifies t.Repr()
    ensures t.Valid()
    ensures found ==> err == None && Reaches(g, trail, src, dst)
    ensures err.Some? ==> !found && err == Some(InvalidElement) && ReachesSentinel(g, trail, src, t.Factory())
    ensures !found && err == None ==>
              ScanInv(g, src, dst, t.Factory(), current, ns, j + 1, items0, visited0, t.Items(), visited', paths')
    ensures visited0 <= visited' <= g.Keys
    ensures visited' == visited0 ==> t.Items() == items0
  {
    ghost var items := t.Items();
    found, err, visited', paths', trail := VisitNeighbour(t, g, src, dst, current, ns[j], visited, paths);
    if !found && err == None {
      RoundKeepsScanInv(g, src, dst, t.Factory(), current, ns, j, items0, visited0, items, visited,
                        paths, t.Items(), visited', paths');
    }
  }

  /** The neighbour loop of HasPath for `current`, stopping at the first round
      that finds `dst` or fails. */
  method ScanNeighbours<T(==,!new)>(t: Transporter<T>, g: Graph<T>, src: T, dst: T, current: T,
                                    visited: set<T>, ghost paths: map<T, seq<T>>)
    returns (found: bool, err: Option<Error>, visited': set<T>, ghost paths': map<T, seq<T>>, ghost trail: seq<T>)
    requires t.Valid() && current in visited
    requires Inv(g, src, dst, t.Factory(), t.Items(), visited, paths, {current})
    modifies t.Repr()
    ensures t.Valid()
    ensures found ==> err == None && Reaches(g, trail, src, dst)
    ensures err.Some? ==> !found && err == Some(InvalidElement) && ReachesSentinel(g, trail, src, t.Factory())
    ensures !found && err == None ==> Inv(g, src, dst, t.Factory(), t.Items(), visited', paths', {})
    ensures visited <= visited' <= g.Keys
    ensures visited' == visited ==> t.Items() == old(t.Items())
  {
    var ns := g[current];
    ghost var items0 := t.Items();
    found, err, trail := false, None, [];
    visited', paths' := visited, paths;
    var j := 0;
    while j < |ns|
      invariant t.Valid() && !found && err == None
      invariant ScanInv(g, src, dst, t.Factory(), current, ns, j, items0, visited, t.Items(), visited', paths')
    {
      found, err, visited', paths', trail := ScanRound(t, g, src, dst, current, ns, j, items0, visited, visited', paths');
      if found || err.Some? {
        return;
      }
      j := j + 1;
    }
    ScanInvAtEnd(g, src, dst, t.Factory(), current, ns, items0, visited, t.Items(), visited', paths');
  }

  /** The main loop of HasPath: take the next node and scan its neighbours
      until `dst` is seen, an add fails, or nothing is pending. */
  method Explore<T(==,!new)>(tr: Transporter<T>, g: Graph<T>, src: T, dst: T,
                             visited0: set<T>, ghost paths0: map<T, seq<T>>)
    returns (found: bool, err: Option<Error>)
    requires tr.Valid() && Inv(g, src, dst, tr.Factory(), tr.Items(), visited0, paths0, {})
    modifies tr.Repr()
    ensures found ==> err == None && KeyReachable(g, src, dst)
    ensures err.Some? ==> !found && err == Some(InvalidElement) &&
                          exists v :: v in g && KeyReachable(g, src, v) && tr.Factory().Wrap(v).IsEmpty()
    ensures !found && err == None ==> !KeyReachable(g, src, dst)
  {
    var visited := visited0;
    ghost var paths := paths0;
    var empty := tr.IsEmpty();
    while !empty
      invariant tr.Valid() && (empty <==> tr.Items() == [])
      invariant Inv(g, src, dst, tr.Factory(), tr.Items(), visited, paths, {})
      decreases g.Keys - visited, |tr.Items()|
    {
      ghost var before := tr.Items();
      var r := tr.Next();
      if r.Fail? {
        return false, Some(EmptyContainer);
      }
      NextTakesOne(tr, before, tr.Items(), r.value);
      NextKeepsInv(g, src, dst, tr.Factory(), before, tr.Items(), r.value, visited, paths);
      var current := r.value.Value();
      ghost var trail;
      found, err, visited, paths, trail := ScanNeighbours(tr, g, src, dst, current, visited, paths);
      if found || err.Some? {
        assert KeyReachable(g, src, trail[|trail| - 1]);
        return;
      }
      empty := tr.IsEmpty();
    }
    InvAtEnd(g, src, dst, tr.Factory(), visited, paths);
    return false, None;
  }

  /** HasPath. Both ends must be keys; equal ends are found without a search;
      an unknown strategy finds nothing; a failed add is returned as the error.
      With known strategy and no error, the answer is exactly whether `dst` can
      be reached from `src` through keys, whichever strategy is used. */
  method HasPath<T(==,!new)>(strategy: TraversalStrategy, g: Graph<T>, src: T, dst: T, itemFactory: ItemFactory<T>)
    returns (found: bool, err: Option<Error>)
    ensures src !in g || dst !in g ==> !found && err == None
    ensures src in g && dst in g && src == dst ==> found && err == None
    ensures src != dst && strategy != StackTraversal && strategy != QueueTraversal ==> !found && err == None
    ensures found ==> err == None && KeyReachable(g, src, dst)
    ensures err.Some? ==> !found && err == Some(InvalidElement) &&
                          exists v :: v in g && KeyReachable(g, src, v) && itemFactory.Wrap(v).IsEmpty()
    ensures src in g && dst in g && (strategy == StackTraversal || strategy == QueueTraversal) && err == None ==>
              (found <==> KeyReachable(g, src, dst))
    ensures NoSentinelKeys(g, itemFactory) ==> err == None
  {
    if src !in g {
      return false, None;
    }
    if dst !in g {
      return false, None;
    }
    if src == dst {
      assert PathFromTo(g, [src], src, dst) && KeyPath(g, [src]);
      return true, None;
    }

    var t := NewTransporter(strategy, itemFactory);
    if t.None? {
      return false, None;
    }
    var tr := t.value;

    var visited := {src};
    ghost var paths := map[src := [src]];
    assert PathFromTo(g, [src], src, src) && KeyPath(g, [src]);
    err := tr.Add(src);
    if err.Some? {
      return false, err;
    }

    found, err := Explore(tr, g, src, dst, visited, paths);
  }

  /** With no sentinel key, both strategies give the same answer. */
  method SameAnswerBothStrategies<T(==,!new)>(g: Graph<T>, src: T, dst: T, itemFactory: ItemFactory<T>)
    returns (byStack: bool, byQueue: bool)
    requires NoSentinelKeys(g, itemFactory)
    ensures byStack == byQueue
    ensures src in g && dst in g ==> (byStack <==> KeyReachable(g, src, dst))
  {
    var err;
    byStack, err := HasPath(StackTraversal, g, src, dst, itemFactory);
    byQueue, err := HasPath(QueueTraversal, g, src, dst, itemFactory);
  }
}
