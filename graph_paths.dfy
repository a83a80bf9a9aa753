/** Graphs as the traversal algorithms see them (adjacency maps), paths through
    them, and the closure facts the traversal proofs rest on. */
module GraphPaths {
  import opened Common

  /** Node identifier to its ordered list of neighbours. A node without an
      entry does not exist for the algorithms that check keys. */
  type Graph<T> = map<T, seq<T>>

  /** What Go's `g[v]` yields: the list, or nil (no neighbours) for a missing key. */
  function Neighbours<T>(g: Graph<T>, v: T): (ns: seq<T>)
    ensures v in g ==> ns == g[v]
    ensures v !in g ==> ns == []
  {
    if v in g then g[v] else []
  }

  ghost predicate NoDuplicates<T>(s: seq<T>)
  {
    forall i, j :: 0 <= i < j < |s| ==> s[i] != s[j]
  }

  /** A list without duplicates has as many elements as the set of its values. */
  lemma {:induction false} DistinctCount<T>(s: seq<T>, S: set<T>)
    requires NoDuplicates(s) && forall v :: v in s <==> v in S
    ensures |s| == |S|
    decreases |s|
  {
    if s != [] {
      var init := s[..|s| - 1];
      var last := s[|s| - 1];
      assert NoDuplicates(init) by {
        forall i, j | 0 <= i < j < |init| ensures init[i] != init[j] {
          assert init[i] == s[i] && init[j] == s[j];
        }
      }
      assert s == init + [last];
      assert last !in init;
      DistinctCount(init, S - {last});
    }
  }

  /** A walk along edges: every node but the last is a key, and each next node
      is listed among the neighbours of the one before. */
  ghost predicate IsPath<T>(g: Graph<T>, p: seq<T>)
  {
    |p| > 0 && forall i :: 0 <= i < |p| - 1 ==> p[i] in g && p[i + 1] in g[p[i]]
  }

  ghost predicate PathFromTo<T>(g: Graph<T>, p: seq<T>, s: T, d: T)
  {
    IsPath(g, p) && p[0] == s && p[|p| - 1] == d
  }

  /** A path all of whose nodes are keys. */
  ghost predicate KeyPath<T>(g: Graph<T>, p: seq<T>)
  {
    IsPath(g, p) && forall i :: 0 <= i < |p| ==> p[i] in g
  }

  /** `d` can be reached from `s` by following edges (d itself need not be a key). */
  ghost predicate Reachable<T(!new)>(g: Graph<T>, s: T, d: T)
  {
    exists p :: PathFromTo(g, p, s, d)
  }

  /** `d` can be reached from `s` through keys only. */
  ghost predicate KeyReachable<T(!new)>(g: Graph<T>, s: T, d: T)
  {
    exists p :: PathFromTo(g, p, s, d) && KeyPath(g, p)
  }

  /** Every neighbour of a key in S is in S. */
  ghost predicate Closed<T>(g: Graph<T>, S: set<T>)
  {
    forall v, n :: v in S && v in g && n in g[v] ==> n in S
  }

  /** Every neighbour that is a key, of a key in S, is in S. */
  ghost predicate KeyClosed<T>(g: Graph<T>, S: set<T>)
  {
    forall v, n :: v in S && v in g && n in g[v] && n in g ==> n in S
  }

  /** Every edge has its reverse. */
  ghost predicate Symmetric<T>(g: Graph<T>)
  {
    forall v, n :: v in g && n in g[v] ==> n in g && v in g[n]
  }

  /** Every key and every listed neighbour. */
  ghost function Nodes<T>(g: Graph<T>): set<T>
  {
    g.Keys + set v, n | v in g && n in g[v] :: n
  }

  /** The keys reachable from k. */
  ghost function ReachSet<T(!new)>(g: Graph<T>, k: T): set<T>
  {
    set v | v in g.Keys && Reachable(g, k, v)
  }

  /** The components: one reach set per key. In a symmetric graph these are the
      classes of the undirected "connected" relation. */
  ghost function Components<T(!new)>(g: Graph<T>): set<set<T>>
  {
    set k | k in g.Keys :: ReachSet(g, k)
  }

  /** The witness paths after visiting `current`: each neighbour without a
      path yet gets the path to `current` extended by one edge. */
  ghost function ExtendPaths<T>(g: Graph<T>, paths: map<T, seq<T>>, current: T): (paths': map<T, seq<T>>)
    requires current in paths
    ensures paths'.Keys == paths.Keys + set n | n in Neighbours(g, current)
    ensures forall v :: v in paths ==> paths'[v] == paths[v]
    ensures forall n :: n in Neighbours(g, current) && n !in paths ==> paths'[n] == paths[current] + [n]
  {
    paths + map n | n in Neighbours(g, current) && n !in paths :: paths[current] + [n]
  }

  lemma ExtendPath<T>(g: Graph<T>, p: seq<T>, s: T, v: T, n: T)
    requires PathFromTo(g, p, s, v) && v in g && n in g[v]
    ensures PathFromTo(g, p + [n], s, n)
  {
  }

  /** A path through keys extended by an edge to a key is still one. */
  lemma ExtendKeyPath<T>(g: Graph<T>, p: seq<T>, s: T, v: T, n: T)
    requires PathFromTo(g, p, s, v) && KeyPath(g, p) && n in g[v] && n in g
    ensures PathFromTo(g, p + [n], s, n) && KeyPath(g, p + [n])
  {
    assert v in g;
  }

  /** A closed set that holds the start of a path holds its end. */
  lemma {:induction false} ClosedHoldsPath<T>(g: Graph<T>, S: set<T>, p: seq<T>)
    requires Closed(g, S) && IsPath(g, p) && p[0] in S
    ensures p[|p| - 1] in S
    decreases |p|
  {
    if |p| > 1 {
      var q := p[..|p| - 1];
      assert IsPath(g, q) by {
        forall i | 0 <= i < |q| - 1 ensures q[i] in g && q[i + 1] in g[q[i]] {
          assert q[i] == p[i] && q[i + 1] == p[i + 1];
        }
      }
      ClosedHoldsPath(g, S, q);
      assert p[|p| - 2] in S && p[|p| - 2] in g && p[|p| - 1] in g[p[|p| - 2]];
    }
  }

  /** A key-closed set that holds the start of a path through keys holds its end. */
  lemma {:induction false} KeyClosedHoldsKeyPath<T>(g: Graph<T>, S: set<T>, p: seq<T>)
    requires KeyClosed(g, S) && KeyPath(g, p) && p[0] in S
    ensures p[|p| - 1] in S
    decreases |p|
  {
    if |p| > 1 {
      var q := p[..|p| - 1];
      assert KeyPath(g, q) by {
        forall i | 0 <= i < |q| - 1 ensures q[i] in g && q[i + 1] in g[q[i]] {
          assert q[i] == p[i] && q[i + 1] == p[i + 1];
        }
        forall i | 0 <= i < |q| ensures q[i] in g {
          assert q[i] == p[i];
        }
      }
      KeyClosedHoldsKeyPath(g, S, q);
      assert p[|p| - 2] in S && p[|p| - 2] in g && p[|p| - 1] in g[p[|p| - 2]] && p[|p| - 1] in g;
    }
  }

  /** A path whose last node is a key runs through keys only. */
  lemma KeyEndMakesKeyPath<T>(g: Graph<T>, p: seq<T>)
    requires IsPath(g, p) && p[|p| - 1] in g
    ensures KeyPath(g, p)
  {
    forall i | 0 <= i < |p| ensures p[i] in g {
      if i < |p| - 1 {
        assert p[i] in g && p[i + 1] in g[p[i]];
      }
    }
  }

  /** Reachability is transitive: paths compose. */
  lemma ReachableTrans<T(!new)>(g: Graph<T>, a: T, b: T, c: T)
    requires Reachable(g, a, b) && Reachable(g, b, c)
    ensures Reachable(g, a, c)
  {
    var p :| PathFromTo(g, p, a, b);
    var q :| PathFromTo(g, q, b, c);
    var r := p + q[1..];
    forall i | 0 <= i < |r| - 1 ensures r[i] in g && r[i + 1] in g[r[i]] {
      if i < |p| - 1 {
        assert r[i] == p[i] && r[i + 1] == p[i + 1];
      } else {
        var j := i - |p| + 1;
        assert r[i] == q[j] && r[i + 1] == q[j + 1];
      }
    }
    assert PathFromTo(g, r, a, c);
  }

  /** In a symmetric graph reachability is symmetric: a path reversed is a path. */
  lemma ReachableSym<T(!new)>(g: Graph<T>, a: T, b: T)
    requires Symmetric(g) && Reachable(g, a, b)
    ensures Reachable(g, b, a)
  {
    var p :| PathFromTo(g, p, a, b);
    var r := seq(|p|, i requires 0 <= i < |p| => p[|p| - 1 - i]);
    forall i | 0 <= i < |r| - 1 ensures r[i] in g && r[i + 1] in g[r[i]] {
      var j := |p| - 2 - i;
      assert p[j] in g && p[j + 1] in g[p[j]];
      assert r[i] == p[j + 1] && r[i + 1] == p[j];
    }
    assert PathFromTo(g, r, b, a);
  }

  /** A key is in its own reach set. */
  lemma ReachSetHasKey<T(!new)>(g: Graph<T>, k: T)
    requires k in g
    ensures k in ReachSet(g, k)
  {
    assert PathFromTo(g, [k], k, k);
  }

  /** Every listed neighbour is a key, and a key reached from another key
      reaches it back: the graphs whose reach sets partition the keys. Every
      symmetric graph is one, and so is every strongly connected graph. */
  ghost predicate ReachSymmetric<T(!new)>(g: Graph<T>)
  {
    && (forall v, n :: v in g && n in g[v] ==> n in g)
    && (forall a, b :: a in g && b in ReachSet(g, a) ==> a in ReachSet(g, b))
  }

  /** A symmetric graph has symmetric reachability. */
  lemma SymmetricIsReachSymmetric<T(!new)>(g: Graph<T>)
    requires Symmetric(g)
    ensures ReachSymmetric(g)
  {
    forall a, b | a in g && b in ReachSet(g, a) ensures a in ReachSet(g, b) {
      ReachableSym(g, a, b);
    }
  }

  /** When reachability is symmetric, every key of a reach set has that same reach set. */
  lemma SameComponent<T(!new)>(g: Graph<T>, k: T, v: T)
    requires ReachSymmetric(g) && k in g && v in ReachSet(g, k)
    ensures ReachSet(g, v) == ReachSet(g, k)
  {
    forall w | w in ReachSet(g, v) ensures w in ReachSet(g, k) {
      ReachableTrans(g, k, v, w);
    }
    assert k in ReachSet(g, v);
    forall w | w in ReachSet(g, k) ensures w in ReachSet(g, v) {
      ReachableTrans(g, v, k, w);
    }
  }

  /** When every listed neighbour is a key, reaching and reaching through keys agree. */
  lemma AllNeighboursKeysReach<T(!new)>(g: Graph<T>, s: T, d: T)
    requires s in g && forall v, n :: v in g && n in g[v] ==> n in g
    ensures Reachable(g, s, d) <==> KeyReachable(g, s, d)
  {
    if Reachable(g, s, d) {
      var p :| PathFromTo(g, p, s, d);
      if |p| > 1 {
        assert p[|p| - 2] in g && p[|p| - 1] in g[p[|p| - 2]];
      }
      KeyEndMakesKeyPath(g, p);
    }
  }

  /** No key of the graph is the factory's sentinel. */
  ghost predicate NoSentinelKeys<T>(graph: Graph<T>, itemFactory: ItemFactory<T>)
  {
    forall k :: k in graph ==> !itemFactory.Wrap(k).IsEmpty()
  }

  /** No key and no listed neighbour of the graph is the factory's sentinel. */
  ghost predicate NoSentinelNodes<T>(graph: Graph<T>, itemFactory: ItemFactory<T>)
  {
    forall v :: v in graph ==> !itemFactory.Wrap(v).IsEmpty() && forall n :: n in graph[v] ==> !itemFactory.Wrap(n).IsEmpty()
  }

  /** The items the neighbour loop of the DFS and BFS searches adds: each neighbour not yet visited, in
      order, except those the container refuses as empty. */
  function Pushed<T(==)>(neighbours: seq<T>, visited: set<T>, itemFactory: ItemFactory<T>): seq<Item<T>>
  {
    if neighbours == [] then []
    else
      var n := neighbours[|neighbours| - 1];
      Pushed(neighbours[..|neighbours| - 1], visited, itemFactory)
      + (if n !in visited && !itemFactory.Wrap(n).IsEmpty() then [itemFactory.Wrap(n)] else [])
  }

  /** Exactly the unvisited, non-sentinel neighbours are pushed, each wrapped by the factory. */
  lemma {:induction false} PushedItems<T>(neighbours: seq<T>, visited: set<T>, itemFactory: ItemFactory<T>)
    ensures forall it :: it in Pushed(neighbours, visited, itemFactory) ==>
              it == itemFactory.Wrap(it.value) && it.value in neighbours && it.value !in visited
    ensures forall n :: n in neighbours && n !in visited && !itemFactory.Wrap(n).IsEmpty() ==>
              itemFactory.Wrap(n) in Pushed(neighbours, visited, itemFactory)
    decreases |neighbours|
  {
    if neighbours != [] {
      var init := neighbours[..|neighbours| - 1];
      PushedItems(init, visited, itemFactory);
      assert neighbours == init + [neighbours[|neighbours| - 1]];
    }
  }
}
