/** GenerateGraphFromEdges: building an adjacency map from a list of edges,
    each edge a two-element list `[source, destination]`. */
module GraphEdge {
  import opened GraphPaths

  /** Go's GraphType: only the value Bidirectional adds reverse edges; every
      other value behaves as Directional. */
  type GraphType = int
  const Directional: GraphType := 0
  const Bidirectional: GraphType := 1

  /** An edge is used only when it has exactly two elements. */
  predicate ValidEdge<T>(e: seq<T>)
  {
    |e| == 2
  }

  /** The endpoints of the valid edges: the keys the builder creates. */
  function Endpoints<T>(edges: seq<seq<T>>): set<T>
  {
    if edges == [] then {}
    else
      var e := edges[|edges| - 1];
      Endpoints(edges[..|edges| - 1]) + (if ValidEdge(e) then {e[0], e[1]} else {})
  }

  /** What one edge appends to the list of `v`: its destination when `v` is its
      source, then (in bidirectional mode) its source when `v` is its destination. */
  function Contribution<T(==)>(e: seq<T>, bidirectional: bool, v: T): seq<T>
  {
    if !ValidEdge(e) then []
    else (if e[0] == v then [e[1]] else []) + (if bidirectional && e[1] == v then [e[0]] else [])
  }

  /** The neighbour list of `v`, edge by edge in input order, duplicates kept. */
  function Adjacency<T(==)>(edges: seq<seq<T>>, bidirectional: bool, v: T): seq<T>
  {
    if edges == [] then []
    else Adjacency(edges[..|edges| - 1], bidirectional, v) + Contribution(edges[|edges| - 1], bidirectional, v)
  }

  /** `g` is the adjacency map of `edges`: its keys are the endpoints, and each
      key maps to its Adjacency list. */
  ghost predicate BuiltFrom<T>(g: Graph<T>, edges: seq<seq<T>>, bidirectional: bool)
  {
    && g.Keys == Endpoints(edges)
    && forall v :: v in g ==> g[v] == Adjacency(edges, bidirectional, v)
  }

  /** One more edge adds its endpoints (when it is valid) and its contribution to each list. */
  lemma Snoc<T>(edges: seq<seq<T>>, e: seq<T>, bidirectional: bool)
    ensures Endpoints(edges + [e]) == Endpoints(edges) + (if ValidEdge(e) then {e[0], e[1]} else {})
    ensures forall v :: Adjacency(edges + [e], bidirectional, v)
                        == Adjacency(edges, bidirectional, v) + Contribution(e, bidirectional, v)
  {
    assert (edges + [e])[..|edges|] == edges;
  }

  /** The builder's loop body for one edge, on the map built so far. */
  method AddEdge<T(==)>(graph: Graph<T>, e: seq<T>, graphType: GraphType) returns (graph': Graph<T>)
    ensures graph'.Keys == graph.Keys + (if ValidEdge(e) then {e[0], e[1]} else {})
    ensures forall v :: v in graph' ==>
              graph'[v] == Neighbours(graph, v) + Contribution(e, graphType == Bidirectional, v)
  {
    graph' := graph;
    if |e| != 2 {
      return;
    }
    var src, dst := e[0], e[1];
    if dst !in graph' {
      graph' := graph'[dst := []];
    }
    // Go's lookup of a missing key yields the nil (empty) list
    var node := if src in graph' then graph'[src] else [];
    if src !in graph' {
      graph' := graph'[src := []];
    }
    graph' := graph'[src := node + [dst]];
    if graphType == Bidirectional {
      var nodeDst := if dst in graph' then graph'[dst] else [];
      graph' := graph'[dst := nodeDst + [src]];
    }
  }

  /** GenerateGraphFromEdges: the adjacency map of the valid edges. */
  method GenerateGraphFromEdges<T(==)>(edges: seq<seq<T>>, graphType: GraphType) returns (graph: Graph<T>)
    ensures BuiltFrom(graph, edges, graphType == Bidirectional)
  {
    graph := map[];
    var i := 0;
    while i < |edges|
      invariant 0 <= i <= |edges|
      invariant BuiltFrom(graph, edges[..i], graphType == Bidirectional)
    {
      assert edges[..i + 1] == edges[..i] + [edges[i]];
      Snoc(edges[..i], edges[i], graphType == Bidirectional);
      forall v | v !in graph {
        AdjacencyOfEndpoints(edges[..i], graphType == Bidirectional, v);
      }
      graph := AddEdge(graph, edges[i], graphType);
      i := i + 1;
    }
    assert edges[..i] == edges;
  }

  /** Only endpoints have neighbours. */
  lemma {:induction false} AdjacencyOfEndpoints<T>(edges: seq<seq<T>>, bidirectional: bool, v: T)
    requires v !in Endpoints(edges)
    ensures Adjacency(edges, bidirectional, v) == []
    decreases |edges|
  {
    if edges != [] {
      AdjacencyOfEndpoints(edges[..|edges| - 1], bidirectional, v);
    }
  }

  /** `n` is listed for `v` exactly when some valid edge runs from `v` to `n`,
      or (in bidirectional mode) from `n` to `v`. */
  lemma {:induction false} InAdjacency<T>(edges: seq<seq<T>>, bidirectional: bool, v: T, n: T)
    ensures n in Adjacency(edges, bidirectional, v) <==>
              exists i :: 0 <= i < |edges| && ValidEdge(edges[i]) &&
                ((edges[i][0] == v && edges[i][1] == n) || (bidirectional && edges[i][1] == v && edges[i][0] == n))
    decreases |edges|
  {
    if edges != [] {
      var init := edges[..|edges| - 1];
      InAdjacency(init, bidirectional, v, n);
      assert forall i :: 0 <= i < |init| ==> init[i] == edges[i];
    }
  }

  /** Every valid edge puts both its endpoints among the keys. */
  lemma {:induction false} EndpointsOfEdges<T>(edges: seq<seq<T>>, i: int)
    requires 0 <= i < |edges| && ValidEdge(edges[i])
    ensures edges[i][0] in Endpoints(edges) && edges[i][1] in Endpoints(edges)
    decreases |edges|
  {
    if i < |edges| - 1 {
      var init := edges[..|edges| - 1];
      EndpointsOfEdges(init, i);
    }
  }

  /** Every key is the endpoint of some valid edge; with no valid edge the map is empty. */
  lemma {:induction false} EndpointsComeFromEdges<T>(edges: seq<seq<T>>, v: T)
    requires v in Endpoints(edges)
    ensures exists i :: 0 <= i < |edges| && ValidEdge(edges[i]) && (edges[i][0] == v || edges[i][1] == v)
    decreases |edges|
  {
    var init := edges[..|edges| - 1];
    if v in Endpoints(init) {
      EndpointsComeFromEdges(init, v);
      var i :| 0 <= i < |init| && ValidEdge(init[i]) && (init[i][0] == v || init[i][1] == v);
      assert edges[i] == init[i];
    } else {
      assert ValidEdge(edges[|edges| - 1]);
    }
  }

  /** A bidirectional build is symmetric: every listed neighbour is a key that
      lists the node back. */
  lemma BidirectionalIsSymmetric<T>(g: Graph<T>, edges: seq<seq<T>>)
    requires BuiltFrom(g, edges, true)
    ensures Symmetric(g)
  {
    forall v, n | v in g && n in g[v] ensures n in g && v in g[n] {
      InAdjacency(edges, true, v, n);
      var i :| 0 <= i < |edges| && ValidEdge(edges[i]) &&
               ((edges[i][0] == v && edges[i][1] == n) || (edges[i][1] == v && edges[i][0] == n));
      EndpointsOfEdges(edges, i);
      InAdjacency(edges, true, n, v);
    }
  }

  /** An edge without exactly two elements changes nothing. */
  lemma InvalidEdgeIsSkipped<T>(g: Graph<T>, edges: seq<seq<T>>, e: seq<T>, bidirectional: bool)
    requires !ValidEdge(e)
    ensures BuiltFrom(g, edges + [e], bidirectional) <==> BuiltFrom(g, edges, bidirectional)
  {
    Snoc(edges, e, bidirectional);
  }

  /** The destinations of the valid edges leaving `v`, read front to back. */
  function Targets<T(==)>(edges: seq<seq<T>>, v: T): seq<T>
  {
    if edges == [] then []
    else (if ValidEdge(edges[0]) && edges[0][0] == v then [edges[0][1]] else []) + Targets(edges[1..], v)
  }

  lemma {:induction false} TargetsAppend<T>(a: seq<seq<T>>, b: seq<seq<T>>, v: T)
    ensures Targets(a + b, v) == Targets(a, v) + Targets(b, v)
    decreases |a|
  {
    if a != [] {
      assert (a + b)[0] == a[0] && (a + b)[1..] == a[1..] + b;
      TargetsAppend(a[1..], b, v);
    } else {
      assert a + b == b;
    }
  }

  /** In directional mode the list of `v` is the destinations of the edges
      leaving `v`, in input order and with duplicates. */
  lemma {:induction false} DirectionalTargets<T>(edges: seq<seq<T>>, v: T)
    ensures Adjacency(edges, false, v) == Targets(edges, v)
    decreases |edges|
  {
    if edges != [] {
      var init := edges[..|edges| - 1];
      var e := edges[|edges| - 1];
      DirectionalTargets(init, v);
      assert edges == init + [e];
      TargetsAppend(init, [e], v);
    }
  }

  /** Two copies of one edge, bidirectionally: each endpoint lists the other twice. */
  method DuplicateEdgesScenario() returns (graph: Graph<string>)
    ensures graph == map["A" := ["B", "B"], "B" := ["A", "A"]]
  {
    var e := ["A", "B"];
    graph := GenerateGraphFromEdges([e, e], Bidirectional);
    DuplicateEdgesLists();
    assert graph.Keys == {"A", "B"};
  }

  /** The endpoints and lists of the same bidirectional edge given twice. */
  lemma DuplicateEdgesLists()
    ensures Endpoints([["A", "B"], ["A", "B"]]) == {"A", "B"}
    ensures Adjacency([["A", "B"], ["A", "B"]], true, "A") == ["B", "B"]
    ensures Adjacency([["A", "B"], ["A", "B"]], true, "B") == ["A", "A"]
  {
    var e := ["A", "B"];
    Snoc([], e, true);
    Snoc([e], e, true);
    assert [] + [e] == [e] && [e] + [e] == [e, e];
    assert Contribution(e, true, "A") == ["B"];
    assert Contribution(e, true, "B") == ["A"];
  }

  /** A one-element edge is dropped: only A and B become keys. */
  method InvalidEdgeScenario() returns (graph: Graph<string>)
    ensures graph == map["A" := ["B"], "B" := []]
  {
    var e, short := ["A", "B"], ["B"];
    graph := GenerateGraphFromEdges([e, short], Directional);
    InvalidEdgeLists();
    assert graph.Keys == {"A", "B"};
  }

  /** The endpoints and lists of a valid edge followed by a one-element one. */
  lemma InvalidEdgeLists()
    ensures Endpoints([["A", "B"], ["B"]]) == {"A", "B"}
    ensures Adjacency([["A", "B"], ["B"]], false, "A") == ["B"]
    ensures Adjacency([["A", "B"], ["B"]], false, "B") == []
  {
    var e, short := ["A", "B"], ["B"];
    Snoc([], e, false);
    Snoc([e], short, false);
    assert [] + [e] == [e] && [e] + [short] == [e, short];
    assert Contribution(e, false, "A") == ["B"];
    assert Contribution(e, false, "B") == [];
  }
}
