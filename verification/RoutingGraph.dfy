/**
 * The graph of memories, load/store units and compute units, and breadth-first search for a path with
 * the fewest edges.
 */
module RoutingGraph {
  import opened Sequences
  import opened Digraph

  datatype Kind = Memory | LoadStoreUnit | Compute

  datatype Resource = Resource(name: nat, kind: Kind)

  datatype EdgeInfo = EdgeInfo(source: nat, target: nat, cost: nat)

  /** The targets of a list of edges, in order. */
  function Targets(edges: seq<EdgeInfo>): (t: seq<nat>)
    ensures |t| == |edges| && forall i :: 0 <= i < |edges| ==> t[i] == edges[i].target
  {
    if edges == [] then [] else [edges[0].target] + Targets(edges[1..])
  }

  class Routing {
    var nodes: map<nat, Resource>
    var adjacency: map<nat, seq<EdgeInfo>>
    var nextNodeId: nat

    /** Edges join nodes of the graph, and ids not handed out yet name no node. */
    ghost predicate Valid()
      reads this
    {
      && (forall u :: u in nodes ==> u < nextNodeId)
      && (forall u :: u in adjacency ==> u in nodes)
      && forall u, i :: u in adjacency && 0 <= i < |adjacency[u]| ==> adjacency[u][i].target in nodes
    }

    /** The graph without resources and costs. */
    ghost function View(): Graph
      reads this
    {
      map u | u in nodes :: if u in adjacency then Targets(adjacency[u]) else []
    }

    constructor ()
      ensures Valid() && nodes == map[] && adjacency == map[] && View() == map[]
    {
      nodes, adjacency, nextNodeId := map[], map[], 0;
    }

    /** Adds a node without edges. */
    method AddNode(resource: Resource) returns (id: nat)
      requires Valid()
      modifies this
      ensures Valid() && id == old(nextNodeId) && id !in old(nodes)
      ensures nodes == old(nodes)[id := resource] && View() == old(View())[id := []]
    {
      id := nextNodeId;
      nextNodeId := nextNodeId + 1;
      nodes := nodes[id := resource];
    }

    /** Adds one edge after the others of its source. */
    method AddEdge(source: nat, target: nat, cost: nat)
      requires Valid() && source in nodes && target in nodes
      modifies this
      ensures Valid() && nodes == old(nodes)
      ensures View() == old(View())[source := old(View())[source] + [target]]
    {
      var edges := if source in adjacency then adjacency[source] else [];
      adjacency := adjacency[source := edges + [EdgeInfo(source, target, cost)]];
      TargetsSnoc(edges, EdgeInfo(source, target, cost));
    }

    method GetNeighbors(node: nat) returns (neighbors: seq<nat>)
      ensures node in nodes && node in adjacency ==> neighbors == View()[node]
      ensures node !in adjacency ==> neighbors == []
      ensures node in adjacency ==> neighbors == Targets(adjacency[node])
    {
      neighbors := [];
      if node in adjacency {
        var edges := adjacency[node];
        var i := 0;
        while i < |edges|
          invariant 0 <= i <= |edges| && neighbors == Targets(edges[..i])
        {
          assert edges[..i + 1] == edges[..i] + [edges[i]];
          TargetsSnoc(edges[..i], edges[i]);
          neighbors := neighbors + [edges[i].target];
          i := i + 1;
        }
        assert edges[..i] == edges;
      }
    }

    /** A path with the fewest edges; none exactly when an end is not in the graph or the target is out of reach. */
    method FindShortestPath(source: nat, target: nat) returns (path: Option<seq<nat>>)
      requires Valid()
      ensures path.None? <==> source !in nodes || target !in nodes || !Reaches(View(), source, target)
      ensures path.Some? ==> Shortest(View(), path.value, source, target)
    {
      if source !in nodes || target !in nodes {
        return None;
      }
      ghost var g := View();
      ViewClosed();
      ghost var t, k;
      var predecessor, visited;
      t, k, predecessor, visited := Search(g, source, target);
      if target !in visited {
        NotVisited(g, source, t, target);
        return None;
      }
      FirstHit(g, source, t, k);
      var p := WalkBack(g, source, t, k, predecessor, target);
      path := Some(p);
    }

    /** Expands vertices in the order of discovery until the target is next, or none is left. */
    method Search(ghost g: Graph, source: nat, target: nat)
      returns (ghost t: Tree, ghost k: nat, predecessor: map<nat, nat>, visited: set<nat>)
      requires Valid() && g == View() && Closed(g) && source in g && target in g
      ensures Explored(g, source, t, k) && visited == Elems(t.order) && predecessor == t.predecessor
      ensures target in visited ==> k < |t.order| && t.order[k] == target
      ensures target !in visited ==> k == |t.order|
    {
      var worklist := [source];
      visited, predecessor, t, k := {source}, map[], Tree([source], map[source := 0], map[]), 0;
      SearchStarts(g, source);
      while worklist != [] && worklist[0] != target
        invariant Searching(g, source, target, t, k, predecessor, visited, worklist)
        decreases |g.Keys| - k
      {
        OrderFits(g, source, t, k);
        t, predecessor, visited, worklist := Expand(g, source, target, t, k, predecessor, visited, worklist);
        k := k + 1;
      }
      SearchEnds(target, t, k);
    }

    /** Takes the first vertex off the worklist and discovers its neighbours. */
    method Expand(ghost g: Graph, ghost source: nat, ghost target: nat, ghost t0: Tree, ghost k: nat,
      predecessor0: map<nat, nat>, visited0: set<nat>, worklist0: seq<nat>)
      returns (ghost t: Tree, predecessor: map<nat, nat>, visited: set<nat>, worklist: seq<nat>)
      requires Valid() && g == View() && Closed(g) && worklist0 != [] && target != worklist0[0]
      requires Searching(g, source, target, t0, k, predecessor0, visited0, worklist0)
      ensures Searching(g, source, target, t, k + 1, predecessor, visited, worklist)
    {
      var current := worklist0[0];
      assert t0.order[k] in t0.order;
      var neighbors := GetNeighbors(current);
      t, predecessor, visited, worklist :=
        VisitNeighbors(g, source, t0, k, predecessor0, visited0, current, neighbors, worklist0[1..]);
      PrefixNext(t0.order, t.order, k);
    }

    lemma ViewClosed()
      requires Valid()
      ensures Closed(View())
    {
      forall u, v | u in View() && v in View()[u]
        ensures v in View()
      {
        if u in adjacency {
          var i :| 0 <= i < |adjacency[u]| && Targets(adjacency[u])[i] == v;
        }
      }
    }
  }

  lemma {:induction false} TargetsSnoc(edges: seq<EdgeInfo>, e: EdgeInfo)
    ensures Targets(edges + [e]) == Targets(edges) + [e.target]
  {
    if edges == [] {
      assert edges + [e] == [e];
    } else {
      assert (edges + [e])[1..] == edges[1..] + [e];
      TargetsSnoc(edges[1..], e);
    }
  }

  // ---------------------------------------------------------------------------------------------
  // Breadth-first order
  // ---------------------------------------------------------------------------------------------

  ghost predicate Shortest(g: Graph, p: seq<nat>, u: nat, v: nat) {
    WalkBetween(g, p, u, v) && forall q :: WalkBetween(g, q, u, v) ==> |p| <= |q|
  }

  /** The order of discovery, the distances, and the predecessors. */
  datatype Tree = Tree(order: seq<nat>, dist: map<nat, nat>, predecessor: map<nat, nat>)

  ghost predicate NoFarther(t: Tree, i: nat, j: nat)
    requires t.dist.Keys == Elems(t.order) && i < |t.order| && j < |t.order|
  {
    assert t.order[i] in t.order && t.order[j] in t.order;
    t.dist[t.order[i]] <= t.dist[t.order[j]]
  }

  /** Distances do not fall, and none is more than one step beyond vertex `k`. */
  ghost predicate Layered(t: Tree, k: nat) {
    && t.dist.Keys == Elems(t.order) && |t.dist| == |t.order| && k <= |t.order|
    && (forall i: nat, j: nat {:trigger NoFarther(t, i, j)} :: i <= j < |t.order| ==> NoFarther(t, i, j))
    && (k < |t.order| ==> forall v :: v in t.dist ==> t.dist[v] <= t.dist[t.order[k]] + 1)
  }

  /** Every discovered vertex but the source is one step further than its predecessor. */
  ghost predicate Discovered(g: Graph, source: nat, t: Tree)
    requires t.dist.Keys == Elems(t.order)
  {
    && t.order != [] && t.order[0] == source && source in t.dist && t.dist[source] == 0
    && (forall v :: v in t.dist ==> v in g)
    && forall v :: v in t.dist && v != source ==>
      && v in t.predecessor && t.predecessor[v] in t.dist && Edge(g, t.predecessor[v], v)
      && t.dist[v] == t.dist[t.predecessor[v]] + 1
  }

  /** The neighbours of `u` have been discovered, at most one step further. */
  ghost predicate Expanded(g: Graph, dist: map<nat, nat>, u: nat)
  {
    u in dist && forall v :: Edge(g, u, v) ==> v in dist && dist[v] <= dist[u] + 1
  }

  /** Breadth-first search has expanded the first `k` vertices of the order. */
  ghost predicate Explored(g: Graph, source: nat, t: Tree, k: nat) {
    && Layered(t, k) && Discovered(g, source, t)
    && forall i :: 0 <= i < k ==> Expanded(g, t.dist, t.order[i])
  }

  /** The search is about to expand vertex `k`, and has not expanded the target. */
  ghost predicate Searching(g: Graph, source: nat, target: nat, t: Tree, k: nat,
      predecessor: map<nat, nat>, visited: set<nat>, worklist: seq<nat>)
  {
    && Explored(g, source, t, k) && target !in t.order[..k]
    && worklist == t.order[k..] && visited == Elems(t.order) && predecessor == t.predecessor
  }

  lemma SearchStarts(g: Graph, source: nat)
    requires source in g
    ensures Explored(g, source, Tree([source], map[source := 0], map[]), 0)
  {
    var t := Tree([source], map[source := 0], map[]);
    assert Elems(t.order) == {source} && |t.dist| == 1;
  }

  lemma SearchEnds(target: nat, t: Tree, k: nat)
    requires k <= |t.order| && target !in t.order[..k]
    ensures k == |t.order| ==> target !in Elems(t.order)
    ensures k < |t.order| && t.order[k] == target ==> target in Elems(t.order)
  {
    if k == |t.order| {
      assert t.order[..k] == t.order;
    } else {
      assert t.order[k] in t.order;
    }
  }

  lemma PrefixNext(a: seq<nat>, b: seq<nat>, k: nat)
    requires a <= b && k < |a|
    ensures b[..k + 1] == a[..k] + [a[k]]
  {
  }

  lemma SuffixSnoc(a: seq<nat>, k: nat, v: nat)
    requires k <= |a|
    ensures (a + [v])[k..] == a[k..] + [v] && a <= a + [v] && Elems(a + [v]) == Elems(a) + {v}
  {
  }

  lemma OrderFits(g: Graph, source: nat, t: Tree, k: nat)
    requires Explored(g, source, t, k)
    ensures |t.order| <= |g.Keys|
  {
    assert t.dist.Keys <= g.Keys;
    SubsetBound(t.dist.Keys, g.Keys);
    assert |t.dist| == |t.dist.Keys|;
  }

  /** The tree with `v` found from vertex `k`. */
  ghost function Grown(t: Tree, k: nat, v: nat): Tree
    requires k < |t.order| && t.order[k] in t.dist
  {
    Tree(t.order + [v], t.dist[v := t.dist[t.order[k]] + 1], t.predecessor[v := t.order[k]])
  }

  lemma GrownLayered(t: Tree, k: nat, v: nat)
    requires Layered(t, k) && k < |t.order| && t.order[k] in t.dist && v !in t.order
    ensures Layered(Grown(t, k, v), k)
  {
    var t' := Grown(t, k, v);
    SuffixSnoc(t.order, k, v);
    assert t'.dist.Keys == t.dist.Keys + {v} && |t'.dist.Keys| == |t.dist.Keys| + 1;
    assert |t'.dist| == |t'.dist.Keys| && |t.dist| == |t.dist.Keys|;
    forall i: nat, j: nat | i <= j < |t'.order|
      ensures NoFarther(t', i, j)
    {
      if j < |t.order| {
        assert NoFarther(t, i, j);
      } else if i < |t.order| {
        assert t.order[i] in t.order;
      }
    }
  }

  lemma GrownDiscovered(g: Graph, source: nat, t: Tree, k: nat, v: nat)
    requires t.dist.Keys == Elems(t.order) && Discovered(g, source, t) && Closed(g)
    requires k < |t.order| && t.order[k] in t.dist && Edge(g, t.order[k], v) && v !in t.order
    ensures Grown(t, k, v).dist.Keys == Elems(Grown(t, k, v).order) && Discovered(g, source, Grown(t, k, v))
  {
    SuffixSnoc(t.order, k, v);
    assert t.order[0] in t.order;
  }

  /** One more vertex, found from vertex `k`. */
  lemma Discover(g: Graph, source: nat, t: Tree, k: nat, v: nat)
    requires Explored(g, source, t, k) && Closed(g)
    requires k < |t.order| && t.order[k] in t.dist && Edge(g, t.order[k], v) && v !in t.order
    ensures Explored(g, source, Grown(t, k, v), k)
  {
    GrownLayered(t, k, v);
    GrownDiscovered(g, source, t, k, v);
    forall i | 0 <= i < k
      ensures Expanded(g, Grown(t, k, v).dist, Grown(t, k, v).order[i])
    {
      assert Expanded(g, t.dist, t.order[i]) && t.order[i] in t.order;
    }
  }

  /** The first `n` neighbours of vertex `k` have been discovered too. */
  ghost predicate Expanding(g: Graph, source: nat, t: Tree, k: nat, neighbors: seq<nat>, n: nat) {
    && Explored(g, source, t, k) && k < |t.order| && t.order[k] in t.dist && n <= |neighbors|
    && forall j :: 0 <= j < n ==> neighbors[j] in t.dist && t.dist[neighbors[j]] <= t.dist[t.order[k]] + 1
  }

  lemma ExpandNext(g: Graph, source: nat, t: Tree, k: nat, neighbors: seq<nat>, n: nat)
    requires Expanding(g, source, t, k, neighbors, n) && Closed(g) && n < |neighbors| && Edge(g, t.order[k], neighbors[n])
    ensures neighbors[n] in t.order ==> Expanding(g, source, t, k, neighbors, n + 1)
    ensures neighbors[n] !in t.order ==> Expanding(g, source, Grown(t, k, neighbors[n]), k, neighbors, n + 1)
  {
    if neighbors[n] !in t.order {
      Discover(g, source, t, k, neighbors[n]);
    }
  }

  lemma ExpandEnd(g: Graph, source: nat, t: Tree, k: nat)
    requires k < |t.order| && t.order[k] in g && Expanding(g, source, t, k, g[t.order[k]], |g[t.order[k]]|)
    ensures Explored(g, source, t, k + 1)
  {
    forall v | Edge(g, t.order[k], v)
      ensures v in t.dist && t.dist[v] <= t.dist[t.order[k]] + 1
    {
      var j :| 0 <= j < |g[t.order[k]]| && g[t.order[k]][j] == v;
    }
    NextLayer(t, k);
  }

  lemma NextLayer(t: Tree, k: nat)
    requires Layered(t, k) && k < |t.order|
    ensures Layered(t, k + 1)
  {
    if k + 1 < |t.order| {
      assert NoFarther(t, k, k + 1);
    }
  }

  /** Discovers the neighbours of vertex `k`. */
  method VisitNeighbors(ghost g: Graph, ghost source: nat, ghost t0: Tree, ghost k: nat, predecessor0: map<nat, nat>,
    visited0: set<nat>, current: nat, neighbors: seq<nat>, worklist0: seq<nat>)
    returns (ghost t: Tree, predecessor: map<nat, nat>, visited: set<nat>, worklist: seq<nat>)
    requires Explored(g, source, t0, k) && Closed(g) && k < |t0.order|
    requires current == t0.order[k] && current in g && neighbors == g[current]
    requires predecessor0 == t0.predecessor && visited0 == Elems(t0.order) && worklist0 == t0.order[k + 1..]
    ensures Explored(g, source, t, k + 1) && t0.order <= t.order
    ensures predecessor == t.predecessor && visited == Elems(t.order) && worklist == t.order[k + 1..]
  {
    t, predecessor, visited, worklist := t0, predecessor0, visited0, worklist0;
    assert t.order[k] in t.order;
    var i := 0;
    while i < |neighbors|
      invariant 0 <= i <= |neighbors| && Expanding(g, source, t, k, neighbors, i) && t0.order <= t.order
      invariant predecessor == t.predecessor && visited == Elems(t.order) && worklist == t.order[k + 1..]
    {
      var neighbor := neighbors[i];
      ExpandNext(g, source, t, k, neighbors, i);
      if neighbor !in visited {
        SuffixSnoc(t.order, k + 1, neighbor);
        visited, predecessor := visited + {neighbor}, predecessor[neighbor := current];
        worklist := worklist + [neighbor];
        t := Grown(t, k, neighbor);
      }
      i := i + 1;
    }
    ExpandEnd(g, source, t, k);
  }

  /** A walk from the source stays within the discovered distances until it meets an unexpanded vertex. */
  lemma {:induction false} WalkNearby(g: Graph, source: nat, t: Tree, k: nat, q: seq<nat>, i: nat)
    requires Explored(g, source, t, k) && Walk(g, q) && q[0] == source && i < |q|
    ensures (q[i] in t.dist && t.dist[q[i]] <= i) || (k < |t.order| && t.order[k] in t.dist && t.dist[t.order[k]] <= i)
  {
    if i > 0 {
      WalkNearby(g, source, t, k, q, i - 1);
      assert Edge(g, q[i - 1], q[i]);
      if q[i - 1] in t.dist && t.dist[q[i - 1]] <= i - 1 {
        var j := Place(t.order, q[i - 1]);
        if j < k {
          assert Expanded(g, t.dist, t.order[j]);
        } else {
          assert t.order[k] in t.order && NoFarther(t, k, j);
        }
      }
    }
  }

  /** When vertex `k` is up for expansion, no walk to it is shorter than its distance. */
  lemma FirstHit(g: Graph, source: nat, t: Tree, k: nat)
    requires Explored(g, source, t, k) && k < |t.order|
    ensures t.order[k] in t.dist && forall q :: WalkBetween(g, q, source, t.order[k]) ==> t.dist[t.order[k]] < |q|
  {
    assert t.order[k] in t.order;
    forall q | WalkBetween(g, q, source, t.order[k])
      ensures t.dist[t.order[k]] < |q|
    {
      WalkNearby(g, source, t, k, q, |q| - 1);
    }
  }

  /** Once all discovered vertices are expanded, nothing else is in reach. */
  lemma NotVisited(g: Graph, source: nat, t: Tree, target: nat)
    requires Explored(g, source, t, |t.order|) && target !in t.order
    ensures !Reaches(g, source, target)
  {
    if Reaches(g, source, target) {
      var q :| WalkBetween(g, q, source, target);
      WalkNearby(g, source, t, |t.order|, q, |q| - 1);
    }
  }

  lemma PredecessorIsNearer(g: Graph, source: nat, t: Tree, k: nat, current: nat)
    requires Explored(g, source, t, k) && current in t.dist && current != source
    ensures current in t.predecessor && t.predecessor[current] in t.dist && Edge(g, t.predecessor[current], current)
    ensures t.dist[current] == t.dist[t.predecessor[current]] + 1
  {
  }

  /** Follows predecessors from the target to the source. */
  method ReversedWalk(ghost g: Graph, source: nat, ghost t: Tree, ghost k: nat, predecessor: map<nat, nat>, target: nat)
    returns (reversed: seq<nat>)
    requires Explored(g, source, t, k) && predecessor == t.predecessor && target in t.dist
    ensures |reversed| == t.dist[target] + 1 && reversed[0] == target && reversed[|reversed| - 1] == source
    ensures forall i :: 0 <= i < |reversed| - 1 ==> Edge(g, reversed[i + 1], reversed[i])
  {
    var current := target;
    reversed := [target];
    while current != source
      invariant current in t.dist && reversed != [] && reversed[|reversed| - 1] == current && reversed[0] == target
      invariant |reversed| + t.dist[current] == t.dist[target] + 1
      invariant forall i :: 0 <= i < |reversed| - 1 ==> Edge(g, reversed[i + 1], reversed[i])
      decreases t.dist[current]
    {
      PredecessorIsNearer(g, source, t, k, current);
      current := predecessor[current];
      reversed := reversed + [current];
    }
  }

  method Reverse(s: seq<nat>) returns (r: seq<nat>)
    ensures |r| == |s| && forall i :: 0 <= i < |s| ==> r[i] == s[|s| - 1 - i]
  {
    r := [];
    var i := |s|;
    while i > 0
      invariant 0 <= i <= |s| && |r| == |s| - i && forall j :: 0 <= j < |r| ==> r[j] == s[|s| - 1 - j]
    {
      i := i - 1;
      r := r + [s[i]];
    }
  }

  /** Turns the list around. */
  method WalkBack(ghost g: Graph, source: nat, ghost t: Tree, ghost k: nat, predecessor: map<nat, nat>, target: nat)
    returns (path: seq<nat>)
    requires Explored(g, source, t, k) && predecessor == t.predecessor && target in t.dist
    ensures WalkBetween(g, path, source, target) && |path| == t.dist[target] + 1
  {
    var reversed := ReversedWalk(g, source, t, k, predecessor, target);
    path := Reverse(reversed);
    ReversedEdges(g, reversed, path);
  }

  lemma ReversedEdges(g: Graph, s: seq<nat>, r: seq<nat>)
    requires |r| == |s| && forall i :: 0 <= i < |s| ==> r[i] == s[|s| - 1 - i]
    requires forall i :: 0 <= i < |s| - 1 ==> Edge(g, s[i + 1], s[i])
    ensures forall j :: 0 <= j < |r| - 1 ==> Edge(g, r[j], r[j + 1])
  {
    forall j | 0 <= j < |r| - 1
      ensures Edge(g, r[j], r[j + 1])
    {
      var i := |s| - 2 - j;
      assert Edge(g, s[i + 1], s[i]);
    }
  }
}
