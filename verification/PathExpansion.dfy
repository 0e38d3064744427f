/**
 * Expansion of a pipeline along a path of the routing graph: shortest paths between consecutive
 * waypoints are joined into one, and the stages placed along it become one dependency chain.
 */
module PathExpansion {
  import opened Sequences
  import opened Digraph
  import opened StageOrdering
  import opened RoutingGraph

  // ---------------------------------------------------------------------------------------------
  // Joining segments
  // ---------------------------------------------------------------------------------------------

  /** Every waypoint can be reached from the one before it. */
  ghost predicate Connected(g: Graph, waypoints: seq<nat>, n: nat)
    requires n <= |waypoints|
  {
    forall i :: 0 <= i < n - 1 ==> Reaches(g, waypoints[i], waypoints[i + 1])
  }

  /** Number of edges of a shortest walk. */
  ghost function Distance(g: Graph, u: nat, v: nat): nat
    requires Reaches(g, u, v)
  {
    ShortestExists(g, u, v);
    var p :| Shortest(g, p, u, v);
    |p| - 1
  }

  lemma ShortestExists(g: Graph, u: nat, v: nat)
    requires Reaches(g, u, v)
    ensures exists p :: Shortest(g, p, u, v)
  {
    var p :| WalkBetween(g, p, u, v);
    ShortestBelow(g, u, v, p);
  }

  lemma {:induction false} ShortestBelow(g: Graph, u: nat, v: nat, p: seq<nat>)
    requires WalkBetween(g, p, u, v)
    ensures exists q :: Shortest(g, q, u, v)
    decreases |p|
  {
    if !Shortest(g, p, u, v) {
      var q :| WalkBetween(g, q, u, v) && |q| < |p|;
      ShortestBelow(g, u, v, q);
    }
  }

  lemma ShortestLength(g: Graph, p: seq<nat>, u: nat, v: nat)
    requires Shortest(g, p, u, v)
    ensures Reaches(g, u, v) && |p| - 1 == Distance(g, u, v)
  {
  }

  /** Distances between the first `n` waypoints, added up. */
  ghost function TotalDistance(g: Graph, waypoints: seq<nat>, n: nat): nat
    requires n <= |waypoints| && Connected(g, waypoints, n)
  {
    if n <= 1 then 0
    else
      assert Reaches(g, waypoints[n - 2], waypoints[n - 2 + 1]);
      TotalDistance(g, waypoints, n - 1) + Distance(g, waypoints[n - 2], waypoints[n - 1])
  }

  /** From place `a` to place `b` the path takes a shortest way. */
  ghost predicate Leg(g: Graph, path: seq<nat>, a: nat, b: nat, u: nat, v: nat) {
    a <= b < |path| && Shortest(g, path[a..b + 1], u, v)
  }

  /** The path goes through the first `n` waypoints in order, at the places `at`, and takes a shortest way to each. */
  ghost predicate Through(g: Graph, path: seq<nat>, waypoints: seq<nat>, n: nat, at: seq<nat>) {
    && 0 < n == |at| && n <= |waypoints| && Walk(g, path) && at[0] == 0 && at[n - 1] == |path| - 1
    && path[0] == waypoints[0] && path[|path| - 1] == waypoints[n - 1]
    && forall i :: 0 <= i < n - 1 ==> Leg(g, path, at[i], at[i + 1], waypoints[i], waypoints[i + 1])
  }

  /** At the places listed the path is at the waypoints. */
  lemma ThroughWaypoints(g: Graph, path: seq<nat>, waypoints: seq<nat>, n: nat, at: seq<nat>, i: nat)
    requires Through(g, path, waypoints, n, at) && i < n
    ensures at[i] < |path| && path[at[i]] == waypoints[i]
  {
    if i + 1 < n {
      assert Leg(g, path, at[i], at[i + 1], waypoints[i], waypoints[i + 1]);
      assert path[at[i]..at[i + 1] + 1][0] == path[at[i]];
    }
  }

  lemma LegKept(g: Graph, path: seq<nat>, more: seq<nat>, a: nat, b: nat, u: nat, v: nat)
    requires Leg(g, path, a, b, u, v)
    ensures Leg(g, path + more, a, b, u, v)
  {
    assert (path + more)[a..b + 1] == path[a..b + 1];
  }

  lemma NewLeg(g: Graph, path: seq<nat>, segment: seq<nat>, u: nat, v: nat)
    requires path != [] && path[|path| - 1] == u && Shortest(g, segment, u, v)
    ensures Leg(g, path + segment[1..], |path| - 1, |path| + |segment| - 2, u, v)
  {
    assert (path + segment[1..])[|path| - 1..|path| + |segment| - 2 + 1] == segment;
  }

  /** One more segment. */
  lemma ThroughNext(g: Graph, path: seq<nat>, waypoints: seq<nat>, n: nat, at: seq<nat>, segment: seq<nat>)
    requires Through(g, path, waypoints, n, at) && n < |waypoints|
    requires Shortest(g, segment, waypoints[n - 1], waypoints[n])
    ensures Through(g, path + segment[1..], waypoints, n + 1, at + [|path| + |segment| - 2])
  {
    var path', at' := path + segment[1..], at + [|path| + |segment| - 2];
    WalkJoin(g, path, segment, path[0], waypoints[n - 1], waypoints[n]);
    NewLeg(g, path, segment, waypoints[n - 1], waypoints[n]);
    forall i | 0 <= i < n
      ensures Leg(g, path', at'[i], at'[i + 1], waypoints[i], waypoints[i + 1])
    {
      if i < n - 1 {
        LegKept(g, path, segment[1..], at[i], at[i + 1], waypoints[i], waypoints[i + 1]);
      }
    }
  }

  /** The path goes through all of the first `n` waypoints and is as long as their distances together. */
  ghost predicate Covers(g: Graph, waypoints: seq<nat>, n: nat, path: seq<nat>) {
    && n <= |waypoints| && Connected(g, waypoints, n) && |path| == TotalDistance(g, waypoints, n) + 1
    && exists at :: Through(g, path, waypoints, n, at)
  }

  lemma CoversTwo(g: Graph, waypoints: seq<nat>, segment: seq<nat>)
    requires |waypoints| >= 2 && Shortest(g, segment, waypoints[0], waypoints[1])
    ensures Covers(g, waypoints, 2, segment)
  {
    ShortestLength(g, segment, waypoints[0], waypoints[1]);
    assert TotalDistance(g, waypoints, 1) == 0;
    assert segment[0..|segment| - 1 + 1] == segment;
    assert Through(g, segment, waypoints, 2, [0, |segment| - 1]);
  }

  lemma CoversNext(g: Graph, waypoints: seq<nat>, n: nat, path: seq<nat>, segment: seq<nat>)
    requires n < |waypoints| && Covers(g, waypoints, n, path) && Shortest(g, segment, waypoints[n - 1], waypoints[n])
    ensures Covers(g, waypoints, n + 1, path + segment[1..]) && path[|path| - 1] == segment[0]
  {
    var at :| Through(g, path, waypoints, n, at);
    ShortestLength(g, segment, waypoints[n - 1], waypoints[n]);
    ThroughNext(g, path, waypoints, n, at, segment);
    assert Connected(g, waypoints, n + 1);
  }

  /**
   * Joins the shortest paths between consecutive waypoints. Fails exactly when some waypoint cannot be
   * reached from the one before it; otherwise the path goes through all of them and is as long as their
   * distances together.
   */
  method BuildFullShortestPath(waypoints: seq<nat>, graph: Routing) returns (path: Option<seq<nat>>)
    requires graph.Valid() && forall w :: w in waypoints ==> w in graph.nodes
    ensures path.None? <==> !Connected(graph.View(), waypoints, |waypoints|)
    ensures path.Some? && |waypoints| < 2 ==> path.value == []
    ensures path.Some? && |waypoints| >= 2 ==> Covers(graph.View(), waypoints, |waypoints|, path.value)
  {
    var full: seq<nat> := [];
    var i := 0;
    while i + 1 < |waypoints|
      invariant 0 <= i && Joined(graph.View(), waypoints, i, full)
    {
      var longer := AddSegment(waypoints, graph, i, full);
      if longer.None? {
        return None;
      }
      full := longer.value;
      i := i + 1;
    }
    path := Some(full);
  }

  /** `i` segments have been joined. */
  ghost predicate Joined(g: Graph, waypoints: seq<nat>, i: nat, full: seq<nat>) {
    if i == 0 then full == [] else i < |waypoints| && Covers(g, waypoints, i + 1, full)
  }

  /** Joins a shortest path to the next waypoint, if there is one. */
  method AddSegment(waypoints: seq<nat>, graph: Routing, i: nat, full: seq<nat>) returns (longer: Option<seq<nat>>)
    requires graph.Valid() && (forall w :: w in waypoints ==> w in graph.nodes) && i + 1 < |waypoints|
    requires Joined(graph.View(), waypoints, i, full)
    ensures longer.None? <==> !Reaches(graph.View(), waypoints[i], waypoints[i + 1])
    ensures longer.Some? ==> Joined(graph.View(), waypoints, i + 1, longer.value)
  {
    assert waypoints[i] in waypoints && waypoints[i + 1] in waypoints;
    var segment := graph.FindShortestPath(waypoints[i], waypoints[i + 1]);
    if segment.None? {
      return None;
    }
    ShortestLength(graph.View(), segment.value, waypoints[i], waypoints[i + 1]);
    if i == 0 {
      CoversTwo(graph.View(), waypoints, segment.value);
    } else {
      CoversNext(graph.View(), waypoints, i + 1, full, segment.value);
    }
    var joined := Append(full, segment.value);
    longer := Some(joined);
  }

  /** Appends a segment; a first node that repeats the last one is skipped. */
  method Append(path: seq<nat>, segment: seq<nat>) returns (longer: seq<nat>)
    ensures path == [] ==> longer == segment
    ensures path != [] && segment != [] && path[|path| - 1] == segment[0] ==> longer == path + segment[1..]
  {
    var start := if path != [] && segment != [] && path[|path| - 1] == segment[0] then 1 else 0;
    longer := path + segment[start..];
  }

  // ---------------------------------------------------------------------------------------------
  // Rebuilding the chain
  // ---------------------------------------------------------------------------------------------

  /** Dependencies after all have been cleared and the placed stages have been joined one after the other. */
  ghost predicate Rebuilt(stages: seq<nat>, ordered: seq<nat>, g: Graph)
    requires NoDup(ordered)
  {
    && g.Keys == Elems(stages)
    && (forall k {:trigger After(ordered, k)} :: 0 <= k < |ordered| ==> ordered[k] in g && g[ordered[k]] == After(ordered, k))
    && forall u :: u in g && u !in ordered ==> g[u] == []
  }

  /** Clears all dependencies, then lets each placed stage precede the next one. */
  method RebuildChain(stages: seq<nat>, ordered: seq<nat>, g0: Graph) returns (g: Graph)
    requires NoDup(stages) && NoDup(ordered) && g0.Keys == Elems(stages) && forall u :: u in ordered ==> u in stages
    ensures Rebuilt(stages, ordered, g)
  {
    g := g0;
    var i := 0;
    while i < |stages|
      invariant 0 <= i <= |stages| && g.Keys == Elems(stages) && forall j :: 0 <= j < i ==> g[stages[j]] == []
    {
      g := g[stages[i] := []];
      i := i + 1;
    }
    assert forall u :: u in g ==> g[u] == [];
    var k := 0;
    while k + 1 < |ordered|
      invariant 0 <= k && (k < |ordered| || k == 0) && g.Keys == Elems(stages)
      invariant forall j :: 0 <= j < |ordered| ==> g[ordered[j]] == if j < k then [ordered[j + 1]] else []
      invariant forall u :: u in g && u !in ordered ==> g[u] == []
    {
      assert ordered[k] in ordered;
      g := g[ordered[k] := g[ordered[k]] + [ordered[k + 1]]];
      k := k + 1;
    }
  }

  /** Every edge of the rebuilt graph joins neighbours in the list of placed stages. */
  lemma RebuiltEdges(stages: seq<nat>, ordered: seq<nat>, g: Graph, u: nat, v: nat)
    requires NoDup(ordered) && Rebuilt(stages, ordered, g) && Edge(g, u, v)
    ensures u in ordered && Place(ordered, u) + 1 < |ordered| && v == ordered[Place(ordered, u) + 1]
  {
    if u in ordered {
      assert After(ordered, Place(ordered, u)) == g[u];
    }
  }

  lemma RebuiltClosed(stages: seq<nat>, ordered: seq<nat>, g: Graph)
    requires NoDup(ordered) && Rebuilt(stages, ordered, g)
    ensures Closed(g)
  {
    forall u, v | u in g && v in g[u]
      ensures v in g
    {
      RebuiltEdges(stages, ordered, g, u, v);
      var next := After(ordered, Place(ordered, u) + 1);
    }
  }

  /** With all stages placed the rebuilt graph is one chain, and the placed stages are its only order. */
  lemma AllPlacedIsChain(stages: seq<nat>, ordered: seq<nat>, g: Graph)
    requires NoDup(ordered) && Rebuilt(stages, ordered, g) && Elems(stages) == Elems(ordered)
    ensures IsChain(g, ordered) && TopologicalOrder(g, ordered)
  {
    forall i | 0 <= i < |ordered|
      ensures g[ordered[i]] == After(ordered, i)
    {
    }
    forall i, j | 0 <= i < |ordered| && 0 <= j < |ordered| && Edge(g, ordered[i], ordered[j])
      ensures i < j
    {
      RebuiltEdges(stages, ordered, g, ordered[i], ordered[j]);
      NoDupPlace(ordered, i);
      NoDupPlace(ordered, j);
      NoDupPlace(ordered, i + 1);
    }
    forall u | u in ordered
      ensures u in g
    {
      assert u in Elems(ordered);
    }
  }

  /** A stage that was not placed breaks every chain of two or more stages. */
  lemma UnplacedBreaksChain(stages: seq<nat>, ordered: seq<nat>, g: Graph, s: seq<nat>, u: nat)
    requires NoDup(ordered) && Rebuilt(stages, ordered, g) && u in g && u !in ordered
    requires TopologicalOrder(g, s) && |s| > 1
    ensures !IsChain(g, s)
  {
    if IsChain(g, s) {
      assert u in Elems(s);
      var i := Place(s, u);
      assert g[s[i]] == After(s, i);
      if i + 1 == |s| {
        assert g[s[i - 1]] == After(s, i - 1);
        assert Edge(g, s[i - 1], u);
        RebuiltEdges(stages, ordered, g, s[i - 1], u);
      }
    }
  }

  /**
   * Sorting and validating again after path expansion: succeeds exactly when every stage was placed, or
   * there is at most one stage, and then returns the placed stages in their order.
   */
  method ResortAndValidate(stages: seq<nat>, ordered: seq<nat>, g0: Graph) returns (result: Option<seq<nat>>)
    requires NoDup(stages) && NoDup(ordered) && g0.Keys == Elems(stages) && forall u :: u in ordered ==> u in stages
    ensures result.Some? <==> Elems(stages) == Elems(ordered) || |stages| <= 1
    ensures result.Some? && Elems(stages) == Elems(ordered) ==> result.value == ordered
  {
    var g := RebuildChain(stages, ordered, g0);
    RebuiltClosed(stages, ordered, g);
    RebuiltIsAcyclic(stages, ordered, g);
    FromAll(stages, g);
    var sorted := TopologicalSortStages(stages, g);
    var ok := ValidateLinearChain(sorted.value, g);
    NoDupCard(stages);
    NoDupCard(sorted.value);
    if Elems(stages) == Elems(ordered) {
      AllPlacedIsChain(stages, ordered, g);
      ChainOrderIsUnique(g, ordered, sorted.value);
    } else if |stages| > 1 {
      var u :| u in Elems(stages) && u !in ordered;
      UnplacedBreaksChain(stages, ordered, g, sorted.value, u);
    } else {
      if ordered != [] {
        SomePlaced(stages, ordered);
      }
      OneStageIsChain(stages, ordered, g, sorted.value);
    }
    result := if ok then sorted else None;
  }

  lemma SomePlaced(stages: seq<nat>, ordered: seq<nat>)
    requires |stages| <= 1 && (forall u :: u in ordered ==> u in stages) && ordered != []
    ensures Elems(stages) == Elems(ordered)
  {
    assert ordered[0] in ordered;
  }

  lemma OneStageIsChain(stages: seq<nat>, ordered: seq<nat>, g: Graph, s: seq<nat>)
    requires NoDup(ordered) && Rebuilt(stages, ordered, g) && TopologicalOrder(g, s) && |s| <= 1 && ordered == []
    ensures s == [] || IsChain(g, s)
  {
    if s != [] {
      assert s[0] in Elems(s);
    }
  }

  lemma RebuiltIsAcyclic(stages: seq<nat>, ordered: seq<nat>, g: Graph)
    requires NoDup(ordered) && Rebuilt(stages, ordered, g)
    ensures !Cyclic(g)
  {
    var rank: map<nat, nat> := map u | u in g :: if u in ordered then Place(ordered, u) else 0;
    forall u, v | Edge(g, u, v)
      ensures v in g && rank[u] < rank[v]
    {
      RebuiltEdges(stages, ordered, g, u, v);
      var next := After(ordered, Place(ordered, u) + 1);
      NoDupPlace(ordered, Place(ordered, u) + 1);
    }
    RankedIsAcyclic(g, rank);
  }
}
