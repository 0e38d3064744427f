/** Directed graphs over stage numbers, given by successor lists in which an edge may be repeated. */
module Digraph {
  import opened Sequences

  type Graph = map<nat, seq<nat>>

  /** Every edge ends inside the graph. */
  ghost predicate Closed(g: Graph) {
    forall u, v :: u in g && v in g[u] ==> v in g
  }

  predicate Edge(g: Graph, u: nat, v: nat) {
    u in g && v in g[u]
  }

  /** `p` is a walk: it is not empty and follows edges. */
  ghost predicate Walk(g: Graph, p: seq<nat>) {
    |p| > 0 && p[0] in g && forall i :: 0 <= i < |p| - 1 ==> Edge(g, p[i], p[i + 1])
  }

  ghost predicate WalkBetween(g: Graph, p: seq<nat>, u: nat, v: nat) {
    Walk(g, p) && p[0] == u && p[|p| - 1] == v
  }

  ghost predicate Reaches(g: Graph, u: nat, v: nat) {
    exists p :: WalkBetween(g, p, u, v)
  }

  ghost predicate IsCycle(g: Graph, p: seq<nat>) {
    Walk(g, p) && |p| > 1 && p[0] == p[|p| - 1]
  }

  ghost predicate Cyclic(g: Graph) {
    exists p :: IsCycle(g, p)
  }

  /** `order` lists every vertex once and each edge goes forward in it. */
  ghost predicate TopologicalOrder(g: Graph, order: seq<nat>) {
    && NoDup(order)
    && Elems(order) == g.Keys
    && forall i, j :: 0 <= i < |order| && 0 <= j < |order| && Edge(g, order[i], order[j]) ==> i < j
  }

  lemma WalkJoin(g: Graph, p: seq<nat>, q: seq<nat>, u: nat, v: nat, w: nat)
    requires WalkBetween(g, p, u, v) && WalkBetween(g, q, v, w)
    ensures WalkBetween(g, p + q[1..], u, w)
  {
    var r := p + q[1..];
    forall i | 0 <= i < |r| - 1
      ensures Edge(g, r[i], r[i + 1])
    {
      if i >= |p| - 1 {
        assert Edge(g, q[i - |p| + 1], q[i - |p| + 2]);
      }
    }
  }

  lemma ReachesTransitive(g: Graph, u: nat, v: nat, w: nat)
    requires Reaches(g, u, v) && Reaches(g, v, w)
    ensures Reaches(g, u, w)
  {
    var p :| WalkBetween(g, p, u, v);
    var q :| WalkBetween(g, q, v, w);
    WalkJoin(g, p, q, u, v, w);
  }

  lemma ReachesEdge(g: Graph, u: nat, v: nat)
    requires Edge(g, u, v)
    ensures Reaches(g, u, v)
  {
    assert WalkBetween(g, [u, v], u, v);
  }

  lemma ReachesSelf(g: Graph, u: nat)
    requires u in g
    ensures Reaches(g, u, u)
  {
    assert WalkBetween(g, [u], u, u);
  }

  /** Along a walk positions in a topological order only grow. */
  lemma {:induction false} WalkClimbs(g: Graph, order: seq<nat>, p: seq<nat>, i: nat, j: nat)
    requires TopologicalOrder(g, order) && Walk(g, p) && Closed(g)
    requires i < |order| && j < |order| && order[i] == p[0] && order[j] == p[|p| - 1]
    ensures |p| > 1 ==> i < j
    decreases |p|
  {
    if |p| > 1 {
      var last := |p| - 1;
      assert Edge(g, p[last - 1], p[last]);
      assert p[last - 1] in Elems(order);
      var k :| 0 <= k < |order| && order[k] == p[last - 1];
      WalkClimbs(g, order, p[..last], i, k);
    }
  }

  lemma OrderedIsAcyclic(g: Graph, order: seq<nat>)
    requires TopologicalOrder(g, order) && Closed(g)
    ensures !Cyclic(g)
  {
    if Cyclic(g) {
      var p :| IsCycle(g, p);
      assert p[0] in Elems(order);
      var i :| 0 <= i < |order| && order[i] == p[0];
      WalkClimbs(g, order, p, i, i);
    }
  }

  ghost predicate HasPredecessorIn(g: Graph, s: set<nat>, v: nat) {
    exists u :: u in s && Edge(g, u, v)
  }

  /** Every member of `s` has a predecessor in `s`. */
  ghost predicate Stuck(g: Graph, s: set<nat>) {
    && s != {} && s <= g.Keys
    && forall v {:trigger HasPredecessorIn(g, s, v)} :: v in s ==> HasPredecessorIn(g, s, v)
  }

  /** Vertices that can be numbered so that every edge climbs form no cycle. */
  lemma RankedIsAcyclic(g: Graph, rank: map<nat, nat>)
    requires forall u, v :: Edge(g, u, v) ==> u in rank && v in rank && rank[u] < rank[v]
    ensures !Cyclic(g)
  {
    if Cyclic(g) {
      var p :| IsCycle(g, p);
      RankClimbs(g, rank, p);
    }
  }

  lemma {:induction false} RankClimbs(g: Graph, rank: map<nat, nat>, p: seq<nat>)
    requires forall u, v :: Edge(g, u, v) ==> u in rank && v in rank && rank[u] < rank[v]
    requires Walk(g, p) && |p| > 1
    ensures p[0] in rank && p[|p| - 1] in rank && rank[p[0]] < rank[p[|p| - 1]]
    decreases |p|
  {
    var last := |p| - 1;
    assert Edge(g, p[last - 1], p[last]);
    if |p| > 2 {
      RankClimbs(g, rank, p[..last]);
    }
  }

  /** Inside a set whose every member has a predecessor in the set there are walks of any length. */
  lemma {:induction false} BackwardWalk(g: Graph, stuck: set<nat>, n: nat) returns (p: seq<nat>)
    requires Stuck(g, stuck)
    ensures |p| == n + 1 && Walk(g, p) && forall x :: x in p ==> x in stuck
  {
    if n == 0 {
      var v :| v in stuck;
      p := [v];
    } else {
      var q := BackwardWalk(g, stuck, n - 1);
      assert HasPredecessorIn(g, stuck, q[0]);
      var u :| u in stuck && Edge(g, u, q[0]);
      p := [u] + q;
      forall i | 0 <= i < |p| - 1
        ensures Edge(g, p[i], p[i + 1])
      {
        if i > 0 {
          assert Edge(g, q[i - 1], q[i]);
        }
      }
    }
  }

  /** Such a set contains a cycle. */
  lemma StuckSetHasCycle(g: Graph, stuck: set<nat>)
    requires Stuck(g, stuck)
    ensures Cyclic(g)
  {
    var p := BackwardWalk(g, stuck, |stuck|);
    if NoDup(p) {
      NoDupBound(p, stuck);
    }
    var i, j :| 0 <= i < j < |p| && p[i] == p[j];
    var c := p[i..j + 1];
    forall k | 0 <= k < |c| - 1
      ensures Edge(g, c[k], c[k + 1])
    {
      assert Edge(g, p[i + k], p[i + k + 1]);
    }
    assert c[0] in stuck;
    assert IsCycle(g, c);
  }

  /** `done` is the beginning of a topological order: each entry comes after all its predecessors. */
  ghost predicate OrderedPrefix(g: Graph, done: seq<nat>) {
    && NoDup(done)
    && (forall v :: v in done ==> v in g)
    && forall u, j :: 0 <= j < |done| && Edge(g, u, done[j]) ==> u in done[..j]
  }

  lemma ExtendPrefix(g: Graph, done: seq<nat>, v: nat)
    requires OrderedPrefix(g, done) && v in g && v !in done
    requires forall u :: Edge(g, u, v) ==> u in done
    ensures OrderedPrefix(g, done + [v])
  {
    var next := done + [v];
    forall u, j | 0 <= j < |next| && Edge(g, u, next[j])
      ensures u in next[..j]
    {
      if j < |done| {
        assert next[..j] == done[..j];
      } else {
        assert next[..j] == done;
      }
    }
  }

  lemma FullPrefixIsOrder(g: Graph, done: seq<nat>)
    requires OrderedPrefix(g, done) && forall v :: v in g ==> v in done
    ensures TopologicalOrder(g, done)
  {
    forall i, j | 0 <= i < |done| && 0 <= j < |done| && Edge(g, done[i], done[j])
      ensures i < j
    {
      assert done[i] in done[..j];
    }
  }

  lemma {:induction false} OrderRest(g: Graph, done: seq<nat>, todo: set<nat>) returns (order: seq<nat>)
    requires Closed(g) && !Cyclic(g) && OrderedPrefix(g, done)
    requires todo == g.Keys - Elems(done)
    ensures TopologicalOrder(g, order)
    decreases |todo|
  {
    if todo == {} {
      FullPrefixIsOrder(g, done);
      order := done;
    } else {
      if Stuck(g, todo) {
        StuckSetHasCycle(g, todo);
      }
      var v :| v in todo && !HasPredecessorIn(g, todo, v);
      ExtendPrefix(g, done, v);
      assert todo - {v} == g.Keys - Elems(done + [v]);
      order := OrderRest(g, done + [v], todo - {v});
    }
  }

  /** A graph without a cycle has a topological order. */
  lemma AcyclicHasOrder(g: Graph) returns (order: seq<nat>)
    requires Closed(g) && !Cyclic(g)
    ensures TopologicalOrder(g, order)
  {
    order := OrderRest(g, [], g.Keys - Elems<nat>([]));
  }

  /** In a finite acyclic graph every vertex reaches one without successors. */
  lemma {:induction false} ReachesSink(g: Graph, order: seq<nat>, i: nat) returns (t: nat)
    requires Closed(g) && TopologicalOrder(g, order) && i < |order|
    ensures Reaches(g, order[i], t) && t in g && g[t] == []
    decreases |order| - i
  {
    var u := order[i];
    assert u in Elems(order);
    if g[u] == [] {
      ReachesSelf(g, u);
      t := u;
    } else {
      var v := g[u][0];
      assert Edge(g, u, v) && v in Elems(order);
      var j :| 0 <= j < |order| && order[j] == v;
      t := ReachesSink(g, order, j);
      ReachesEdge(g, u, v);
      ReachesTransitive(g, u, v, t);
    }
  }

  /** And is reached from one without predecessors. */
  lemma {:induction false} ReachedFromSource(g: Graph, order: seq<nat>, i: nat) returns (s: nat)
    requires Closed(g) && TopologicalOrder(g, order) && i < |order|
    ensures Reaches(g, s, order[i]) && s in g && forall u :: u in g ==> !Edge(g, u, s)
    decreases i
  {
    var v := order[i];
    assert v in Elems(order);
    if forall u :: u in g ==> !Edge(g, u, v) {
      ReachesSelf(g, v);
      s := v;
    } else {
      var u :| u in g && Edge(g, u, v);
      assert u in Elems(order);
      var j :| 0 <= j < |order| && order[j] == u;
      s := ReachedFromSource(g, order, j);
      ReachesEdge(g, u, v);
      ReachesTransitive(g, s, u, v);
    }
  }
}
