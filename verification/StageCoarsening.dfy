/**
 * Correction of all stage dependencies of a legal tree: depths of pipelines and the list of stages are
 * collected in one walk, then every stage's list is corrected.
 */
module StageCoarsening {
  import opened Sequences
  import opened OperationTree
  import opened TreeShape
  import opened LegalizerRules
  import opened StageDependencies

  /** The ancestry is that of the tree. */
  ghost predicate SameTree(kids: Children, t: Ancestry) {
    && kids.Keys == t.up.Keys
    && forall n, c :: n in kids && c in kids[n] ==> c in t.up && t.up[c] == n
  }

  /** In a tree without violations the links give an ancestry in which all stages sit in pipelines. */
  lemma LegalTreeAncestry(l: Links, kids: Children, rank: map<Node, nat>, root: Node, withDeps: set<Node>) returns (t: Ancestry)
    requires Represents(l, kids) && Repairable(kids, rank, root, withDeps) && root.kind == Root && NoViolation(kids, withDeps)
    ensures Valid(t) && SameTree(kids, t) && StagesInPipelines(t) && forall n :: n in kids ==> t.up[n] == l.parent[n]
  {
    var top := MaxRank(rank, kids.Keys);
    t := Ancestry(map n | n in kids :: l.parent[n], map n | n in kids :: top - rank[n]);
    forall n | n in kids && l.parent[n] != null
      ensures l.parent[n] in kids && n in kids[l.parent[n]]
    {
      assert Anchored(l, kids, n);
    }
    forall n, c | n in kids && c in kids[n]
      ensures c in kids && l.parent[c] == n
    {
      ParentOf(l, kids, n, c);
    }
    forall n | n in kids && n.kind == Stage
      ensures l.parent[n] != null && l.parent[n].kind == Pipeline
    {
      assert HasParent(kids, n);
      var q :| q in kids && n in kids[q];
      ParentOf(l, kids, q, n);
      SplitFacts(kids[q]);
      assert ListWeight(q, kids[q], withDeps) == 0;
    }
  }

  /** Depths recorded so far are right. */
  ghost predicate RightDepths(t: Ancestry, depths: map<Node, nat>)
    requires Valid(t)
  {
    forall p :: p in depths ==> p in t.up && depths[p] == Depth(t, p)
  }

  ghost predicate Recorded(depths: map<Node, nat>, nodes: seq<Node>) {
    forall p :: p in nodes && p.kind == Pipeline ==> p in depths
  }

  /** The pipelines and stages among `walk` have been added to `depths0` and `stages0`. */
  ghost predicate Collected(t: Ancestry, walk: seq<Node>, depths0: map<Node, nat>, stages0: seq<Node>,
      depths: map<Node, nat>, stages: seq<Node>)
    requires Valid(t)
  {
    && RightDepths(t, depths) && depths0.Keys <= depths.Keys && Recorded(depths, walk)
    && stages == stages0 + Stages(walk)
  }

  lemma CollectedJoin(t: Ancestry, a: seq<Node>, b: seq<Node>, depths0: map<Node, nat>, stages0: seq<Node>,
      depths1: map<Node, nat>, stages1: seq<Node>, depths: map<Node, nat>, stages: seq<Node>)
    requires Valid(t) && Collected(t, a, depths0, stages0, depths1, stages1) && Collected(t, b, depths1, stages1, depths, stages)
    ensures Collected(t, a + b, depths0, stages0, depths, stages)
  {
    StagesJoin(a, b);
  }

  lemma ChildDepth(kids: Children, t: Ancestry, n: Node, c: Node)
    requires Valid(t) && SameTree(kids, t) && n in kids && c in kids[n]
    ensures c in t.up && Depth(t, c) == Depth(t, n) + if n.kind == Pipeline then 1 else 0
  {
  }

  lemma CollectedStart(kids: Children, rank: map<Node, nat>, t: Ancestry, n: Node, depths0: map<Node, nat>, stages0: seq<Node>)
    requires Ranked(kids, rank) && Valid(t) && SameTree(kids, t) && n in kids && n in t.up && RightDepths(t, depths0)
    ensures PreOrder(kids, rank, n) == WalkSoFar(kids, rank, n, |kids[n]|)
    ensures Collected(t, WalkSoFar(kids, rank, n, 0), depths0, stages0,
      if n.kind == Pipeline then depths0[n := Depth(t, n)] else depths0,
      if n.kind == Stage then stages0 + [n] else stages0)
  {
    WalkEnds(kids, rank, n);
    assert Stages([n]) == if n.kind == Stage then [n] else [];
  }

  /** Records the depths of the pipelines below `n` and lists the stages there. */
  method BuildDepthMap(n: Node, depth: nat, depths0: map<Node, nat>, stages0: seq<Node>,
    ghost kids: Children, ghost rank: map<Node, nat>, ghost t: Ancestry)
    returns (depths: map<Node, nat>, stages: seq<Node>)
    requires Linked(kids) && Ranked(kids, rank) && Valid(t) && SameTree(kids, t) && n in kids
    requires depth == Depth(t, n) && RightDepths(t, depths0)
    ensures Collected(t, PreOrder(kids, rank, n), depths0, stages0, depths, stages)
    decreases rank[n], 2
  {
    var inner: nat;
    depths, stages, inner := Visit(n, depth, depths0, stages0);
    CollectedStart(kids, rank, t, n, depths0, stages0);
    depths, stages := VisitChildren(n, inner, depths, stages, depths0, stages0, kids, rank, t);
  }

  method VisitChildren(n: Node, inner: nat, depths1: map<Node, nat>, stages1: seq<Node>,
    ghost depths0: map<Node, nat>, ghost stages0: seq<Node>, ghost kids: Children, ghost rank: map<Node, nat>, ghost t: Ancestry)
    returns (depths: map<Node, nat>, stages: seq<Node>)
    requires Linked(kids) && Ranked(kids, rank) && Valid(t) && SameTree(kids, t) && n in kids
    requires n in t.up && inner == Depth(t, n) + if n.kind == Pipeline then 1 else 0
    requires Collected(t, WalkSoFar(kids, rank, n, 0), depths0, stages0, depths1, stages1)
    ensures Collected(t, WalkSoFar(kids, rank, n, |kids[n]|), depths0, stages0, depths, stages)
    decreases rank[n], 1
  {
    depths, stages := depths1, stages1;
    ghost var i := 0;
    var child := FirstOf(n, kids);
    while child != null
      invariant 0 <= i <= |kids[n]| && child == if i < |kids[n]| then kids[n][i] else null
      invariant Collected(t, WalkSoFar(kids, rank, n, i), depths0, stages0, depths, stages)
      decreases |kids[n]| - i
    {
      depths, stages := VisitChild(n, child, inner, depths, stages, depths0, stages0, i, kids, rank, t);
      child := NextOf(child, n, i, kids);
      i := i + 1;
    }
  }

  /** Walks child `i` of `n`. */
  method VisitChild(ghost n: Node, child: Node, inner: nat, depths1: map<Node, nat>, stages1: seq<Node>,
    ghost depths0: map<Node, nat>, ghost stages0: seq<Node>, ghost i: nat,
    ghost kids: Children, ghost rank: map<Node, nat>, ghost t: Ancestry)
    returns (depths: map<Node, nat>, stages: seq<Node>)
    requires Linked(kids) && Ranked(kids, rank) && Valid(t) && SameTree(kids, t) && n in kids
    requires i < |kids[n]| && child == kids[n][i] && n in t.up && inner == Depth(t, n) + if n.kind == Pipeline then 1 else 0
    requires Collected(t, WalkSoFar(kids, rank, n, i), depths0, stages0, depths1, stages1)
    ensures Collected(t, WalkSoFar(kids, rank, n, i + 1), depths0, stages0, depths, stages)
    decreases rank[n], 0
  {
    WalkNext(kids, rank, n, i);
    ChildDepth(kids, t, n, child);
    depths, stages := BuildDepthMap(child, inner, depths1, stages1, kids, rank, t);
    CollectedJoin(t, WalkSoFar(kids, rank, n, i), PreOrder(kids, rank, child), depths0, stages0, depths1, stages1, depths, stages);
  }

  /** What is recorded for one node, and the depth of its children. */
  method Visit(n: Node, depth: nat, depths0: map<Node, nat>, stages0: seq<Node>)
    returns (depths: map<Node, nat>, stages: seq<Node>, inner: nat)
    ensures depths == if n.kind == Pipeline then depths0[n := depth] else depths0
    ensures stages == if n.kind == Stage then stages0 + [n] else stages0
    ensures inner == if n.kind == Pipeline then depth + 1 else depth
  {
    depths, stages, inner := depths0, stages0, depth;
    if n.kind == Pipeline {
      depths, inner := depths[n := depth], depth + 1;
    } else if n.kind == Stage {
      stages := stages + [n];
    }
  }

  /** No list has blanks, and the first `k` stages are settled. */
  ghost predicate SettledStages(t: Ancestry, d: Dependencies, stages: seq<Node>, k: nat)
    requires Valid(t) && StagesInPipelines(t) && Lists(t, d)
  {
    && (forall n: Node :: n in d ==> null !in d[n])
    && k <= |stages| && forall j :: 0 <= j < k ==> stages[j] in d && Settled(t, stages[j], d[stages[j]])
  }

  lemma AllSettled(t: Ancestry, d: Dependencies, stages: seq<Node>)
    requires Valid(t) && StagesInPipelines(t) && Lists(t, d) && SettledStages(t, d, stages, |stages|)
    requires forall n :: n in t.up && n.kind == Stage ==> n in stages
    ensures forall e :: e in Edges(t, d) ==> Proper(t, e) && Lift(t, e) == e
  {
    EdgesProper(t, d);
    forall e | e in Edges(t, d)
      ensures Lift(t, e) == e
    {
      var j := Place(stages, e.source);
      assert Settled(t, e.source, d[e.source]);
      var i :| 0 <= i < |d[e.source]| && d[e.source][i] == e.sink;
    }
  }

  /** Corrects the lists of all stages. */
  method CorrectStages(stages: seq<Node>, depths: map<Node, nat>, ghost t: Ancestry, ghost d: Dependencies)
    returns (ghost d': Dependencies)
    requires Shows(t, d) && DepthsOf(t, depths) && SettledStages(t, d, stages, 0)
    requires forall n :: n in stages <==> n in t.up && n.kind == Stage
    modifies t.up.Keys`dependencies
    ensures Shows(t, d') && SettledStages(t, d', stages, |stages|) && SameHomes(t, Edges(t, d), Edges(t, d')) && Kept(t, d, d')
  {
    d' := d;
    EdgesProper(t, d);
    var k := 0;
    while k < |stages|
      invariant 0 <= k <= |stages| && Shows(t, d') && SettledStages(t, d', stages, k)
      invariant SameHomes(t, Edges(t, d), Edges(t, d')) && Kept(t, d, d')
    {
      assert stages[k] in stages;
      ghost var d1 := d';
      d' := CorrectStage(stages[k], depths, t, d1);
      OneMoreSettled(t, d1, d', stages, k);
      KeptTwice(t, d, d1, d');
      k := k + 1;
    }
  }

  lemma OneMoreSettled(t: Ancestry, d: Dependencies, d': Dependencies, stages: seq<Node>, k: nat)
    requires Valid(t) && StagesInPipelines(t) && Lists(t, d) && Lists(t, d')
    requires k < |stages| && stages[k] in d && SettledStages(t, d, stages, k) && Progress(t, d, d', stages[k])
    requires Settled(t, stages[k], d'[stages[k]]) && null !in d'[stages[k]]
    ensures SettledStages(t, d', stages, k + 1)
  {
    forall j | 0 <= j < k + 1
      ensures stages[j] in d' && Settled(t, stages[j], d'[stages[j]])
    {
      if stages[j] != stages[k] {
        assert Settled(t, stages[j], d[stages[j]]);
      }
    }
  }

  /** The entries of `a` that belonged to the edge, and one more at most, if entries of other stages did. */
  ghost predicate ListedOften(t: Ancestry, d: Dependencies, d': Dependencies, a: Node, b: Node)
    requires Valid(t) && StagesInPipelines(t) && Lists(t, d) && a in d && a in d'
  {
    var n := multiset(d'[a])[b];
    OwnIn(t, d, a, b) <= n <= OwnIn(t, d, a, b) + if Inner(t, d, a, b) then 1 else 0
  }

  lemma KeptIsListed(t: Ancestry, d: Dependencies, d': Dependencies, stages: seq<Node>, a: Node, b: Node)
    requires Valid(t) && StagesInPipelines(t) && Lists(t, d) && Lists(t, d') && Kept(t, d, d')
    requires SettledStages(t, d', stages, |stages|) && a in stages && a in t.up && b in t.up
    ensures ListedOften(t, d, d', a, b)
  {
    var j := Place(stages, a);
    assert ListOf(t, a, d'[a]) && ListOf(t, a, d[a]) && Settled(t, a, d'[a]);
    OwnIsListed(t, a, d'[a], b);
    assert KeptAt(t, d, d', a, b);
    if !(Proper(t, Edge(a, b)) && Lift(t, Edge(a, b)) == Edge(a, b)) {
      NotListed(t, a, d[a], b);
      NotListed(t, a, d'[a], b);
    }
  }

  /**
   * Corrects all stage dependencies of a legal tree: afterwards the edges are exactly the lifts of the
   * edges before. An edge is listed as often as entries of its stage belonged to it, and once more at most,
   * if entries of other stages did.
   */
  method CorrectStageDependencies(root: Node, ghost kids: Children, ghost rank: map<Node, nat>, ghost t: Ancestry, ghost d: Dependencies)
    returns (ghost d': Dependencies)
    requires Linked(kids) && Ranked(kids, rank) && Rooted(kids, root) && root.parent == null
    requires Shows(t, d) && SameTree(kids, t) && forall n: Node :: n in d ==> null !in d[n]
    modifies t.up.Keys`dependencies
    ensures Shows(t, d') && (forall n: Node :: n in d' ==> null !in d'[n])
    ensures (forall e :: e in Edges(t, d) ==> Proper(t, e)) && Edges(t, d') == Lifted(t, Edges(t, d))
    ensures forall a: Node, b: Node :: a in t.up && a.kind == Stage && b in t.up ==> ListedOften(t, d, d', a, b)
  {
    var depths, stages := BuildDepthMap(root, 0, map[], [], kids, rank, t);
    WalkIsAll(kids, rank, root);
    SplitFacts(PreOrder(kids, rank, root));
    d' := CorrectStages(stages, depths, t, d);
    AllSettled(t, d', stages);
    LiftedFixed(t, Edges(t, d'));
    forall a: Node, b: Node | a in t.up && a.kind == Stage && b in t.up ensures ListedOften(t, d, d', a, b) {
      KeptIsListed(t, d, d', stages, a, b);
    }
  }
}
