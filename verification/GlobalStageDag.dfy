/**
 * The graph over the innermost stages of a nest of pipelines. Each pipeline's own edges are
 * stitched across pipeline boundaries: an edge between two stages becomes edges from the leaf
 * stages of the first to the root stages of the second.
 */
module GlobalStageDag {
  import opened Sequences
  import opened Digraph
  import opened StageTokens

  // ---------------------------------------------------------------------------------------------
  // Nests of pipelines
  // ---------------------------------------------------------------------------------------------

  /** Structural size, the measure of every recursion below. */
  ghost function StageSize(s: Stage): nat
    decreases s
  {
    1 + PipesSize(s.inner)
  }

  ghost function PipesSize(ps: seq<Pipeline>): nat
    decreases ps
  {
    if ps == [] then 0 else 1 + StagesSize(ps[0].stages) + PipesSize(ps[1..])
  }

  ghost function StagesSize(ss: seq<Stage>): nat
    decreases ss
  {
    if ss == [] then 0 else StageSize(ss[0]) + StagesSize(ss[1..])
  }

  /** Numbers of a stage and of all stages nested in it. */
  ghost function StageIds(s: Stage): set<nat>
    decreases s
  {
    {s.id} + PipesIds(s.inner)
  }

  ghost function PipesIds(ps: seq<Pipeline>): set<nat>
    decreases ps
  {
    if ps == [] then {} else StagesIds(ps[0].stages) + PipesIds(ps[1..])
  }

  ghost function StagesIds(ss: seq<Stage>): set<nat>
    decreases ss
  {
    if ss == [] then {} else StageIds(ss[0]) + StagesIds(ss[1..])
  }

  /** No two stages of the nest share a number. */
  ghost predicate DistinctStage(s: Stage)
    decreases s
  {
    s.id !in PipesIds(s.inner) && DistinctPipes(s.inner)
  }

  ghost predicate DistinctPipes(ps: seq<Pipeline>)
    decreases ps
  {
    ps == [] || (
      && DistinctStages(ps[0].stages) && DistinctPipes(ps[1..])
      && StagesIds(ps[0].stages) !! PipesIds(ps[1..]))
  }

  ghost predicate DistinctStages(ss: seq<Stage>)
    decreases ss
  {
    ss == [] || (
      && DistinctStage(ss[0]) && DistinctStages(ss[1..])
      && StageIds(ss[0]) !! StagesIds(ss[1..]))
  }

  /** Every pipeline of the nest has an acyclic graph of its own. */
  ghost predicate AcyclicStage(s: Stage)
    decreases s
  {
    AcyclicPipes(s.inner)
  }

  ghost predicate AcyclicPipes(ps: seq<Pipeline>)
    decreases ps
  {
    ps == [] || (AcyclicStages(ps[0].stages) && !Cyclic(LocalGraph(ps[0].stages)) && AcyclicPipes(ps[1..]))
  }

  ghost predicate AcyclicStages(ss: seq<Stage>)
    decreases ss
  {
    ss == [] || (AcyclicStage(ss[0]) && AcyclicStages(ss[1..]))
  }

  // ---------------------------------------------------------------------------------------------
  // Roots and leaves
  // ---------------------------------------------------------------------------------------------

  /** The pipeline that a post-order walk of a stage meets first: the innermost one of its first nest. */
  function FirstNested(s: Stage): (r: Option<Pipeline>)
    ensures r.Some? ==> StagesSize(r.value.stages) < StageSize(s)
    ensures r.None? <==> s.inner == []
    decreases s
  {
    if s.inner == [] then None
    else
      match FirstNestedIn(s.inner[0].stages)
      case Some(p) => Some(p)
      case None => Some(s.inner[0])
  }

  function FirstNestedIn(ss: seq<Stage>): (r: Option<Pipeline>)
    ensures r.Some? ==> StagesSize(r.value.stages) < StagesSize(ss)
    decreases ss
  {
    if ss == [] then None
    else
      match FirstNested(ss[0])
      case Some(p) => Some(p)
      case None => FirstNestedIn(ss[1..])
  }

  lemma {:induction false} MemberSize(ss: seq<Stage>, i: nat)
    requires i < |ss|
    ensures StageSize(ss[i]) <= StagesSize(ss)
  {
    if i > 0 {
      MemberSize(ss[1..], i - 1);
    }
  }

  ghost function RootStages(s: Stage): seq<Stage>
    decreases StageSize(s), 1, 0
  {
    match FirstNested(s)
    case None => [s]
    case Some(p) => if Cyclic(LocalGraph(p.stages)) then [s] else RootsAmong(p.stages, |p.stages|)
  }

  /** Roots of those of the first `n` stages of a pipeline that have no supplier in it. */
  ghost function RootsAmong(all: seq<Stage>, n: nat): seq<Stage>
    requires n <= |all|
    decreases StagesSize(all), 2, n
  {
    if n == 0 then []
    else
      MemberSize(all, n - 1);
      RootsAmong(all, n - 1) + if Suppliers(all, all[n - 1].dependsIn) == [] then RootStages(all[n - 1]) else []
  }

  ghost function LeafStages(s: Stage): seq<Stage>
    decreases StageSize(s), 1, 0
  {
    match FirstNested(s)
    case None => [s]
    case Some(p) => if Cyclic(LocalGraph(p.stages)) then [s] else LeavesAmong(p.stages, |p.stages|)
  }

  /** Leaves of those of the first `n` stages of a pipeline that have no consumer in it. */
  ghost function LeavesAmong(all: seq<Stage>, n: nat): seq<Stage>
    requires n <= |all|
    decreases StagesSize(all), 2, n
  {
    if n == 0 then []
    else
      MemberSize(all, n - 1);
      LeavesAmong(all, n - 1) + if Consumers(all, all, all[n - 1].id) == [] then LeafStages(all[n - 1]) else []
  }

  /** The stage numbered `x` is in the list. */
  ghost predicate Named(ss: seq<Stage>, x: nat) {
    exists k :: 0 <= k < |ss| && ss[k].id == x
  }

  /** All listed stages are innermost ones and belong to the given numbers. */
  ghost predicate Innermost(ss: seq<Stage>, ids: set<nat>) {
    forall k :: 0 <= k < |ss| ==> ss[k].inner == [] && ss[k].id in ids
  }

  lemma {:induction false} FirstNestedInside(s: Stage)
    requires AcyclicStage(s) && FirstNested(s).Some?
    ensures var p := FirstNested(s).value;
      && AcyclicStages(p.stages) && !Cyclic(LocalGraph(p.stages)) && StagesIds(p.stages) <= PipesIds(s.inner)
    decreases s
  {
    if FirstNestedIn(s.inner[0].stages).Some? {
      FirstNestedInsideList(s.inner[0].stages);
    }
  }

  lemma {:induction false} FirstNestedInsideList(ss: seq<Stage>)
    requires AcyclicStages(ss) && FirstNestedIn(ss).Some?
    ensures var p := FirstNestedIn(ss).value;
      && AcyclicStages(p.stages) && !Cyclic(LocalGraph(p.stages)) && StagesIds(p.stages) <= StagesIds(ss)
    decreases ss
  {
    if FirstNested(ss[0]).Some? {
      FirstNestedInside(ss[0]);
    } else {
      FirstNestedInsideList(ss[1..]);
    }
  }

  /** With acyclic pipelines the roots of a stage are innermost stages inside it, and so are its leaves. */
  lemma {:induction false} RootsAreInnermost(s: Stage)
    requires AcyclicStage(s)
    ensures Innermost(RootStages(s), StageIds(s))
    decreases StageSize(s), 1, 0
  {
    if FirstNested(s).Some? {
      FirstNestedInside(s);
      var p := FirstNested(s).value;
      RootsAmongAreInnermost(p.stages, |p.stages|);
    }
  }

  lemma {:induction false} RootsAmongAreInnermost(all: seq<Stage>, n: nat)
    requires AcyclicStages(all) && n <= |all|
    ensures Innermost(RootsAmong(all, n), StagesIds(all))
    decreases StagesSize(all), 2, n
  {
    if n > 0 {
      MemberSize(all, n - 1);
      MemberIds(all, n - 1);
      MemberIsAcyclic(all, n - 1);
      RootsAreInnermost(all[n - 1]);
      RootsAmongAreInnermost(all, n - 1);
    }
  }

  lemma {:induction false} LeavesAreInnermost(s: Stage)
    requires AcyclicStage(s)
    ensures Innermost(LeafStages(s), StageIds(s))
    decreases StageSize(s), 1, 0
  {
    if FirstNested(s).Some? {
      FirstNestedInside(s);
      var p := FirstNested(s).value;
      LeavesAmongAreInnermost(p.stages, |p.stages|);
    }
  }

  lemma {:induction false} LeavesAmongAreInnermost(all: seq<Stage>, n: nat)
    requires AcyclicStages(all) && n <= |all|
    ensures Innermost(LeavesAmong(all, n), StagesIds(all))
    decreases StagesSize(all), 2, n
  {
    if n > 0 {
      MemberSize(all, n - 1);
      MemberIds(all, n - 1);
      MemberIsAcyclic(all, n - 1);
      LeavesAreInnermost(all[n - 1]);
      LeavesAmongAreInnermost(all, n - 1);
    }
  }

  // ---------------------------------------------------------------------------------------------
  // Stitched edges climb a common numbering
  // ---------------------------------------------------------------------------------------------

  /** `a` precedes `b` directly in pipeline `p`. */
  ghost predicate Before(p: Pipeline, i: nat, j: nat) {
    i < |p.stages| && j < |p.stages| && Edge(LocalGraph(p.stages), p.stages[i].id, p.stages[j].id)
  }

  /** The edges that pipeline `p` contributes. */
  ghost predicate Stitched(p: Pipeline, x: nat, y: nat) {
    exists i: nat, j: nat :: Before(p, i, j) && Named(LeafStages(p.stages[i]), x) && Named(RootStages(p.stages[j]), y)
  }

  /** `x` lies in a stage of `p` that precedes the stage `y` lies in. */
  ghost predicate Separated(p: Pipeline, x: nat, y: nat) {
    exists i: nat, j: nat :: Before(p, i, j) && x in StageIds(p.stages[i]) && y in StageIds(p.stages[j])
  }

  lemma StitchedIsSeparated(p: Pipeline, x: nat, y: nat)
    requires AcyclicStages(p.stages) && Stitched(p, x, y)
    ensures Separated(p, x, y)
  {
    var i: nat, j: nat :| Before(p, i, j) && Named(LeafStages(p.stages[i]), x) && Named(RootStages(p.stages[j]), y);
    MemberIsAcyclic(p.stages, i);
    MemberIsAcyclic(p.stages, j);
    LeavesAreInnermost(p.stages[i]);
    RootsAreInnermost(p.stages[j]);
  }

  lemma {:induction false} MemberIsAcyclic(ss: seq<Stage>, i: nat)
    requires AcyclicStages(ss) && i < |ss|
    ensures AcyclicStage(ss[i])
  {
    if i > 0 {
      MemberIsAcyclic(ss[1..], i - 1);
    }
  }

  ghost predicate Climbs(rank: map<nat, nat>, x: nat, y: nat) {
    x in rank && y in rank && rank[x] < rank[y]
  }

  /** `rank` grows along the separated pairs of every pipeline of the nest. */
  ghost predicate RankedStage(s: Stage, rank: map<nat, nat>)
    decreases s
  {
    RankedPipes(s.inner, rank)
  }

  ghost predicate RankedPipes(ps: seq<Pipeline>, rank: map<nat, nat>)
    decreases ps
  {
    ps == [] || (
      && (forall x, y :: Separated(ps[0], x, y) ==> Climbs(rank, x, y))
      && RankedStages(ps[0].stages, rank) && RankedPipes(ps[1..], rank))
  }

  ghost predicate RankedStages(ss: seq<Stage>, rank: map<nat, nat>)
    decreases ss
  {
    ss == [] || (RankedStage(ss[0], rank) && RankedStages(ss[1..], rank))
  }

  /** `rank'` orders the given numbers at least as `rank` does. */
  ghost predicate Agrees(ids: set<nat>, rank: map<nat, nat>, rank': map<nat, nat>) {
    forall x, y :: x in ids && y in ids && Climbs(rank, x, y) ==> Climbs(rank', x, y)
  }

  lemma SeparatedInside(p: Pipeline, x: nat, y: nat)
    requires Separated(p, x, y)
    ensures x in StagesIds(p.stages) && y in StagesIds(p.stages)
  {
    var i: nat, j: nat :| Before(p, i, j) && x in StageIds(p.stages[i]) && y in StageIds(p.stages[j]);
    MemberIds(p.stages, i);
    MemberIds(p.stages, j);
  }

  lemma {:induction false} MemberIds(ss: seq<Stage>, i: nat)
    requires i < |ss|
    ensures StageIds(ss[i]) <= StagesIds(ss) && ss[i].id in StagesIds(ss)
  {
    if i > 0 {
      MemberIds(ss[1..], i - 1);
    }
  }

  lemma {:induction false} RerankPipes(ps: seq<Pipeline>, rank: map<nat, nat>, rank': map<nat, nat>)
    requires RankedPipes(ps, rank) && Agrees(PipesIds(ps), rank, rank')
    ensures RankedPipes(ps, rank')
    decreases ps
  {
    if ps != [] {
      forall x, y | Separated(ps[0], x, y)
        ensures Climbs(rank', x, y)
      {
        SeparatedInside(ps[0], x, y);
      }
      forall i | 0 <= i < |ps[0].stages| {
        MemberIds(ps[0].stages, i);
      }
      RerankStages(ps[0].stages, rank, rank');
      RerankPipes(ps[1..], rank, rank');
    }
  }

  lemma {:induction false} RerankStages(ss: seq<Stage>, rank: map<nat, nat>, rank': map<nat, nat>)
    requires RankedStages(ss, rank)
    requires forall i :: 0 <= i < |ss| ==> Agrees(StageIds(ss[i]), rank, rank')
    ensures RankedStages(ss, rank')
    decreases ss
  {
    if ss != [] {
      assert PipesIds(ss[0].inner) <= StageIds(ss[0]);
      assert Agrees(StageIds(ss[0]), rank, rank');
      RerankPipes(ss[0].inner, rank, rank');
      assert forall i :: 0 <= i < |ss[1..]| ==> ss[1..][i] == ss[i + 1];
      RerankStages(ss[1..], rank, rank');
    }
  }

  ghost predicate Bounded(rank: map<nat, nat>, ids: set<nat>, bound: nat) {
    rank.Keys == ids && forall x :: x in rank ==> rank[x] < bound
  }

  /** Numberings of disjoint parts are put side by side. */
  lemma {:induction false} RankPipes(ps: seq<Pipeline>) returns (rank: map<nat, nat>, bound: nat)
    requires DistinctPipes(ps) && AcyclicPipes(ps)
    ensures Bounded(rank, PipesIds(ps), bound) && RankedPipes(ps, rank)
    decreases ps
  {
    if ps == [] {
      rank, bound := map[], 0;
    } else {
      var first, b := RankPipe(ps[0]);
      var rest, c := RankPipes(ps[1..]);
      rank, bound := first + rest, b + c;
      RerankPipes(ps[1..], rest, rank);
      forall i | 0 <= i < |ps[0].stages| {
        MemberIds(ps[0].stages, i);
      }
      RerankStages(ps[0].stages, first, rank);
      assert forall x, y :: Separated(ps[0], x, y) ==> Climbs(first, x, y);
    }
  }

  lemma {:induction false} RankStages(ss: seq<Stage>) returns (rank: map<nat, nat>, bound: nat)
    requires DistinctStages(ss) && AcyclicStages(ss)
    ensures Bounded(rank, StagesIds(ss), bound) && RankedStages(ss, rank)
    decreases ss
  {
    if ss == [] {
      rank, bound := map[], 0;
    } else {
      var inner, b := RankPipes(ss[0].inner);
      var rest, c := RankStages(ss[1..]);
      rank, bound := inner + rest + map[ss[0].id := 0], b + c + 1;
      RerankPipes(ss[0].inner, inner, rank);
      forall i | 0 <= i < |ss[1..]| {
        MemberIds(ss[1..], i);
      }
      RerankStages(ss[1..], rest, rank);
    }
  }

  /** The stage of the list that `x` lies in. */
  ghost function Owner(ss: seq<Stage>, x: nat): (i: nat)
    requires x in StagesIds(ss)
    ensures i < |ss| && x in StageIds(ss[i])
  {
    if x in StageIds(ss[0]) then 0 else 1 + Owner(ss[1..], x)
  }

  lemma {:induction false} OwnerIsOnly(ss: seq<Stage>, i: nat, x: nat)
    requires DistinctStages(ss) && i < |ss| && x in StageIds(ss[i])
    ensures x in StagesIds(ss) && Owner(ss, x) == i
  {
    if i > 0 {
      MemberIds(ss[1..], i - 1);
      OwnerIsOnly(ss[1..], i - 1, x);
    }
  }

  lemma BlockOrder(a: nat, b: nat, width: nat, r: nat, s: nat)
    requires a < b && r < width
    ensures a * width + r < b * width + s
  {
    assert b * width == a * width + (b - a) * width;
    assert (b - a) * width == width + (b - a - 1) * width;
  }

  lemma BlockBound(a: nat, n: nat, width: nat, r: nat)
    requires a < n && r < width
    ensures a * width + r < n * width
  {
    BlockOrder(a, n, width, r, 0);
  }

  /** The blocks of the stages follow the topological order of their pipeline. */
  ghost function Blocks(ss: seq<Stage>, order: seq<nat>, rank: map<nat, nat>, width: nat): map<nat, nat>
    requires rank.Keys == StagesIds(ss) && forall i :: 0 <= i < |ss| ==> ss[i].id in order
  {
    map x | x in StagesIds(ss) :: Place(order, ss[Owner(ss, x)].id) * width + rank[x]
  }

  lemma {:induction false} RankPipe(p: Pipeline) returns (rank: map<nat, nat>, bound: nat)
    requires DistinctStages(p.stages) && AcyclicStages(p.stages) && !Cyclic(LocalGraph(p.stages))
    ensures Bounded(rank, StagesIds(p.stages), bound) && RankedStages(p.stages, rank)
    ensures forall x, y :: Separated(p, x, y) ==> Climbs(rank, x, y)
    decreases p
  {
    var ss := p.stages;
    var inner, width := RankStages(ss);
    LocalGraphClosed(ss);
    var order := AcyclicHasOrder(LocalGraph(ss));
    assert forall i :: 0 <= i < |ss| ==> ss[i].id in Elems(order);
    rank, bound := Blocks(ss, order, inner, width), |order| * width;
    forall x | x in rank
      ensures rank[x] < bound
    {
      BlockBound(Place(order, ss[Owner(ss, x)].id), |order|, width, inner[x]);
    }
    forall i | 0 <= i < |ss|
      ensures Agrees(StageIds(ss[i]), inner, rank)
    {
      forall x | x in StageIds(ss[i]) {
        OwnerIsOnly(ss, i, x);
      }
    }
    RerankStages(ss, inner, rank);
    forall x, y | Separated(p, x, y)
      ensures Climbs(rank, x, y)
    {
      BlocksClimb(p, order, inner, width, x, y);
    }
  }

  lemma BlocksClimb(p: Pipeline, order: seq<nat>, inner: map<nat, nat>, width: nat, x: nat, y: nat)
    requires DistinctStages(p.stages) && Bounded(inner, StagesIds(p.stages), width)
    requires TopologicalOrder(LocalGraph(p.stages), order)
    requires forall i :: 0 <= i < |p.stages| ==> p.stages[i].id in order
    requires Separated(p, x, y)
    ensures Climbs(Blocks(p.stages, order, inner, width), x, y)
  {
    var ss := p.stages;
    var i: nat, j: nat :| Before(p, i, j) && x in StageIds(ss[i]) && y in StageIds(ss[j]);
    OwnerIsOnly(ss, i, x);
    OwnerIsOnly(ss, j, y);
    var a, b := Place(order, ss[i].id), Place(order, ss[j].id);
    assert Edge(LocalGraph(ss), order[a], order[b]);
    BlockOrder(a, b, width, inner[x], inner[y]);
  }

  // ---------------------------------------------------------------------------------------------
  // The global graph
  // ---------------------------------------------------------------------------------------------

  /** Post-order list of all pipelines of a nest. */
  function PostPipes(ps: seq<Pipeline>): seq<Pipeline>
    decreases ps
  {
    if ps == [] then [] else PostStages(ps[0].stages) + [ps[0]] + PostPipes(ps[1..])
  }

  function PostStages(ss: seq<Stage>): seq<Pipeline>
    decreases ss
  {
    if ss == [] then [] else PostPipes(ss[0].inner) + PostStages(ss[1..])
  }

  /** A pipeline of the nest sees acyclic, distinct stages and a rank that respects its separated pairs. */
  lemma {:induction false} MemberPipe(ps: seq<Pipeline>, k: nat, rank: map<nat, nat>)
    requires AcyclicPipes(ps) && RankedPipes(ps, rank) && k < |PostPipes(ps)|
    ensures var p := PostPipes(ps)[k];
      && AcyclicStages(p.stages) && forall x, y :: Separated(p, x, y) ==> Climbs(rank, x, y)
    decreases ps
  {
    var n := |PostStages(ps[0].stages)|;
    if k < n {
      MemberPipeOfStages(ps[0].stages, k, rank);
    } else if k > n {
      MemberPipe(ps[1..], k - n - 1, rank);
    }
  }

  lemma {:induction false} MemberPipeOfStages(ss: seq<Stage>, k: nat, rank: map<nat, nat>)
    requires AcyclicStages(ss) && RankedStages(ss, rank) && k < |PostStages(ss)|
    ensures var p := PostStages(ss)[k];
      && AcyclicStages(p.stages) && forall x, y :: Separated(p, x, y) ==> Climbs(rank, x, y)
    decreases ss
  {
    var n := |PostPipes(ss[0].inner)|;
    if k < n {
      MemberPipe(ss[0].inner, k, rank);
    } else {
      MemberPipeOfStages(ss[1..], k - n, rank);
    }
  }

  /** `g` holds exactly the edges that the pipelines of the nest contribute. */
  ghost predicate IsGlobalGraph(ps: seq<Pipeline>, g: Graph) {
    forall x, y :: Edge(g, x, y) <==> exists k :: 0 <= k < |PostPipes(ps)| && Stitched(PostPipes(ps)[k], x, y)
  }

  /** Whatever the nesting, acyclic pipelines stitch to an acyclic graph. */
  lemma GlobalGraphIsAcyclic(ps: seq<Pipeline>, g: Graph)
    requires DistinctPipes(ps) && AcyclicPipes(ps) && IsGlobalGraph(ps, g)
    ensures !Cyclic(g)
  {
    var rank, bound := RankPipes(ps);
    forall x, y | Edge(g, x, y)
      ensures Climbs(rank, x, y)
    {
      var k :| 0 <= k < |PostPipes(ps)| && Stitched(PostPipes(ps)[k], x, y);
      MemberPipe(ps, k, rank);
      StitchedIsSeparated(PostPipes(ps)[k], x, y);
    }
    RankedIsAcyclic(g, rank);
  }

  /** Its edges join innermost stages of the nest only. */
  lemma GlobalEdgesJoinInnermost(ps: seq<Pipeline>, k: nat, x: nat, y: nat)
    requires AcyclicPipes(ps) && k < |PostPipes(ps)| && Stitched(PostPipes(ps)[k], x, y)
    ensures exists a, b :: InnermostStage(PostPipes(ps)[k], a) && InnermostStage(PostPipes(ps)[k], b) && a.id == x && b.id == y
  {
    var p := PostPipes(ps)[k];
    MemberPipeIsAcyclic(ps, k);
    var i: nat, j: nat :| Before(p, i, j) && Named(LeafStages(p.stages[i]), x) && Named(RootStages(p.stages[j]), y);
    MemberIsAcyclic(p.stages, i);
    MemberIsAcyclic(p.stages, j);
    LeavesAreInnermost(p.stages[i]);
    RootsAreInnermost(p.stages[j]);
    var m :| 0 <= m < |LeafStages(p.stages[i])| && LeafStages(p.stages[i])[m].id == x;
    var n :| 0 <= n < |RootStages(p.stages[j])| && RootStages(p.stages[j])[n].id == y;
    MemberIds(p.stages, i);
    MemberIds(p.stages, j);
    assert InnermostStage(p, LeafStages(p.stages[i])[m]);
    assert InnermostStage(p, RootStages(p.stages[j])[n]);
  }

  /** `s` holds no pipeline and is one of the stages nested in `p`. */
  ghost predicate InnermostStage(p: Pipeline, s: Stage) {
    s.inner == [] && s.id in StagesIds(p.stages)
  }

  lemma {:induction false} MemberPipeIsAcyclic(ps: seq<Pipeline>, k: nat)
    requires AcyclicPipes(ps) && k < |PostPipes(ps)|
    ensures AcyclicStages(PostPipes(ps)[k].stages) && !Cyclic(LocalGraph(PostPipes(ps)[k].stages))
    decreases ps
  {
    var n := |PostStages(ps[0].stages)|;
    if k < n {
      MemberPipeIsAcyclicInStages(ps[0].stages, k);
    } else if k > n {
      MemberPipeIsAcyclic(ps[1..], k - n - 1);
    }
  }

  lemma {:induction false} MemberPipeIsAcyclicInStages(ss: seq<Stage>, k: nat)
    requires AcyclicStages(ss) && k < |PostStages(ss)|
    ensures AcyclicStages(PostStages(ss)[k].stages) && !Cyclic(LocalGraph(PostStages(ss)[k].stages))
    decreases ss
  {
    var n := |PostPipes(ss[0].inner)|;
    if k < n {
      MemberPipeIsAcyclic(ss[0].inner, k);
    } else {
      MemberPipeIsAcyclicInStages(ss[1..], k - n);
    }
  }

  /** Checking each pipeline on its own is checking the nest. */
  lemma {:induction false} AllAcyclic(ps: seq<Pipeline>)
    requires forall k :: 0 <= k < |PostPipes(ps)| ==> !Cyclic(LocalGraph(PostPipes(ps)[k].stages))
    ensures AcyclicPipes(ps)
    decreases ps
  {
    if ps != [] {
      var inner, rest := PostStages(ps[0].stages), PostPipes(ps[1..]);
      var all := PostPipes(ps);
      assert all[|inner|] == ps[0];
      assert forall k :: 0 <= k < |inner| ==> inner[k] == all[k];
      assert forall k :: 0 <= k < |rest| ==> rest[k] == all[|inner| + 1 + k];
      AllAcyclicStages(ps[0].stages);
      AllAcyclic(ps[1..]);
    }
  }

  lemma {:induction false} AllAcyclicStages(ss: seq<Stage>)
    requires forall k :: 0 <= k < |PostStages(ss)| ==> !Cyclic(LocalGraph(PostStages(ss)[k].stages))
    ensures AcyclicStages(ss)
    decreases ss
  {
    if ss != [] {
      var first, rest := PostPipes(ss[0].inner), PostStages(ss[1..]);
      assert forall k :: 0 <= k < |first| ==> first[k] == PostStages(ss)[k];
      assert forall k :: 0 <= k < |rest| ==> rest[k] == PostStages(ss)[|first| + k];
      AllAcyclic(ss[0].inner);
      AllAcyclicStages(ss[1..]);
    }
  }

  lemma {:induction false} DistinctSiblingsOf(ss: seq<Stage>)
    requires DistinctStages(ss)
    ensures DistinctSiblings(ss)
  {
    if ss != [] {
      DistinctSiblingsOf(ss[1..]);
      forall i | 1 <= i < |ss|
        ensures ss[i].id != ss[0].id
      {
        MemberIds(ss[1..], i - 1);
      }
    }
  }

  lemma {:induction false} FirstNestedDistinct(s: Stage)
    requires DistinctStage(s) && FirstNested(s).Some?
    ensures DistinctStages(FirstNested(s).value.stages)
    decreases s
  {
    if FirstNestedIn(s.inner[0].stages).Some? {
      FirstNestedDistinctIn(s.inner[0].stages);
    }
  }

  lemma {:induction false} FirstNestedDistinctIn(ss: seq<Stage>)
    requires DistinctStages(ss) && FirstNestedIn(ss).Some?
    ensures DistinctStages(FirstNestedIn(ss).value.stages)
    decreases ss
  {
    if FirstNested(ss[0]).Some? {
      FirstNestedDistinct(ss[0]);
    } else {
      FirstNestedDistinctIn(ss[1..]);
    }
  }

  lemma {:induction false} MemberDistinct(ss: seq<Stage>, i: nat)
    requires DistinctStages(ss) && i < |ss|
    ensures DistinctStage(ss[i])
  {
    if i > 0 {
      MemberDistinct(ss[1..], i - 1);
    }
  }

  lemma RootsAmongNext(inner: seq<Stage>, dag: Dag, i: nat)
    requires MirrorsTokens(inner, dag) && i < |inner|
    ensures inner[i].id in dag.predecessors
    ensures RootsAmong(inner, i + 1) == RootsAmong(inner, i) + if dag.predecessors[inner[i].id] == [] then RootStages(inner[i]) else []
  {
  }

  lemma LeavesAmongNext(inner: seq<Stage>, dag: Dag, i: nat)
    requires MirrorsTokens(inner, dag) && i < |inner|
    ensures inner[i].id in dag.successors
    ensures LeavesAmong(inner, i + 1) == LeavesAmong(inner, i) + if dag.successors[inner[i].id] == [] then LeafStages(inner[i]) else []
  {
  }

  /** The recursive search for roots, after the cyclic case has been ruled out. */
  method CollectRoots(inner: seq<Stage>, dag: Dag) returns (roots: seq<Stage>)
    requires DistinctStages(inner) && MirrorsTokens(inner, dag)
    ensures roots == RootsAmong(inner, |inner|)
    decreases StagesSize(inner), 2
  {
    roots := [];
    for i := 0 to |inner|
      invariant roots == RootsAmong(inner, i)
    {
      RootsAmongNext(inner, dag, i);
      if dag.predecessors[inner[i].id] == [] {
        MemberDistinct(inner, i);
        MemberSize(inner, i);
        var more := GetRootStages(inner[i]);
        roots := roots + more;
      }
    }
  }

  method GetRootStages(s: Stage) returns (roots: seq<Stage>)
    requires DistinctStage(s)
    ensures roots == RootStages(s)
    decreases StageSize(s), 1
  {
    var nested := FirstNested(s);
    if nested.None? {
      return [s];
    }
    var inner := nested.value.stages;
    FirstNestedDistinct(s);
    DistinctSiblingsOf(inner);
    var ok, dag := AnalyzeStageDependencies(inner);
    if !ok {
      return [s];
    }
    roots := CollectRoots(inner, dag);
  }

  /** The recursive search for leaves, after the cyclic case has been ruled out. */
  method CollectLeaves(inner: seq<Stage>, dag: Dag) returns (leaves: seq<Stage>)
    requires DistinctStages(inner) && MirrorsTokens(inner, dag)
    ensures leaves == LeavesAmong(inner, |inner|)
    decreases StagesSize(inner), 2
  {
    leaves := [];
    for i := 0 to |inner|
      invariant leaves == LeavesAmong(inner, i)
    {
      LeavesAmongNext(inner, dag, i);
      if dag.successors[inner[i].id] == [] {
        MemberDistinct(inner, i);
        MemberSize(inner, i);
        var more := GetLeafStages(inner[i]);
        leaves := leaves + more;
      }
    }
  }

  method GetLeafStages(s: Stage) returns (leaves: seq<Stage>)
    requires DistinctStage(s)
    ensures leaves == LeafStages(s)
    decreases StageSize(s), 1
  {
    var nested := FirstNested(s);
    if nested.None? {
      return [s];
    }
    var inner := nested.value.stages;
    FirstNestedDistinct(s);
    DistinctSiblingsOf(inner);
    var ok, dag := AnalyzeStageDependencies(inner);
    if !ok {
      return [s];
    }
    leaves := CollectLeaves(inner, dag);
  }

  // ---------------------------------------------------------------------------------------------
  // buildGlobalStageDAG
  // ---------------------------------------------------------------------------------------------

  function At(g: Graph, u: nat): seq<nat> {
    if u in g then g[u] else []
  }

  /** Predecessor and successor lists are inverse to each other, repetitions included. */
  ghost predicate Mutual(dag: Dag) {
    forall u, v :: multiset(At(dag.successors, u))[v] == multiset(At(dag.predecessors, v))[u]
  }

  function Push(g: Graph, u: nat, v: nat): Graph {
    g[u := At(g, u) + [v]]
  }

  /** How often the edge from `x` to `y` is in the graph. */
  ghost function Count(g: Graph, x: nat, y: nat): nat {
    multiset(At(g, x))[y]
  }

  lemma EdgeIsCounted(g: Graph, x: nat, y: nat)
    ensures Edge(g, x, y) <==> Count(g, x, y) > 0
  {
  }

  lemma PushCounts(g: Graph, u: nat, v: nat)
    ensures forall x, y :: Count(Push(g, u, v), x, y) == Count(g, x, y) + if x == u && y == v then 1 else 0
  {
  }

  /** How often the stage numbered `x` is among the first `n` of the list, and in all of it. */
  ghost function TimesIn(ss: seq<Stage>, n: nat, x: nat): nat
    requires n <= |ss|
  {
    if n == 0 then 0 else TimesIn(ss, n - 1, x) + if ss[n - 1].id == x then 1 else 0
  }

  ghost function Times(ss: seq<Stage>, x: nat): nat {
    TimesIn(ss, |ss|, x)
  }

  lemma {:induction false} NamedTimes(ss: seq<Stage>, n: nat, x: nat)
    requires n <= |ss|
    ensures TimesIn(ss, n, x) > 0 <==> exists k :: 0 <= k < n && ss[k].id == x
  {
    if n > 0 {
      NamedTimes(ss, n - 1, x);
    }
  }

  lemma PushKeepsMutual(dag: Dag, u: nat, v: nat)
    requires Mutual(dag)
    ensures Mutual(Dag(Push(dag.predecessors, v, u), Push(dag.successors, u, v)))
  {
    var next := Dag(Push(dag.predecessors, v, u), Push(dag.successors, u, v));
    forall x, y
      ensures multiset(At(next.successors, x))[y] == multiset(At(next.predecessors, y))[x]
    {
      assert multiset(At(dag.successors, x))[y] == multiset(At(dag.predecessors, y))[x];
    }
  }

  /** From the first `n` leaves to all roots, as often as they are listed. */
  ghost predicate PairsAdded(before: Graph, after: Graph, leaves: seq<Stage>, roots: seq<Stage>, n: nat)
    requires n <= |leaves|
  {
    forall x, y :: Count(after, x, y) == Count(before, x, y) + TimesIn(leaves, n, x) * Times(roots, y)
  }

  lemma OneMoreTimes(a: nat, b: nat)
    ensures (a + 1) * b == a * b + b && (a + 0) * b == a * b
  {
  }

  lemma PairsNext(before: Graph, g: Graph, after: Graph, leaves: seq<Stage>, roots: seq<Stage>, n: nat)
    requires n < |leaves| && PairsAdded(before, g, leaves, roots, n) && RootsAdded(g, after, leaves[n].id, roots, |roots|)
    ensures PairsAdded(before, after, leaves, roots, n + 1)
  {
    forall x, y
      ensures Count(after, x, y) == Count(before, x, y) + TimesIn(leaves, n + 1, x) * Times(roots, y)
    {
      OneMoreTimes(TimesIn(leaves, n, x), Times(roots, y));
      assert Count(g, x, y) == Count(before, x, y) + TimesIn(leaves, n, x) * Times(roots, y);
      assert Count(after, x, y) == Count(g, x, y) + if x == leaves[n].id then Times(roots, y) else 0;
    }
  }

  /** Joins every leaf to every root. */
  method StitchPair(dag: Dag, leaves: seq<Stage>, roots: seq<Stage>) returns (dag': Dag)
    requires Mutual(dag)
    ensures Mutual(dag') && PairsAdded(dag.successors, dag'.successors, leaves, roots, |leaves|)
  {
    dag' := dag;
    for i := 0 to |leaves|
      invariant Mutual(dag') && PairsAdded(dag.successors, dag'.successors, leaves, roots, i)
    {
      ghost var last := dag';
      dag' := StitchLeaf(dag', leaves[i].id, roots);
      PairsNext(dag.successors, last.successors, dag'.successors, leaves, roots, i);
    }
  }

  /** One edge from `leaf` to each of the first `j` roots has been added. */
  ghost predicate RootsAdded(before: Graph, after: Graph, leaf: nat, roots: seq<Stage>, j: nat)
    requires j <= |roots|
  {
    forall x, y :: Count(after, x, y) == Count(before, x, y) + if x == leaf then TimesIn(roots, j, y) else 0
  }

  lemma RootsNext(before: Graph, after: Graph, leaf: nat, roots: seq<Stage>, j: nat)
    requires j < |roots| && RootsAdded(before, after, leaf, roots, j)
    ensures RootsAdded(before, Push(after, leaf, roots[j].id), leaf, roots, j + 1)
  {
    PushCounts(after, leaf, roots[j].id);
  }

  method StitchLeaf(dag: Dag, leaf: nat, roots: seq<Stage>) returns (dag': Dag)
    requires Mutual(dag)
    ensures Mutual(dag') && RootsAdded(dag.successors, dag'.successors, leaf, roots, |roots|)
  {
    dag' := dag;
    assert forall y :: TimesIn(roots, 0, y) == 0;
    for j := 0 to |roots|
      invariant Mutual(dag') && RootsAdded(dag.successors, dag'.successors, leaf, roots, j)
    {
      PushKeepsMutual(dag', leaf, roots[j].id);
      RootsNext(dag.successors, dag'.successors, leaf, roots, j);
      dag' := Dag(Push(dag'.predecessors, roots[j].id, leaf), Push(dag'.successors, leaf, roots[j].id));
    }
  }

  function IndexOf(ss: seq<Stage>, id: nat): (j: nat)
    requires id in IdsOf(ss)
    ensures j < |ss| && ss[j].id == id
  {
    if ss[0].id == id then 0
    else
      assert IdsOf(ss) == IdsOf(ss[1..]) + {ss[0].id} by {
        assert forall k :: 1 <= k < |ss| ==> ss[k] == ss[1..][k - 1];
      }
      1 + IndexOf(ss[1..], id)
  }

  /** The consumers of stage `i` of the pipeline, once for each token. */
  function ConsumersOf(p: Pipeline, i: nat): (consumers: seq<nat>)
    requires i < |p.stages|
    ensures forall v :: v in consumers ==> v in IdsOf(p.stages)
  {
    ConsumersAreListed(p.stages, p.stages, p.stages[i].id);
    Consumers(p.stages, p.stages, p.stages[i].id)
  }

  /** The stage that entry `k` of that list names. */
  function ConsumerAt(p: Pipeline, i: nat, k: nat): (j: nat)
    requires i < |p.stages| && k < |ConsumersOf(p, i)|
    ensures j < |p.stages| && p.stages[j].id == ConsumersOf(p, i)[k]
  {
    assert ConsumersOf(p, i)[k] in ConsumersOf(p, i);
    IndexOf(p.stages, ConsumersOf(p, i)[k])
  }

  /** For entry `k` of the consumer list of stage `i`: leaves numbered `x` times roots numbered `y`. */
  ghost function StitchesAt(p: Pipeline, i: nat, k: nat, x: nat, y: nat): nat
    requires i < |p.stages| && k < |ConsumersOf(p, i)|
  {
    Times(LeafStages(p.stages[i]), x) * Times(RootStages(p.stages[ConsumerAt(p, i, k)]), y)
  }

  /** For the first `n` entries of that list. */
  ghost function StitchesFor(p: Pipeline, i: nat, n: nat, x: nat, y: nat): nat
    requires i < |p.stages| && n <= |ConsumersOf(p, i)|
  {
    if n == 0 then 0 else StitchesFor(p, i, n - 1, x, y) + StitchesAt(p, i, n - 1, x, y)
  }

  /** The same for the whole lists of the first `n` stages. */
  ghost function StitchesBelow(p: Pipeline, n: nat, x: nat, y: nat): nat
    requires n <= |p.stages|
  {
    if n == 0 then 0 else StitchesBelow(p, n - 1, x, y) + StitchesFor(p, n - 1, |ConsumersOf(p, n - 1)|, x, y)
  }

  /** How often a pipeline alone joins `x` to `y`. */
  ghost function Stitches(p: Pipeline, x: nat, y: nat): nat {
    StitchesBelow(p, |p.stages|, x, y)
  }

  /** Added up over all pipelines of a nest. */
  ghost function AllStitches(ps: seq<Pipeline>, x: nat, y: nat): nat
    decreases ps
  {
    if ps == [] then 0 else Stitches(ps[0], x, y) + InnerStitches(ps[0].stages, x, y) + AllStitches(ps[1..], x, y)
  }

  ghost function InnerStitches(ss: seq<Stage>, x: nat, y: nat): nat
    decreases ss
  {
    if ss == [] then 0 else AllStitches(ss[0].inner, x, y) + InnerStitches(ss[1..], x, y)
  }

  ghost predicate Consumes(p: Pipeline, i: nat, n: nat, before: Graph, after: Graph)
    requires i < |p.stages| && n <= |ConsumersOf(p, i)|
  {
    forall x, y :: Count(after, x, y) == Count(before, x, y) + StitchesFor(p, i, n, x, y)
  }

  lemma ConsumesNext(p: Pipeline, i: nat, k: nat, before: Graph, g: Graph, after: Graph)
    requires i < |p.stages| && k < |ConsumersOf(p, i)| && Consumes(p, i, k, before, g)
    requires var leaves := LeafStages(p.stages[i]);
      PairsAdded(g, after, leaves, RootStages(p.stages[ConsumerAt(p, i, k)]), |leaves|)
    ensures Consumes(p, i, k + 1, before, after)
  {
    forall x, y ensures Count(after, x, y) == Count(before, x, y) + StitchesFor(p, i, k + 1, x, y) {
      assert Count(g, x, y) == Count(before, x, y) + StitchesFor(p, i, k, x, y);
    }
  }

  method StitchStage(dag: Dag, p: Pipeline, i: nat, consumers: seq<nat>) returns (dag': Dag)
    requires Mutual(dag) && DistinctStages(p.stages) && i < |p.stages| && consumers == ConsumersOf(p, i)
    ensures Mutual(dag') && Consumes(p, i, |consumers|, dag.successors, dag'.successors)
  {
    dag' := dag;
    MemberDistinct(p.stages, i);
    var leaves := GetLeafStages(p.stages[i]);
    for k := 0 to |consumers|
      invariant Mutual(dag') && Consumes(p, i, k, dag.successors, dag'.successors)
    {
      var j := ConsumerAt(p, i, k);
      MemberDistinct(p.stages, j);
      var roots := GetRootStages(p.stages[j]);
      ghost var last := dag';
      dag' := StitchPair(dag', leaves, roots);
      ConsumesNext(p, i, k, dag.successors, last.successors, dag'.successors);
    }
  }

  ghost predicate StagesStitched(p: Pipeline, n: nat, before: Graph, after: Graph)
    requires n <= |p.stages|
  {
    forall x, y :: Count(after, x, y) == Count(before, x, y) + StitchesBelow(p, n, x, y)
  }

  lemma StagesNext(p: Pipeline, i: nat, before: Graph, g: Graph, after: Graph)
    requires i < |p.stages| && StagesStitched(p, i, before, g) && Consumes(p, i, |ConsumersOf(p, i)|, g, after)
    ensures StagesStitched(p, i + 1, before, after)
  {
    forall x, y ensures Count(after, x, y) == Count(before, x, y) + StitchesBelow(p, i + 1, x, y) {
      assert Count(g, x, y) == Count(before, x, y) + StitchesBelow(p, i, x, y);
    }
  }

  /** One pipeline: fails exactly when its own graph is cyclic. */
  method StitchPipeline(dag: Dag, p: Pipeline) returns (ok: bool, dag': Dag)
    requires Mutual(dag) && DistinctStages(p.stages)
    ensures ok <==> !Cyclic(LocalGraph(p.stages))
    ensures Mutual(dag') && (ok ==> StagesStitched(p, |p.stages|, dag.successors, dag'.successors))
  {
    dag' := dag;
    if p.stages == [] {
      assert LocalGraph(p.stages) == map[];
      ok := true;
      return;
    }
    DistinctSiblingsOf(p.stages);
    var local;
    ok, local := AnalyzeStageDependencies(p.stages);
    if ok {
      dag' := StitchStages(dag, p, local);
    }
  }

  method StitchStages(dag: Dag, p: Pipeline, local: Dag) returns (dag': Dag)
    requires Mutual(dag) && DistinctStages(p.stages) && MirrorsTokens(p.stages, local)
    ensures Mutual(dag') && StagesStitched(p, |p.stages|, dag.successors, dag'.successors)
  {
    dag' := dag;
    for i := 0 to |p.stages|
      invariant Mutual(dag') && StagesStitched(p, i, dag.successors, dag'.successors)
    {
      ghost var last := dag';
      dag' := StitchNext(dag', p, local, i);
      StagesNext(p, i, dag.successors, last.successors, dag'.successors);
    }
  }

  method StitchNext(dag: Dag, p: Pipeline, local: Dag, i: nat) returns (dag': Dag)
    requires Mutual(dag) && DistinctStages(p.stages) && MirrorsTokens(p.stages, local) && i < |p.stages|
    ensures Mutual(dag') && Consumes(p, i, |ConsumersOf(p, i)|, dag.successors, dag'.successors)
  {
    LocalIsConsumers(p, local, i);
    dag' := StitchStage(dag, p, i, local.successors[p.stages[i].id]);
  }

  lemma LocalIsConsumers(p: Pipeline, local: Dag, i: nat)
    requires MirrorsTokens(p.stages, local) && i < |p.stages|
    ensures p.stages[i].id in local.successors && local.successors[p.stages[i].id] == ConsumersOf(p, i)
  {
  }

  // ---------------------------------------------------------------------------------------------
  // Which edges that makes
  // ---------------------------------------------------------------------------------------------

  /** Entry `k` of the consumer list of stage `i` names a stage with a root numbered `y`. */
  ghost predicate HasRoot(p: Pipeline, i: nat, k: nat, y: nat)
    requires i < |p.stages|
  {
    k < |ConsumersOf(p, i)| && Named(RootStages(p.stages[ConsumerAt(p, i, k)]), y)
  }

  lemma {:induction false} StitchedFor(p: Pipeline, i: nat, n: nat, x: nat, y: nat)
    requires i < |p.stages| && n <= |ConsumersOf(p, i)|
    ensures StitchesFor(p, i, n, x, y) > 0 <==> Named(LeafStages(p.stages[i]), x) && exists k: nat :: k < n && HasRoot(p, i, k, y)
  {
    if n > 0 {
      StitchedFor(p, i, n - 1, x, y);
      StitchedAt(p, i, n - 1, x, y);
    }
  }

  lemma StitchedAt(p: Pipeline, i: nat, k: nat, x: nat, y: nat)
    requires i < |p.stages| && k < |ConsumersOf(p, i)|
    ensures StitchesAt(p, i, k, x, y) > 0 <==> Named(LeafStages(p.stages[i]), x) && HasRoot(p, i, k, y)
  {
    var leaves, roots := LeafStages(p.stages[i]), RootStages(p.stages[ConsumerAt(p, i, k)]);
    NamedTimes(leaves, |leaves|, x);
    NamedTimes(roots, |roots|, y);
    ProductIsPositive(Times(leaves, x), Times(roots, y));
  }

  lemma ProductIsPositive(a: nat, b: nat)
    ensures a * b > 0 <==> a > 0 && b > 0
  {
  }

  ghost predicate StitchedFrom(p: Pipeline, i: nat, x: nat, y: nat) {
    i < |p.stages| && StitchesFor(p, i, |ConsumersOf(p, i)|, x, y) > 0
  }

  lemma {:induction false} StitchedBelow(p: Pipeline, n: nat, x: nat, y: nat)
    requires n <= |p.stages|
    ensures StitchesBelow(p, n, x, y) > 0 <==> SomeStage(p, n, x, y)
  {
    if n > 0 {
      StitchedBelow(p, n - 1, x, y);
      SomeStageNext(p, n - 1, x, y);
    }
  }

  ghost predicate SomeStage(p: Pipeline, n: nat, x: nat, y: nat) {
    exists i: nat :: i < n && StitchedFrom(p, i, x, y)
  }

  lemma SomeStageNext(p: Pipeline, n: nat, x: nat, y: nat)
    ensures SomeStage(p, n + 1, x, y) <==> SomeStage(p, n, x, y) || StitchedFrom(p, n, x, y)
  {
  }

  /** A pipeline joins two stages as the edges of its own graph say. */
  lemma StitchedIffCounted(p: Pipeline, x: nat, y: nat)
    requires DistinctSiblings(p.stages)
    ensures Stitched(p, x, y) <==> Stitches(p, x, y) > 0
  {
    StitchedBelow(p, |p.stages|, x, y);
    if Stitched(p, x, y) {
      StitchedIsCounted(p, x, y);
    }
    if i: nat :| i < |p.stages| && StitchedFrom(p, i, x, y) {
      CountedIsStitched(p, i, x, y);
    }
  }

  lemma StitchedIsCounted(p: Pipeline, x: nat, y: nat)
    requires DistinctSiblings(p.stages) && Stitched(p, x, y)
    ensures SomeStage(p, |p.stages|, x, y)
  {
    var i: nat, j: nat :| Before(p, i, j) && Named(LeafStages(p.stages[i]), x) && Named(RootStages(p.stages[j]), y);
    var k :| 0 <= k < |ConsumersOf(p, i)| && ConsumersOf(p, i)[k] == p.stages[j].id;
    assert ConsumerAt(p, i, k) == j;
    assert HasRoot(p, i, k, y);
    StitchedFor(p, i, |ConsumersOf(p, i)|, x, y);
    assert StitchedFrom(p, i, x, y);
  }

  lemma CountedIsStitched(p: Pipeline, i: nat, x: nat, y: nat)
    requires DistinctSiblings(p.stages) && StitchedFrom(p, i, x, y)
    ensures Stitched(p, x, y)
  {
    StitchedFor(p, i, |ConsumersOf(p, i)|, x, y);
    var k: nat :| k < |ConsumersOf(p, i)| && HasRoot(p, i, k, y);
    assert p.stages[i].id in IdsOf(p.stages);
    assert ConsumersOf(p, i)[k] in ConsumersOf(p, i);
    assert Before(p, i, ConsumerAt(p, i, k));
  }

  /** The same sum over a list of pipelines without their nests, from place `k` on. */
  ghost function ListedStitches(all: seq<Pipeline>, k: nat, x: nat, y: nat): nat
    decreases |all| - k
  {
    if k >= |all| then 0 else Stitches(all[k], x, y) + ListedStitches(all, k + 1, x, y)
  }

  lemma {:induction false} ListedJoin(a: seq<Pipeline>, b: seq<Pipeline>, k: nat, x: nat, y: nat)
    requires k <= |a|
    ensures ListedStitches(a + b, k, x, y) == ListedStitches(a, k, x, y) + ListedStitches(b, 0, x, y)
    decreases |a| - k
  {
    if k < |a| {
      ListedJoin(a, b, k + 1, x, y);
    } else {
      ListedShift(a, b, 0, x, y);
    }
  }

  lemma {:induction false} ListedShift(a: seq<Pipeline>, b: seq<Pipeline>, k: nat, x: nat, y: nat)
    ensures ListedStitches(a + b, |a| + k, x, y) == ListedStitches(b, k, x, y)
    decreases |b| - k
  {
    if k < |b| {
      assert (a + b)[|a| + k] == b[k];
      ListedShift(a, b, k + 1, x, y);
    }
  }

  /** The walk lists every pipeline of the nest once. */
  lemma {:induction false} WalkCounts(ps: seq<Pipeline>, x: nat, y: nat)
    ensures ListedStitches(PostPipes(ps), 0, x, y) == AllStitches(ps, x, y)
    decreases ps
  {
    if ps != [] {
      StagesWalkCounts(ps[0].stages, x, y);
      WalkCounts(ps[1..], x, y);
      ListedJoin(PostStages(ps[0].stages) + [ps[0]], PostPipes(ps[1..]), 0, x, y);
      ListedJoin(PostStages(ps[0].stages), [ps[0]], 0, x, y);
    }
  }

  lemma {:induction false} StagesWalkCounts(ss: seq<Stage>, x: nat, y: nat)
    ensures ListedStitches(PostStages(ss), 0, x, y) == InnerStitches(ss, x, y)
    decreases ss
  {
    if ss != [] {
      WalkCounts(ss[0].inner, x, y);
      StagesWalkCounts(ss[1..], x, y);
      ListedJoin(PostPipes(ss[0].inner), PostStages(ss[1..]), 0, x, y);
    }
  }

  lemma {:induction false} ListedIffSome(all: seq<Pipeline>, k: nat, x: nat, y: nat)
    requires k <= |all| && forall l :: 0 <= l < |all| ==> DistinctSiblings(all[l].stages)
    ensures ListedStitches(all, k, x, y) > 0 <==> SomeStitches(all, k, x, y)
    decreases |all| - k
  {
    if k < |all| {
      ListedIffSome(all, k + 1, x, y);
      StitchedIffCounted(all[k], x, y);
      SomeNext(all, k, x, y);
    }
  }

  ghost predicate SomeStitches(all: seq<Pipeline>, k: nat, x: nat, y: nat) {
    exists l :: k <= l < |all| && Stitched(all[l], x, y)
  }

  lemma SomeNext(all: seq<Pipeline>, k: nat, x: nat, y: nat)
    requires k < |all|
    ensures SomeStitches(all, k, x, y) <==> Stitched(all[k], x, y) || SomeStitches(all, k + 1, x, y)
  {
  }

  // ---------------------------------------------------------------------------------------------
  // The whole nest
  // ---------------------------------------------------------------------------------------------

  /** The edges of the pipelines from place `k` on, as often as these join them. */
  ghost predicate Listed(all: seq<Pipeline>, k: nat, dag: Dag) {
    forall x, y :: Count(dag.successors, x, y) == ListedStitches(all, k, x, y)
  }

  lemma ListedNext(all: seq<Pipeline>, k: nat, dag: Dag, dag': Dag)
    requires k < |all| && Listed(all, k + 1, dag) && StagesStitched(all[k], |all[k].stages|, dag.successors, dag'.successors)
    ensures Listed(all, k, dag')
  {
    forall x, y ensures Count(dag'.successors, x, y) == ListedStitches(all, k, x, y) {
      assert Count(dag.successors, x, y) == ListedStitches(all, k + 1, x, y);
    }
  }

  lemma GlobalIsCounted(ps: seq<Pipeline>, dag: Dag)
    requires DistinctPipes(ps) && Listed(PostPipes(ps), 0, dag)
    ensures IsGlobalGraph(ps, dag.successors)
    ensures forall x, y :: Count(dag.successors, x, y) == AllStitches(ps, x, y)
  {
    var all := PostPipes(ps);
    forall l | 0 <= l < |all| ensures DistinctSiblings(all[l].stages) {
      MemberPipeDistinct(ps, l);
      DistinctSiblingsOf(all[l].stages);
    }
    forall x, y
      ensures Count(dag.successors, x, y) == AllStitches(ps, x, y)
      ensures Edge(dag.successors, x, y) <==> exists l :: 0 <= l < |all| && Stitched(all[l], x, y)
    {
      WalkCounts(ps, x, y);
      ListedIffSome(all, 0, x, y);
      EdgeIsCounted(dag.successors, x, y);
    }
  }

  /**
   * Builds the graph over the innermost stages: succeeds exactly when no pipeline is cyclic, and then
   * joins a leaf to a root as often as all pipelines together say, so it holds exactly the stitched
   * edges; predecessors and successors are inverse to each other.
   */
  method BuildGlobalStageDag(ps: seq<Pipeline>) returns (ok: bool, dag: Dag)
    requires DistinctPipes(ps)
    ensures ok <==> AcyclicPipes(ps)
    ensures Mutual(dag)
    ensures ok ==> IsGlobalGraph(ps, dag.successors)
    ensures ok ==> forall x, y :: multiset(At(dag.successors, x))[y] == AllStitches(ps, x, y)
  {
    dag := Dag(map[], map[]);
    var all := PostPipes(ps);
    var k: nat := |all|;
    while k > 0
      invariant k <= |all| && Mutual(dag) && Listed(all, k, dag)
      invariant forall l :: k <= l < |all| ==> !Cyclic(LocalGraph(all[l].stages))
    {
      k := k - 1;
      MemberPipeDistinct(ps, k);
      ghost var last := dag;
      ok, dag := StitchPipeline(dag, all[k]);
      if !ok {
        if AcyclicPipes(ps) {
          MemberPipeIsAcyclic(ps, k);
        }
        return;
      }
      ListedNext(all, k, last, dag);
    }
    AllAcyclic(ps);
    GlobalIsCounted(ps, dag);
    ok := true;
  }

  lemma {:induction false} MemberPipeDistinct(ps: seq<Pipeline>, k: nat)
    requires DistinctPipes(ps) && k < |PostPipes(ps)|
    ensures DistinctStages(PostPipes(ps)[k].stages)
    decreases ps
  {
    var n := |PostStages(ps[0].stages)|;
    if k < n {
      MemberPipeDistinctInStages(ps[0].stages, k);
    } else if k > n {
      MemberPipeDistinct(ps[1..], k - n - 1);
    }
  }

  lemma {:induction false} MemberPipeDistinctInStages(ss: seq<Stage>, k: nat)
    requires DistinctStages(ss) && k < |PostStages(ss)|
    ensures DistinctStages(PostStages(ss)[k].stages)
    decreases ss
  {
    var n := |PostPipes(ss[0].inner)|;
    if k < n {
      MemberPipeDistinct(ss[0].inner, k);
    } else {
      MemberPipeDistinctInStages(ss[1..], k - n);
    }
  }
}
