/**
 * What the global stage graph keeps of the order inside a pipeline, at any depth of nesting. An edge
 * between two stages is stitched from and to one pipeline of each; the order is kept exactly when all
 * innermost stages of the first lead there, and all of the second are led to from there.
 */
module GlobalStageOrder {
  import opened Sequences
  import opened Digraph
  import opened StageTokens
  import opened GlobalStageDag

  // ---------------------------------------------------------------------------------------------
  // Both directions at once: `out` from a stage to those after it, otherwise to those before it
  // ---------------------------------------------------------------------------------------------

  ghost predicate Goes(g: Graph, out: bool, u: nat, v: nat) {
    if out then Edge(g, u, v) else Edge(g, v, u)
  }

  ghost predicate Path(g: Graph, out: bool, w: seq<nat>, u: nat, v: nat) {
    |w| > 0 && w[0] == u && w[|w| - 1] == v && forall i :: 0 <= i < |w| - 1 ==> Goes(g, out, w[i], w[i + 1])
  }

  ghost predicate Leads(g: Graph, out: bool, u: nat, v: nat) {
    exists w :: Path(g, out, w, u, v)
  }

  lemma LeadsSelf(g: Graph, out: bool, u: nat)
    ensures Leads(g, out, u, u)
  {
    assert Path(g, out, [u], u, u);
  }

  lemma LeadsOn(g: Graph, out: bool, u: nat, v: nat, w: nat)
    requires Leads(g, out, u, v) && Leads(g, out, v, w)
    ensures Leads(g, out, u, w)
  {
    var a :| Path(g, out, a, u, v);
    var b :| Path(g, out, b, v, w);
    var c := a + b[1..];
    forall i | 0 <= i < |c| - 1 ensures Goes(g, out, c[i], c[i + 1]) {
      if i >= |a| - 1 {
        assert Goes(g, out, b[i - |a| + 1], b[i - |a| + 2]);
      }
    }
    assert Path(g, out, c, u, w);
  }

  lemma LeadsStep(g: Graph, out: bool, u: nat, v: nat)
    requires Goes(g, out, u, v)
    ensures Leads(g, out, u, v)
  {
    assert Path(g, out, [u, v], u, v);
  }

  lemma {:induction false} PathReaches(g: Graph, out: bool, w: seq<nat>, u: nat, v: nat)
    requires Path(g, out, w, u, v)
    ensures u == v || (if out then Reaches(g, u, v) else Reaches(g, v, u))
    decreases |w|
  {
    if |w| > 1 {
      assert Goes(g, out, w[0], w[1]);
      PathReaches(g, out, w[1..], w[1], v);
      if out {
        ReachesEdge(g, u, w[1]);
        if w[1] != v {
          ReachesTransitive(g, u, w[1], v);
        }
      } else {
        ReachesEdge(g, w[1], u);
        if w[1] != v {
          ReachesTransitive(g, v, w[1], u);
        }
      }
    }
  }

  lemma {:induction false} WalkLeads(g: Graph, out: bool, w: seq<nat>)
    requires Walk(g, w)
    ensures if out then Leads(g, true, w[0], w[|w| - 1]) else Leads(g, false, w[|w| - 1], w[0])
    decreases |w|
  {
    if |w| == 1 {
      LeadsSelf(g, out, w[0]);
    } else {
      var last := |w| - 1;
      assert Edge(g, w[last - 1], w[last]);
      WalkLeads(g, out, w[..last]);
      if out {
        LeadsStep(g, true, w[last - 1], w[last]);
        LeadsOn(g, true, w[0], w[last - 1], w[last]);
      } else {
        LeadsStep(g, false, w[last], w[last - 1]);
        LeadsOn(g, false, w[last], w[last - 1], w[0]);
      }
    }
  }

  lemma ReachesLeads(g: Graph, out: bool, u: nat, v: nat)
    requires if out then Reaches(g, u, v) else Reaches(g, v, u)
    ensures Leads(g, out, u, v)
  {
    var w :| if out then WalkBetween(g, w, u, v) else WalkBetween(g, w, v, u);
    WalkLeads(g, out, w);
  }

  /** Nothing goes out of the set. */
  ghost predicate Sealed(g: Graph, out: bool, ids: set<nat>) {
    forall u, v :: Goes(g, out, u, v) && u in ids ==> v in ids
  }

  lemma {:induction false} PathStaysIn(g: Graph, out: bool, ids: set<nat>, w: seq<nat>, u: nat, v: nat)
    requires Sealed(g, out, ids) && u in ids && Path(g, out, w, u, v)
    ensures v in ids
    decreases |w|
  {
    if |w| > 1 {
      assert Goes(g, out, w[0], w[1]);
      PathStaysIn(g, out, ids, w[1..], w[1], v);
    }
  }

  // ---------------------------------------------------------------------------------------------
  // The stages that edges are stitched to
  // ---------------------------------------------------------------------------------------------

  /** Where the edges of a stage start, or end. */
  ghost function Ends(s: Stage, out: bool): seq<Stage> {
    if out then LeafStages(s) else RootStages(s)
  }

  /** `x` is an innermost stage of `s`, or `s` itself. */
  ghost predicate LeafOf(s: Stage, x: nat)
    decreases s
  {
    if s.inner == [] then x == s.id
    else exists k, t :: 0 <= k < |s.inner| && 0 <= t < |s.inner[k].stages| && LeafOf(s.inner[k].stages[t], x)
  }

  /** Every pipeline has stages. */
  ghost predicate Filled(ps: seq<Pipeline>)
    decreases ps
  {
    forall k :: 0 <= k < |ps| ==> ps[k].stages != [] && forall t :: 0 <= t < |ps[k].stages| ==> Filled(ps[k].stages[t].inner)
  }

  predicate Flat(ss: seq<Stage>) {
    forall t :: 0 <= t < |ss| ==> ss[t].inner == []
  }

  /** The first stage that holds a pipeline. */
  function Holder(ss: seq<Stage>): (t: nat)
    requires !Flat(ss)
    ensures t < |ss| && ss[t].inner != [] && Flat(ss[..t])
  {
    if ss[0].inner != [] then 0
    else
      var t := Holder(ss[1..]);
      assert ss[..t + 1] == [ss[0]] + ss[1..][..t];
      t + 1
  }

  lemma {:induction false} FlatHasNoNested(ss: seq<Stage>)
    requires Flat(ss)
    ensures FirstNestedIn(ss).None?
  {
    if ss != [] {
      FlatHasNoNested(ss[1..]);
    }
  }

  lemma {:induction false} HolderIsFirst(ss: seq<Stage>)
    requires !Flat(ss)
    ensures FirstNestedIn(ss) == FirstNested(ss[Holder(ss)])
  {
    if ss[0].inner == [] {
      HolderIsFirst(ss[1..]);
    }
  }

  /** The edges of a stage are those of the first stage in its first pipeline that holds pipelines itself. */
  lemma EndsAreOfHolder(s: Stage, out: bool)
    requires AcyclicStage(s) && s.inner != [] && !Flat(s.inner[0].stages)
    ensures Ends(s, out) == Ends(s.inner[0].stages[Holder(s.inner[0].stages)], out)
  {
    var holder := s.inner[0].stages[Holder(s.inner[0].stages)];
    HolderIsFirst(s.inner[0].stages);
    FirstNestedInside(s);
    SameEnds(s, holder, out);
  }

  lemma SameEnds(s: Stage, s': Stage, out: bool)
    requires FirstNested(s) == FirstNested(s') && FirstNested(s).Some? && !Cyclic(LocalGraph(FirstNested(s).value.stages))
    ensures Ends(s, out) == Ends(s', out)
  {
  }

  ghost function EndsAmong(all: seq<Stage>, n: nat, out: bool): seq<Stage>
    requires n <= |all|
  {
    if out then LeavesAmong(all, n) else RootsAmong(all, n)
  }

  lemma EndsOfFlat(s: Stage, out: bool)
    requires AcyclicStage(s) && s.inner != [] && Flat(s.inner[0].stages)
    ensures Ends(s, out) == EndsAmong(s.inner[0].stages, |s.inner[0].stages|, out)
  {
    FlatHasNoNested(s.inner[0].stages);
    FirstNestedInside(s);
  }

  /** Nothing in the pipeline comes after the stage, or before it. */
  ghost predicate Last(all: seq<Stage>, t: nat, out: bool)
    requires t < |all|
  {
    if out then Consumers(all, all, all[t].id) == [] else Suppliers(all, all[t].dependsIn) == []
  }

  lemma FlatEndsNext(all: seq<Stage>, n: nat, out: bool, x: nat)
    requires Flat(all) && n < |all|
    ensures Named(EndsAmong(all, n + 1, out), x) <==> Named(EndsAmong(all, n, out), x) || (Last(all, n, out) && x == all[n].id)
  {
    var own := if Last(all, n, out) then [all[n]] else [];
    assert LeafStages(all[n]) == [all[n]] && RootStages(all[n]) == [all[n]];
    assert EndsAmong(all, n + 1, out) == EndsAmong(all, n, out) + own by {
      if out {
        assert LeavesAmong(all, n + 1) == LeavesAmong(all, n) + own;
      } else {
        assert RootsAmong(all, n + 1) == RootsAmong(all, n) + own;
      }
    }
    NamedJoin(EndsAmong(all, n, out), own, x);
    assert Named(own, x) <==> Last(all, n, out) && x == all[n].id by {
      if Last(all, n, out) && x == all[n].id {
        assert own[0].id == x;
      }
    }
  }

  lemma NamedJoin(a: seq<Stage>, b: seq<Stage>, x: nat)
    ensures Named(a + b, x) <==> Named(a, x) || Named(b, x)
  {
    if Named(a, x) {
      var k :| 0 <= k < |a| && a[k].id == x;
      assert (a + b)[k].id == x;
    }
    if Named(b, x) {
      var k :| 0 <= k < |b| && b[k].id == x;
      assert (a + b)[|a| + k].id == x;
    }
  }

  /** In a pipeline without further nesting they are its last stages, or its first. */
  lemma {:induction false} FlatEnds(all: seq<Stage>, n: nat, out: bool, x: nat)
    requires Flat(all) && n <= |all|
    ensures Named(EndsAmong(all, n, out), x) <==> LastNamed(all, n, out, x)
  {
    if n > 0 {
      FlatEnds(all, n - 1, out, x);
      FlatEndsNext(all, n - 1, out, x);
      LastNamedNext(all, n - 1, out, x);
    }
  }

  ghost predicate LastNamed(all: seq<Stage>, n: nat, out: bool, x: nat)
    requires n <= |all|
  {
    exists t: nat :: t < n && Last(all, t, out) && all[t].id == x
  }

  lemma LastNamedNext(all: seq<Stage>, n: nat, out: bool, x: nat)
    requires n < |all|
    ensures LastNamed(all, n + 1, out, x) <==> LastNamed(all, n, out, x) || (Last(all, n, out) && x == all[n].id)
  {
  }

  lemma {:induction false} EndsAreLeaves(s: Stage, out: bool, x: nat)
    requires AcyclicStage(s) && Named(Ends(s, out), x)
    ensures LeafOf(s, x)
    decreases s
  {
    if s.inner != [] {
      var ss := s.inner[0].stages;
      if Flat(ss) {
        EndsOfFlat(s, out);
        FlatEnds(ss, |ss|, out, x);
        assert LastNamed(ss, |ss|, out, x);
        var t: nat :| t < |ss| && Last(ss, t, out) && ss[t].id == x;
        assert LeafOf(s.inner[0].stages[t], x);
      } else {
        EndsAreOfHolder(s, out);
        MemberIsAcyclic(ss, Holder(ss));
        EndsAreLeaves(ss[Holder(ss)], out, x);
        assert LeafOf(s.inner[0].stages[Holder(ss)], x);
      }
    }
  }

  lemma EndsInside(s: Stage, out: bool, x: nat)
    requires AcyclicStage(s) && Named(Ends(s, out), x)
    ensures x in StageIds(s)
  {
    LeavesAreInnermost(s);
    RootsAreInnermost(s);
  }

  /** With pipelines inside, they are in the first of these. */
  lemma EndsInFirst(s: Stage, out: bool, x: nat)
    requires AcyclicStage(s) && s.inner != [] && Named(Ends(s, out), x)
    ensures x in StagesIds(s.inner[0].stages)
    ensures !Flat(s.inner[0].stages) ==> x in StageIds(s.inner[0].stages[Holder(s.inner[0].stages)])
  {
    var ss := s.inner[0].stages;
    if Flat(ss) {
      EndsOfFlat(s, out);
      FlatEnds(ss, |ss|, out, x);
      assert LastNamed(ss, |ss|, out, x);
      var t: nat :| t < |ss| && Last(ss, t, out) && ss[t].id == x;
      MemberIds(ss, t);
    } else {
      EndsAreOfHolder(s, out);
      MemberIsAcyclic(ss, Holder(ss));
      EndsInside(ss[Holder(ss)], out, x);
      MemberIds(ss, Holder(ss));
    }
  }

  // ---------------------------------------------------------------------------------------------
  // Which pipelines are listed where
  // ---------------------------------------------------------------------------------------------

  /** Some pipeline of the nest contributes the edge. */
  ghost predicate StitchedIn(ps: seq<Pipeline>, out: bool, u: nat, v: nat) {
    exists p :: p in PostPipes(ps) && StitchedBy(p, out, u, v)
  }

  ghost predicate StitchedBy(p: Pipeline, out: bool, u: nat, v: nat) {
    if out then Stitched(p, u, v) else Stitched(p, v, u)
  }

  lemma {:induction false} ListedInStages(ss: seq<Stage>, p: Pipeline)
    ensures p in PostStages(ss) <==> exists i :: 0 <= i < |ss| && p in PostPipes(ss[i].inner)
  {
    if ss != [] {
      ListedInStages(ss[1..], p);
      if i :| 0 <= i < |ss[1..]| && p in PostPipes(ss[1..][i].inner) {
        assert p in PostPipes(ss[i + 1].inner);
      }
      if i :| 0 < i < |ss| && p in PostPipes(ss[i].inner) {
        assert p in PostPipes(ss[1..][i - 1].inner);
      }
    }
  }

  /** A listed pipeline is one of the given ones, or listed inside one. */
  lemma {:induction false} Listed(ps: seq<Pipeline>, p: Pipeline)
    ensures p in PostPipes(ps) <==> exists k :: 0 <= k < |ps| && (p == ps[k] || p in PostStages(ps[k].stages))
  {
    if ps != [] {
      Listed(ps[1..], p);
      if k :| 0 <= k < |ps[1..]| && (p == ps[1..][k] || p in PostStages(ps[1..][k].stages)) {
        assert ps[k + 1] == ps[1..][k];
      }
      if k :| 0 < k < |ps| && (p == ps[k] || p in PostStages(ps[k].stages)) {
        assert ps[k] == ps[1..][k - 1];
      }
    }
  }

  lemma Locate(ps: seq<Pipeline>, p: Pipeline) returns (k: nat, i: nat)
    requires p in PostPipes(ps)
    ensures k < |ps| && (p == ps[k] || (i < |ps[k].stages| && p in PostPipes(ps[k].stages[i].inner)))
  {
    i := 0;
    Listed(ps, p);
    k :| k < |ps| && (p == ps[k] || p in PostStages(ps[k].stages));
    if p != ps[k] {
      ListedInStages(ps[k].stages, p);
      i :| i < |ps[k].stages| && p in PostPipes(ps[k].stages[i].inner);
    }
  }

  lemma InnerIsListed(ps: seq<Pipeline>, k: nat, i: nat, p: Pipeline)
    requires k < |ps| && i < |ps[k].stages| && p in PostPipes(ps[k].stages[i].inner)
    ensures p in PostPipes(ps)
  {
    ListedInStages(ps[k].stages, p);
    Listed(ps, p);
  }

  lemma {:induction false} PipeIdsInside(ps: seq<Pipeline>, k: nat)
    requires k < |ps|
    ensures StagesIds(ps[k].stages) <= PipesIds(ps)
  {
    if k > 0 {
      PipeIdsInside(ps[1..], k - 1);
    }
  }

  lemma {:induction false} PipesApart(ps: seq<Pipeline>, k: nat, l: nat, x: nat)
    requires DistinctPipes(ps) && k < |ps| && l < |ps| && x in StagesIds(ps[k].stages) && x in StagesIds(ps[l].stages)
    ensures k == l
  {
    if k == 0 && l > 0 {
      PipeIdsInside(ps[1..], l - 1);
    } else if l == 0 && k > 0 {
      PipeIdsInside(ps[1..], k - 1);
    } else if k > 0 {
      PipesApart(ps[1..], k - 1, l - 1, x);
    }
  }

  lemma {:induction false} PipeIsDistinct(ps: seq<Pipeline>, k: nat)
    requires k < |ps|
    ensures DistinctPipes(ps) ==> DistinctStages(ps[k].stages)
    ensures AcyclicPipes(ps) ==> AcyclicStages(ps[k].stages) && !Cyclic(LocalGraph(ps[k].stages))
  {
    if k > 0 {
      PipeIsDistinct(ps[1..], k - 1);
    }
  }

  lemma {:induction false} ListedIsAcyclic(ps: seq<Pipeline>, p: Pipeline)
    requires AcyclicPipes(ps) && p in PostPipes(ps)
    ensures AcyclicStages(p.stages) && !Cyclic(LocalGraph(p.stages))
  {
    var k :| 0 <= k < |PostPipes(ps)| && PostPipes(ps)[k] == p;
    MemberPipeIsAcyclic(ps, k);
  }

  lemma {:induction false} ListedIdsInside(ps: seq<Pipeline>, p: Pipeline)
    requires p in PostPipes(ps)
    ensures StagesIds(p.stages) <= PipesIds(ps)
    decreases ps
  {
    var k, i := Locate(ps, p);
    PipeIdsInside(ps, k);
    if p != ps[k] {
      ListedIdsInside(ps[k].stages[i].inner, p);
      MemberIds(ps[k].stages, i);
    }
  }

  lemma StitchedInside(ps: seq<Pipeline>, p: Pipeline, out: bool, u: nat, v: nat)
    requires AcyclicPipes(ps) && p in PostPipes(ps) && StitchedBy(p, out, u, v)
    ensures u in PipesIds(ps) && v in PipesIds(ps)
  {
    ListedIsAcyclic(ps, p);
    ListedIdsInside(ps, p);
    OwnStitch(p, out, u, v);
  }

  lemma OwnStitch(p: Pipeline, out: bool, u: nat, v: nat)
    requires AcyclicStages(p.stages) && StitchedBy(p, out, u, v)
    ensures u in StagesIds(p.stages) && v in StagesIds(p.stages)
  {
    if out {
      StitchedIsSeparated(p, u, v);
      SeparatedInside(p, u, v);
    } else {
      StitchedIsSeparated(p, v, u);
      SeparatedInside(p, v, u);
    }
  }

  /** An edge at a number inside a stage comes from inside the stage, or from its pipeline. */
  lemma Origin(ps: seq<Pipeline>, k: nat, i: nat, out: bool, u: nat, v: nat)
    requires DistinctPipes(ps) && AcyclicPipes(ps) && k < |ps| && i < |ps[k].stages|
    requires StitchedIn(ps, out, u, v) && u in StageIds(ps[k].stages[i])
    ensures StitchedIn(ps[k].stages[i].inner, out, u, v) || StitchedBy(ps[k], out, u, v)
  {
    var p :| p in PostPipes(ps) && StitchedBy(p, out, u, v);
    var l, j := Locate(ps, p);
    MemberIds(ps[k].stages, i);
    PipeIsDistinct(ps, l);
    if p == ps[l] {
      OwnStitch(p, out, u, v);
      PipesApart(ps, k, l, u);
    } else {
      MemberIsAcyclic(ps[l].stages, j);
      StitchedInside(ps[l].stages[j].inner, p, out, u, v);
      MemberIds(ps[l].stages, j);
      PipesApart(ps, k, l, u);
      OwnerIsOnly(ps[k].stages, i, u);
      OwnerIsOnly(ps[k].stages, j, u);
    }
  }

  /** An edge of one pipeline joins two of its stages, at their ends. */
  lemma StitchEnds(p: Pipeline, out: bool, u: nat, v: nat) returns (i: nat, j: nat)
    requires StitchedBy(p, out, u, v) && AcyclicStages(p.stages) && !Cyclic(LocalGraph(p.stages))
    ensures i < |p.stages| && j < |p.stages| && i != j && Goes(LocalGraph(p.stages), out, p.stages[i].id, p.stages[j].id)
    ensures Named(Ends(p.stages[i], out), u) && Named(Ends(p.stages[j], !out), v)
    ensures u in StageIds(p.stages[i]) && v in StageIds(p.stages[j])
  {
    if out {
      i, j :| Before(p, i, j) && Named(LeafStages(p.stages[i]), u) && Named(RootStages(p.stages[j]), v);
    } else {
      j, i :| Before(p, j, i) && Named(LeafStages(p.stages[j]), v) && Named(RootStages(p.stages[i]), u);
    }
    MemberIsAcyclic(p.stages, i);
    MemberIsAcyclic(p.stages, j);
    EndsInside(p.stages[i], out, u);
    EndsInside(p.stages[j], !out, v);
    if i == j {
      assert IsCycle(LocalGraph(p.stages), [p.stages[i].id, p.stages[i].id]);
    }
  }

  // ---------------------------------------------------------------------------------------------
  // What a stage sees of the global graph
  // ---------------------------------------------------------------------------------------------

  /** The edges inside the nest are stitched there; those that go out of it start at the given stages. */
  ghost predicate Context(g: Graph, out: bool, ps: seq<Pipeline>, ends: seq<Stage>) {
    && DistinctPipes(ps) && AcyclicPipes(ps) && Filled(ps)
    && (forall u, v :: StitchedIn(ps, out, u, v) ==> Goes(g, out, u, v))
    && forall u, v :: Goes(g, out, u, v) && u in PipesIds(ps) ==> StitchedIn(ps, out, u, v) || (Named(ends, u) && v !in PipesIds(ps))
  }

  /** Of the given stages, those inside a stage of the nest are that stage's own ends. */
  ghost predicate Fit(ps: seq<Pipeline>, ends: seq<Stage>, out: bool) {
    forall k, i, u ::
      0 <= k < |ps| && 0 <= i < |ps[k].stages| && Named(ends, u) && u in StageIds(ps[k].stages[i]) ==> Named(Ends(ps[k].stages[i], out), u)
  }

  lemma EndsFit(s: Stage, out: bool)
    requires DistinctStage(s) && AcyclicStage(s)
    ensures Fit(s.inner, Ends(s, out), out)
  {
    forall k, i, u | 0 <= k < |s.inner| && 0 <= i < |s.inner[k].stages| && Named(Ends(s, out), u) && u in StageIds(s.inner[k].stages[i])
      ensures Named(Ends(s.inner[k].stages[i], out), u)
    {
      var ss := s.inner[0].stages;
      EndsInFirst(s, out, u);
      MemberIds(s.inner[k].stages, i);
      PipesApart(s.inner, 0, k, u);
      if Flat(ss) {
        assert Ends(ss[i], out)[0].id == u;
      } else {
        EndsAreOfHolder(s, out);
        PipeIsDistinct(s.inner, 0);
        OwnerIsOnly(ss, i, u);
        OwnerIsOnly(ss, Holder(ss), u);
      }
    }
  }

  lemma ContextInside(g: Graph, out: bool, ps: seq<Pipeline>, ends: seq<Stage>, k: nat, i: nat)
    requires Context(g, out, ps, ends) && Fit(ps, ends, out) && k < |ps| && i < |ps[k].stages|
    ensures var s := ps[k].stages[i]; DistinctStage(s) && AcyclicStage(s) && Context(g, out, s.inner, Ends(s, out))
  {
    var s := ps[k].stages[i];
    PipeIsDistinct(ps, k);
    MemberDistinct(ps[k].stages, i);
    MemberIsAcyclic(ps[k].stages, i);
    MemberIds(ps[k].stages, i);
    PipeIdsInside(ps, k);
    forall u, v | StitchedIn(s.inner, out, u, v) ensures Goes(g, out, u, v) {
      var p :| p in PostPipes(s.inner) && StitchedBy(p, out, u, v);
      InnerIsListed(ps, k, i, p);
      assert StitchedIn(ps, out, u, v);
    }
    forall u, v | Goes(g, out, u, v) && u in PipesIds(s.inner)
      ensures StitchedIn(s.inner, out, u, v) || (Named(Ends(s, out), u) && v !in PipesIds(s.inner))
    {
      if StitchedIn(ps, out, u, v) {
        Origin(ps, k, i, out, u, v);
        if StitchedBy(ps[k], out, u, v) {
          StitchLeaves(ps[k], i, out, u, v);
        }
      }
    }
  }

  lemma StitchLeaves(p: Pipeline, i: nat, out: bool, u: nat, v: nat)
    requires DistinctStages(p.stages) && AcyclicStages(p.stages) && !Cyclic(LocalGraph(p.stages))
    requires StitchedBy(p, out, u, v) && i < |p.stages| && u in StageIds(p.stages[i])
    ensures Named(Ends(p.stages[i], out), u) && v !in StageIds(p.stages[i])
  {
    var a, b := StitchEnds(p, out, u, v);
    OwnerIsOnly(p.stages, a, u);
    OwnerIsOnly(p.stages, i, u);
    OwnerIsOnly(p.stages, b, v);
    if v in StageIds(p.stages[i]) {
      OwnerIsOnly(p.stages, i, v);
    }
  }

  /** The stages of every pipeline of the nest, however deep. */
  lemma {:induction false} ContextAtAnyDepth(g: Graph, out: bool, ps: seq<Pipeline>, ends: seq<Stage>, p: Pipeline, i: nat)
    requires Context(g, out, ps, ends) && Fit(ps, ends, out) && p in PostPipes(ps) && i < |p.stages|
    ensures var s := p.stages[i]; DistinctStage(s) && AcyclicStage(s) && Context(g, out, s.inner, Ends(s, out))
    decreases ps
  {
    var k, j := Locate(ps, p);
    if p == ps[k] {
      ContextInside(g, out, ps, ends, k, i);
    } else {
      var s := ps[k].stages[j];
      ContextInside(g, out, ps, ends, k, j);
      EndsFit(s, out);
      ContextAtAnyDepth(g, out, s.inner, Ends(s, out), p, i);
    }
  }

  lemma GlobalContext(ps: seq<Pipeline>, g: Graph, out: bool)
    requires DistinctPipes(ps) && AcyclicPipes(ps) && Filled(ps) && IsGlobalGraph(ps, g)
    ensures Context(g, out, ps, []) && Fit(ps, [], out)
  {
    forall u, v ensures Goes(g, out, u, v) <==> StitchedIn(ps, out, u, v) {
      GlobalEdges(ps, g, out, u, v);
    }
  }

  lemma GlobalEdges(ps: seq<Pipeline>, g: Graph, out: bool, u: nat, v: nat)
    requires IsGlobalGraph(ps, g)
    ensures Goes(g, out, u, v) <==> StitchedIn(ps, out, u, v)
  {
    var a, b := if out then u else v, if out then v else u;
    if Edge(g, a, b) {
      var k :| 0 <= k < |PostPipes(ps)| && Stitched(PostPipes(ps)[k], a, b);
      assert StitchedBy(PostPipes(ps)[k], out, u, v);
    }
    if p :| p in PostPipes(ps) && StitchedBy(p, out, u, v) {
      var k :| 0 <= k < |PostPipes(ps)| && PostPipes(ps)[k] == p;
      assert Stitched(PostPipes(ps)[k], a, b);
    }
  }

  // ---------------------------------------------------------------------------------------------
  // The condition
  // ---------------------------------------------------------------------------------------------

  /**
   * All the innermost stages of `s` lead to where its edges start, or are led to from where they end:
   * nowhere are there two pipelines side by side, and in a pipeline with pipelines inside all stages
   * lead to the first stage that holds one.
   */
  ghost predicate Narrow(s: Stage, out: bool)
    decreases s
  {
    s.inner == [] || (
      && |s.inner| == 1
      && forall t :: 0 <= t < |s.inner[0].stages| ==> Narrow(s.inner[0].stages[t], out) && LeadsToHolder(s.inner[0].stages, t, out))
  }

  ghost predicate LeadsToHolder(ss: seq<Stage>, t: nat, out: bool)
    requires t < |ss|
  {
    Flat(ss) || Leads(LocalGraph(ss), out, ss[t].id, ss[Holder(ss)].id)
  }

  /** Whenever one stage of `p` directly precedes another, each innermost stage of the first precedes each of the second. */
  ghost predicate KeepsOrder(p: Pipeline, g: Graph) {
    forall i: nat, j: nat, x, y ::
      Before(p, i, j) && LeafOf(p.stages[i], x) && LeafOf(p.stages[j], y) ==> Reaches(g, x, y)
  }

  ghost predicate NarrowWhereOrdered(p: Pipeline) {
    forall i: nat, j: nat :: Before(p, i, j) ==> Narrow(p.stages[i], true) && Narrow(p.stages[j], false)
  }

  // ---------------------------------------------------------------------------------------------
  // Narrow stages keep the order
  // ---------------------------------------------------------------------------------------------

  /** In a pipeline of its own every stage leads to a last one. */
  lemma LeadsToLast(ss: seq<Stage>, out: bool, t: nat) returns (z: nat)
    requires DistinctStages(ss) && !Cyclic(LocalGraph(ss)) && t < |ss|
    ensures z < |ss| && Last(ss, z, out) && Leads(LocalGraph(ss), out, ss[t].id, ss[z].id)
  {
    var local := LocalGraph(ss);
    DistinctSiblingsOf(ss);
    LocalGraphClosed(ss);
    var order := AcyclicHasOrder(local);
    assert ss[t].id in local && local.Keys == Elems(order);
    var i :| 0 <= i < |order| && order[i] == ss[t].id;
    if out {
      var sink := ReachesSink(local, order, i);
      z :| 0 <= z < |ss| && ss[z].id == sink;
    } else {
      var source := ReachedFromSource(local, order, i);
      z :| 0 <= z < |ss| && ss[z].id == source;
      NoSuppliersNoEdge(ss, z);
    }
    ReachesLeads(local, out, ss[t].id, ss[z].id);
  }

  /** A path from stage to stage in a pipeline carries over to innermost stages. */
  lemma {:induction false} LeadsAlong(g: Graph, out: bool, p: Pipeline, w: seq<nat>, t: nat, z: nat, x: nat) returns (y: nat)
    requires DistinctStages(p.stages) && AcyclicStages(p.stages) && t < |p.stages| && z < |p.stages|
    requires forall u, v :: StitchedBy(p, out, u, v) ==> Goes(g, out, u, v)
    requires forall i, b :: 0 <= i < |p.stages| && LeafOf(p.stages[i], b) ==> LeadsToEnd(g, out, p.stages[i], b)
    requires forall i :: 0 <= i < |p.stages| ==> Ends(p.stages[i], !out) != []
    requires Path(LocalGraph(p.stages), out, w, p.stages[t].id, p.stages[z].id) && LeafOf(p.stages[t], x)
    ensures Named(Ends(p.stages[z], out), y) && Leads(g, out, x, y)
    decreases |w|
  {
    assert LeadsToEnd(g, out, p.stages[t], x);
    y :| Named(Ends(p.stages[t], out), y) && Leads(g, out, x, y);
    if |w| == 1 {
      DistinctSiblingsOf(p.stages);
    } else {
      assert Goes(LocalGraph(p.stages), out, w[0], w[1]);
      var n := StageAfter(p.stages, out, w[0], w[1]);
      var b := Ends(p.stages[n], !out)[0].id;
      MemberIsAcyclic(p.stages, n);
      assert Named(Ends(p.stages[n], !out), b);
      EndsAreLeaves(p.stages[n], !out, b);
      StitchStages(p, out, t, n, y, b);
      LeadsStep(g, out, y, b);
      LeadsOn(g, out, x, y, b);
      y := LeadsAlong(g, out, p, w[1..], n, z, b);
      LeadsOn(g, out, x, b, y);
    }
  }

  ghost predicate LeadsToEnd(g: Graph, out: bool, s: Stage, x: nat) {
    exists y :: Named(Ends(s, out), y) && Leads(g, out, x, y)
  }

  lemma StageAfter(ss: seq<Stage>, out: bool, u: nat, v: nat) returns (n: nat)
    requires Goes(LocalGraph(ss), out, u, v)
    ensures n < |ss| && ss[n].id == v
  {
    ConsumersAreListed(ss, ss, if out then u else v);
    assert v in IdsOf(ss);
    n :| n < |ss| && ss[n].id == v;
  }

  lemma StitchStages(p: Pipeline, out: bool, t: nat, n: nat, y: nat, b: nat)
    requires t < |p.stages| && n < |p.stages| && Goes(LocalGraph(p.stages), out, p.stages[t].id, p.stages[n].id)
    requires Named(Ends(p.stages[t], out), y) && Named(Ends(p.stages[n], !out), b)
    ensures StitchedBy(p, out, y, b)
  {
    if out {
      assert Before(p, t, n);
    } else {
      assert Before(p, n, t);
    }
  }

  lemma {:induction false} HasEnds(s: Stage, out: bool)
    requires DistinctStage(s) && AcyclicStage(s) && Filled(s.inner)
    ensures Ends(s, out) != []
    decreases s
  {
    if s.inner != [] {
      var ss := s.inner[0].stages;
      PipeIsDistinct(s.inner, 0);
      if Flat(ss) {
        EndsOfFlat(s, out);
        var z := LeadsToLast(ss, out, 0);
        FlatEnds(ss, |ss|, out, ss[z].id);
      } else {
        EndsAreOfHolder(s, out);
        MemberDistinct(ss, Holder(ss));
        MemberIsAcyclic(ss, Holder(ss));
        HasEnds(ss[Holder(ss)], out);
      }
    }
  }

  lemma {:induction false} NarrowLeads(g: Graph, out: bool, s: Stage, x: nat)
    requires DistinctStage(s) && AcyclicStage(s) && Context(g, out, s.inner, Ends(s, out))
    requires Narrow(s, out) && LeafOf(s, x)
    ensures LeadsToEnd(g, out, s, x)
    decreases s
  {
    if s.inner == [] {
      assert Ends(s, out)[0].id == x;
      LeadsSelf(g, out, x);
    } else {
      var p := s.inner[0];
      var ss := p.stages;
      var t :| 0 <= t < |ss| && LeafOf(ss[t], x);
      EndsFit(s, out);
      PipeIsDistinct(s.inner, 0);
      NarrowPipeLeads(g, out, s);
      var z := NarrowTarget(s, out, t);
      var w :| Path(LocalGraph(ss), out, w, ss[t].id, ss[z].id);
      var y := LeadsAlong(g, out, p, w, t, z, x);
      assert Named(Ends(s, out), y);
    }
  }

  /** In a narrow stage every stage of the pipeline leads to one with the same ends. */
  lemma NarrowTarget(s: Stage, out: bool, t: nat) returns (z: nat)
    requires DistinctStage(s) && AcyclicStage(s) && s.inner != [] && Narrow(s, out) && t < |s.inner[0].stages|
    ensures var ss := s.inner[0].stages;
      z < |ss| && Leads(LocalGraph(ss), out, ss[t].id, ss[z].id) && forall y :: Named(Ends(ss[z], out), y) ==> Named(Ends(s, out), y)
  {
    var ss := s.inner[0].stages;
    PipeIsDistinct(s.inner, 0);
    if Flat(ss) {
      z := LeadsToLast(ss, out, t);
      EndsOfFlat(s, out);
      FlatEnds(ss, |ss|, out, ss[z].id);
    } else {
      z := Holder(ss);
      assert LeadsToHolder(ss, t, out);
      EndsAreOfHolder(s, out);
    }
  }

  /** What `LeadsAlong` needs to know of the one pipeline in a narrow stage. */
  lemma {:induction false} NarrowPipeLeads(g: Graph, out: bool, s: Stage)
    requires DistinctStage(s) && AcyclicStage(s) && Context(g, out, s.inner, Ends(s, out)) && Fit(s.inner, Ends(s, out), out)
    requires s.inner != [] && Narrow(s, out)
    ensures var p := s.inner[0];
      && (forall u, v :: StitchedBy(p, out, u, v) ==> Goes(g, out, u, v))
      && (forall i, b :: 0 <= i < |p.stages| && LeafOf(p.stages[i], b) ==> LeadsToEnd(g, out, p.stages[i], b))
      && (forall i :: 0 <= i < |p.stages| ==> Ends(p.stages[i], !out) != [])
    decreases s, 0
  {
    var p := s.inner[0];
    Listed(s.inner, p);
    forall u, v | StitchedBy(p, out, u, v) ensures Goes(g, out, u, v) {
      assert StitchedIn(s.inner, out, u, v);
    }
    forall i, b | 0 <= i < |p.stages| && LeafOf(p.stages[i], b) ensures LeadsToEnd(g, out, p.stages[i], b) {
      ContextInside(g, out, s.inner, Ends(s, out), 0, i);
      NarrowLeads(g, out, p.stages[i], b);
    }
    forall i | 0 <= i < |p.stages| ensures Ends(p.stages[i], !out) != [] {
      ContextInside(g, out, s.inner, Ends(s, out), 0, i);
      HasEnds(p.stages[i], !out);
    }
  }

  lemma NarrowKeepsOrder(ps: seq<Pipeline>, g: Graph, p: Pipeline)
    requires DistinctPipes(ps) && AcyclicPipes(ps) && Filled(ps) && IsGlobalGraph(ps, g) && p in PostPipes(ps)
    requires NarrowWhereOrdered(p)
    ensures KeepsOrder(p, g)
  {
    forall i: nat, j: nat, x, y | Before(p, i, j) && LeafOf(p.stages[i], x) && LeafOf(p.stages[j], y)
      ensures Reaches(g, x, y)
    {
      GlobalContext(ps, g, true);
      GlobalContext(ps, g, false);
      ContextAtAnyDepth(g, true, ps, [], p, i);
      ContextAtAnyDepth(g, false, ps, [], p, j);
      NarrowLeads(g, true, p.stages[i], x);
      NarrowLeads(g, false, p.stages[j], y);
      var a :| Named(LeafStages(p.stages[i]), a) && Leads(g, true, x, a);
      var b :| Named(RootStages(p.stages[j]), b) && Leads(g, false, y, b);
      assert StitchedBy(p, true, a, b) && StitchedIn(ps, true, a, b);
      ReachesEdge(g, a, b);
      JoinEnds(g, x, a, b, y);
    }
  }

  lemma JoinEnds(g: Graph, x: nat, a: nat, b: nat, y: nat)
    requires Leads(g, true, x, a) && Reaches(g, a, b) && Leads(g, false, y, b)
    ensures Reaches(g, x, y)
  {
    var w :| Path(g, true, w, x, a);
    var w' :| Path(g, false, w', y, b);
    PathReaches(g, true, w, x, a);
    PathReaches(g, false, w', y, b);
    if x != a {
      ReachesTransitive(g, x, a, b);
    }
    if y != b {
      ReachesTransitive(g, x, b, y);
    }
  }

  // ---------------------------------------------------------------------------------------------
  // Others cut innermost stages off
  // ---------------------------------------------------------------------------------------------

  lemma {:induction false} HasLeaf(s: Stage) returns (x: nat)
    requires Filled(s.inner)
    ensures LeafOf(s, x) && x in StageIds(s)
    decreases s
  {
    if s.inner == [] {
      x := s.id;
    } else {
      x := HasLeaf(s.inner[0].stages[0]);
      LeafInside(s, 0, 0, x);
    }
  }

  lemma LeafInside(s: Stage, k: nat, t: nat, x: nat)
    requires k < |s.inner| && t < |s.inner[k].stages| && LeafOf(s.inner[k].stages[t], x) && x in StageIds(s.inner[k].stages[t])
    ensures LeafOf(s, x) && x in StagesIds(s.inner[k].stages) && x in StageIds(s)
  {
    MemberIds(s.inner[k].stages, t);
    PipeIdsInside(s.inner, k);
  }

  /** A pipeline beside the first is sealed. */
  lemma SecondIsSealed(g: Graph, out: bool, s: Stage)
    requires DistinctStage(s) && AcyclicStage(s) && Context(g, out, s.inner, Ends(s, out)) && |s.inner| > 1
    ensures Sealed(g, out, StagesIds(s.inner[1].stages))
  {
    var ps := s.inner;
    forall u, v | Goes(g, out, u, v) && u in StagesIds(ps[1].stages) ensures v in StagesIds(ps[1].stages) {
      PipeIdsInside(ps, 1);
      if StitchedIn(ps, out, u, v) {
        var i := Owner(ps[1].stages, u);
        Origin(ps, 1, i, out, u, v);
        PipeIsDistinct(ps, 1);
        if StitchedBy(ps[1], out, u, v) {
          OwnStitch(ps[1], out, u, v);
        } else {
          StitchStaysIn(ps[1].stages, i, out, u, v);
        }
      } else {
        EndsInFirst(s, out, u);
        PipesApart(ps, 0, 1, u);
      }
    }
  }

  lemma StitchStaysIn(ss: seq<Stage>, i: nat, out: bool, u: nat, v: nat)
    requires AcyclicStages(ss) && i < |ss| && StitchedIn(ss[i].inner, out, u, v)
    ensures u in StageIds(ss[i]) && v in StageIds(ss[i]) && v in StagesIds(ss)
  {
    MemberIsAcyclic(ss, i);
    MemberIds(ss, i);
    var p :| p in PostPipes(ss[i].inner) && StitchedBy(p, out, u, v);
    StitchedInside(ss[i].inner, p, out, u, v);
  }

  /** The numbers in the stages that stage `t` leads to. */
  ghost function LedTo(ss: seq<Stage>, out: bool, t: nat): set<nat>
    requires t < |ss|
  {
    set u | u in StagesIds(ss) && Leads(LocalGraph(ss), out, ss[t].id, ss[Owner(ss, u)].id)
  }

  lemma LedToIsSealed(g: Graph, out: bool, s: Stage, t: nat)
    requires DistinctStage(s) && AcyclicStage(s) && Context(g, out, s.inner, Ends(s, out))
    requires |s.inner| == 1 && t < |s.inner[0].stages| && !LeadsToHolder(s.inner[0].stages, t, out)
    ensures Sealed(g, out, LedTo(s.inner[0].stages, out, t))
  {
    var p := s.inner[0];
    var ss := p.stages;
    forall u, v | Goes(g, out, u, v) && u in LedTo(ss, out, t) ensures v in LedTo(ss, out, t) {
      PipeIdsInside(s.inner, 0);
      PipeIsDistinct(s.inner, 0);
      if StitchedIn(s.inner, out, u, v) {
        Origin(s.inner, 0, Owner(ss, u), out, u, v);
        LedToGoesOn(p, out, t, u, v);
      } else {
        EndsInFirst(s, out, u);
        OwnerIsOnly(ss, Holder(ss), u);
      }
    }
  }

  lemma LedToGoesOn(p: Pipeline, out: bool, t: nat, u: nat, v: nat)
    requires DistinctStages(p.stages) && AcyclicStages(p.stages) && !Cyclic(LocalGraph(p.stages))
    requires t < |p.stages| && u in LedTo(p.stages, out, t)
    requires StitchedIn(p.stages[Owner(p.stages, u)].inner, out, u, v) || StitchedBy(p, out, u, v)
    ensures v in LedTo(p.stages, out, t)
  {
    var ss, local := p.stages, LocalGraph(p.stages);
    if StitchedBy(p, out, u, v) {
      var i, j := StitchEnds(p, out, u, v);
      OwnerIsOnly(ss, i, u);
      OwnerIsOnly(ss, j, v);
      LeadsStep(local, out, ss[i].id, ss[j].id);
      LeadsOn(local, out, ss[t].id, ss[i].id, ss[j].id);
    } else {
      StitchStaysIn(ss, Owner(ss, u), out, u, v);
      OwnerIsOnly(ss, Owner(ss, u), v);
    }
  }

  /** A stage that is not narrow has an innermost stage that does not get out of it. */
  lemma {:induction false} CutOff(g: Graph, out: bool, s: Stage) returns (x: nat, ids: set<nat>)
    requires DistinctStage(s) && AcyclicStage(s) && Context(g, out, s.inner, Ends(s, out)) && !Narrow(s, out)
    ensures LeafOf(s, x) && x in ids && ids <= StageIds(s) && Sealed(g, out, ids)
    decreases s
  {
    if |s.inner| > 1 {
      x := HasLeaf(s.inner[1].stages[0]);
      LeafInside(s, 1, 0, x);
      ids := StagesIds(s.inner[1].stages);
      PipeIdsInside(s.inner, 1);
      SecondIsSealed(g, out, s);
    } else {
      var ss := s.inner[0].stages;
      PipeIdsInside(s.inner, 0);
      PipeIsDistinct(s.inner, 0);
      if t :| 0 <= t < |ss| && !Narrow(ss[t], out) {
        EndsFit(s, out);
        ContextInside(g, out, s.inner, Ends(s, out), 0, t);
        x, ids := CutOff(g, out, ss[t]);
        LeafInside(s, 0, t, x);
        MemberIds(ss, t);
      } else {
        var t :| 0 <= t < |ss| && !LeadsToHolder(ss, t, out);
        x := HasLeaf(ss[t]);
        LeafInside(s, 0, t, x);
        OwnerIsOnly(ss, t, x);
        LeadsSelf(LocalGraph(ss), out, ss[t].id);
        ids := LedTo(ss, out, t);
        LedToIsSealed(g, out, s, t);
      }
    }
  }

  /** Two stages of a pipeline in order, the number of one cut off in it: no path joins it to the other. */
  lemma NoPathAcross(g: Graph, out: bool, p: Pipeline, i: nat, j: nat, x: nat, ids: set<nat>, y: nat)
    requires DistinctStages(p.stages) && i < |p.stages| && j < |p.stages| && i != j
    requires x in ids && ids <= StageIds(p.stages[i]) && Sealed(g, out, ids) && y in StageIds(p.stages[j])
    ensures !Leads(g, out, x, y)
  {
    if Leads(g, out, x, y) {
      var w :| Path(g, out, w, x, y);
      PathStaysIn(g, out, ids, w, x, y);
      OwnerIsOnly(p.stages, i, y);
      OwnerIsOnly(p.stages, j, y);
    }
  }

  lemma {:induction false} ListedIsDistinct(ps: seq<Pipeline>, p: Pipeline)
    requires DistinctPipes(ps) && p in PostPipes(ps)
    ensures DistinctStages(p.stages)
    decreases ps
  {
    var k, i := Locate(ps, p);
    PipeIsDistinct(ps, k);
    if p != ps[k] {
      MemberDistinct(ps[k].stages, i);
      ListedIsDistinct(ps[k].stages[i].inner, p);
    }
  }

  lemma KeptOrderIsNarrow(ps: seq<Pipeline>, g: Graph, p: Pipeline)
    requires DistinctPipes(ps) && AcyclicPipes(ps) && Filled(ps) && IsGlobalGraph(ps, g) && p in PostPipes(ps)
    requires KeepsOrder(p, g)
    ensures NarrowWhereOrdered(p)
  {
    forall i: nat, j: nat | Before(p, i, j) ensures Narrow(p.stages[i], true) && Narrow(p.stages[j], false) {
      GlobalContext(ps, g, true);
      GlobalContext(ps, g, false);
      ContextAtAnyDepth(g, true, ps, [], p, i);
      ContextAtAnyDepth(g, false, ps, [], p, j);
      ListedIsAcyclic(ps, p);
      ListedIsDistinct(ps, p);
      NotBeforeItself(p, i);
      var x := HasLeaf(p.stages[i]);
      var y := HasLeaf(p.stages[j]);
      if !Narrow(p.stages[i], true) {
        var a, ids := CutOff(g, true, p.stages[i]);
        NoPathAcross(g, true, p, i, j, a, ids, y);
        assert Reaches(g, a, y);
        ReachesLeads(g, true, a, y);
      }
      if !Narrow(p.stages[j], false) {
        var b, ids := CutOff(g, false, p.stages[j]);
        NoPathAcross(g, false, p, j, i, b, ids, x);
        assert Reaches(g, x, b);
        ReachesLeads(g, false, b, x);
      }
    }
  }

  lemma NotBeforeItself(p: Pipeline, i: nat)
    requires !Cyclic(LocalGraph(p.stages))
    ensures !Before(p, i, i)
  {
    if Before(p, i, i) {
      var x := p.stages[i].id;
      assert IsCycle(LocalGraph(p.stages), [x, x]);
    }
  }

  /**
   * For every pipeline of a nest of any depth, the global graph keeps its order exactly when each stage
   * with a successor is narrow on the way out, and each with a predecessor on the way in.
   */
  lemma KeepsOrderIffNarrow(ps: seq<Pipeline>, g: Graph, p: Pipeline)
    requires DistinctPipes(ps) && AcyclicPipes(ps) && Filled(ps) && IsGlobalGraph(ps, g) && p in PostPipes(ps)
    ensures KeepsOrder(p, g) <==> NarrowWhereOrdered(p)
  {
    if NarrowWhereOrdered(p) {
      NarrowKeepsOrder(ps, g, p);
    }
    if KeepsOrder(p, g) {
      KeptOrderIsNarrow(ps, g, p);
    }
  }

  // ---------------------------------------------------------------------------------------------
  // One level deep
  // ---------------------------------------------------------------------------------------------

  /** The pipelines inside the stages of `p` hold no others. */
  ghost predicate OneLevel(p: Pipeline) {
    forall i, k :: 0 <= i < |p.stages| && 0 <= k < |p.stages[i].inner| ==> Flat(p.stages[i].inner[k].stages)
  }

  /** No stage with a neighbour holds more than one pipeline. */
  ghost predicate SinglyNested(p: Pipeline) {
    forall i: nat, j: nat :: Before(p, i, j) ==> |p.stages[i].inner| <= 1 && |p.stages[j].inner| <= 1
  }

  lemma NarrowIffSingle(s: Stage, out: bool)
    requires s.inner != [] ==> Flat(s.inner[0].stages)
    ensures Narrow(s, out) <==> |s.inner| <= 1
  {
  }

  lemma KeepsOrderIffSinglyNested(p: Pipeline, g: Graph)
    requires DistinctPipes([p]) && AcyclicPipes([p]) && Filled([p]) && IsGlobalGraph([p], g) && OneLevel(p)
    ensures KeepsOrder(p, g) <==> SinglyNested(p)
  {
    Listed([p], p);
    assert [p][0] == p;
    KeepsOrderIffNarrow([p], g, p);
    forall i: nat, j: nat | Before(p, i, j)
      ensures Narrow(p.stages[i], true) && Narrow(p.stages[j], false) <==> |p.stages[i].inner| <= 1 && |p.stages[j].inner| <= 1
    {
      NarrowIffSingle(p.stages[i], true);
      NarrowIffSingle(p.stages[j], false);
    }
  }

  // ---------------------------------------------------------------------------------------------
  // Two levels deep: the innermost pipeline hides its neighbours
  // ---------------------------------------------------------------------------------------------

  const InnermostPipe := Pipeline([Stage(3, [], [], [])])
  const MiddlePipe := Pipeline([Stage(2, [], [], [InnermostPipe]), Stage(4, [], [], [])])
  const DeepPipe := Pipeline([Stage(0, [], [9], []), Stage(1, [9], [], [MiddlePipe])])

  lemma {:induction false} SilentConsumers(all: seq<Stage>, listed: seq<Stage>, u: nat)
    requires forall k :: 0 <= k < |listed| ==> listed[k].dependsIn == []
    ensures Consumers(all, listed, u) == []
  {
    if listed != [] {
      SilentConsumers(all, listed[..|listed| - 1], u);
    }
  }

  lemma SilentIsAcyclic(ss: seq<Stage>)
    requires forall k :: 0 <= k < |ss| ==> ss[k].dependsIn == []
    ensures !Cyclic(LocalGraph(ss)) && forall u, v :: !Edge(LocalGraph(ss), u, v)
  {
    forall u, v ensures !Edge(LocalGraph(ss), u, v) {
      SilentConsumers(ss, ss, u);
    }
    RankedIsAcyclic(LocalGraph(ss), map[]);
  }

  lemma DeepConsumers(u: nat)
    ensures Consumers(DeepPipe.stages, DeepPipe.stages, u) == if u == 0 then [1] else []
  {
    var ss := DeepPipe.stages;
    assert Producer(ss[..1], 9) == Some(0);
    assert Producer(ss, 9) == Some(0);
    assert Deliveries(ss, [9][..0], u, 1) == [];
    assert Deliveries(ss, [9], u, 1) == if u == 0 then [] + [1] else [];
    assert Consumers(ss, ss[..1], u) == [] by {
      SilentConsumers(ss, ss[..1], u);
    }
    assert Consumers(ss, ss, u) == Consumers(ss, ss[..1], u) + Deliveries(ss, [9], u, 1);
  }

  lemma DeepEdges(u: nat, v: nat)
    ensures Edge(LocalGraph(DeepPipe.stages), u, v) <==> u == 0 && v == 1
  {
    DeepConsumers(u);
    assert DeepPipe.stages[0].id in IdsOf(DeepPipe.stages);
  }

  /** `DeepPipe` is a nest for which the global graph is built. */
  lemma DeepPipeIsBuilt()
    ensures DistinctPipes([DeepPipe]) && AcyclicPipes([DeepPipe]) && Filled([DeepPipe])
  {
    DeepIsDistinct();
    DeepIsAcyclic();
    assert Filled([InnermostPipe]);
    assert Filled([MiddlePipe]);
  }

  lemma DeepIsDistinct()
    ensures DistinctPipes([DeepPipe])
  {
    var s3, s4 := InnermostPipe.stages[0], MiddlePipe.stages[1];
    assert StagesIds(InnermostPipe.stages) == {3} && PipesIds([InnermostPipe]) == {3};
    assert MiddlePipe.stages[1..] == [s4] && StagesIds([s4]) == {4};
    assert StagesIds(MiddlePipe.stages) == {2, 3, 4} && PipesIds([MiddlePipe]) == {2, 3, 4};
    assert DeepPipe.stages[1..] == [DeepPipe.stages[1]] && StagesIds([DeepPipe.stages[1]]) == {1, 2, 3, 4};
    assert DistinctStages([s3]) && DistinctPipes([InnermostPipe]);
    assert DistinctStages([s4]) && DistinctStages(MiddlePipe.stages) && DistinctPipes([MiddlePipe]);
    assert StageIds(DeepPipe.stages[0]) == {0} && DistinctStage(DeepPipe.stages[0]);
    assert DistinctStages([DeepPipe.stages[1]]) && DistinctStages(DeepPipe.stages);
  }

  lemma DeepIsAcyclic()
    ensures AcyclicPipes([DeepPipe])
  {
    SilentIsAcyclic(InnermostPipe.stages);
    SilentIsAcyclic(MiddlePipe.stages);
    forall u, v | Edge(LocalGraph(DeepPipe.stages), u, v) ensures u == 0 && v == 1 {
      DeepEdges(u, v);
    }
    RankedIsAcyclic(LocalGraph(DeepPipe.stages), map[0 := 0, 1 := 1]);
    assert AcyclicStages(InnermostPipe.stages) && AcyclicPipes([InnermostPipe]);
    assert MiddlePipe.stages[1..][1..] == [] && AcyclicStages(MiddlePipe.stages[1..]);
    assert AcyclicStages(MiddlePipe.stages) && AcyclicPipes([MiddlePipe]);
    assert DeepPipe.stages[1..][1..] == [] && AcyclicStages(DeepPipe.stages[1..]) && AcyclicStages(DeepPipe.stages);
  }

  /** Stage 4 is not led to from stage 2, which holds the innermost pipeline. */
  lemma DeepIsNotNarrow()
    ensures !Narrow(DeepPipe.stages[1], false)
  {
    var ss := MiddlePipe.stages;
    SilentIsAcyclic(ss);
    assert ss[0].inner != [];
    assert !Flat(ss) && Holder(ss) == 0;
    if Leads(LocalGraph(ss), false, ss[1].id, ss[0].id) {
      var w :| Path(LocalGraph(ss), false, w, ss[1].id, ss[0].id);
      PathStaysIn(LocalGraph(ss), false, {ss[1].id}, w, ss[1].id, ss[0].id);
    }
    assert !LeadsToHolder(ss, 1, false);
    assert DeepPipe.stages[1].inner[0].stages == ss;
  }

  /** In `DeepPipe` stage 0 precedes stage 1, but not all that is inside stage 1. */
  lemma DeepNestingLosesOrder(g: Graph)
    requires IsGlobalGraph([DeepPipe], g)
    ensures Before(DeepPipe, 0, 1) && !KeepsOrder(DeepPipe, g)
  {
    DeepPipeIsBuilt();
    DeepEdges(0, 1);
    DeepIsNotNarrow();
    Listed([DeepPipe], DeepPipe);
    assert [DeepPipe][0] == DeepPipe;
    KeepsOrderIffNarrow([DeepPipe], g, DeepPipe);
    assert Before(DeepPipe, 0, 1);
  }
}
