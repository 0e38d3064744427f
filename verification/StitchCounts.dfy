/**
 * How often stages are joined in the graph over a nest of pipelines: roots and leaves are listed once, and
 * without nesting an edge is there once for each token.
 */
module StitchCounts {
  import opened Sequences
  import opened Digraph
  import opened StageTokens
  import opened GlobalStageDag

  lemma {:induction false} TimesJoin(a: seq<Stage>, b: seq<Stage>, n: nat, x: nat)
    requires n <= |b|
    ensures TimesIn(a + b, |a| + n, x) == Times(a, x) + TimesIn(b, n, x)
  {
    if n > 0 {
      TimesJoin(a, b, n - 1, x);
    } else {
      TimesPrefix(a, b, |a|, x);
    }
  }

  lemma {:induction false} TimesPrefix(a: seq<Stage>, b: seq<Stage>, n: nat, x: nat)
    requires n <= |a|
    ensures TimesIn(a + b, n, x) == TimesIn(a, n, x)
  {
    if n > 0 {
      TimesPrefix(a, b, n - 1, x);
    }
  }

  /** No stage is listed twice among the roots, and none from elsewhere. */
  lemma {:induction false} RootsOnce(s: Stage, x: nat)
    requires DistinctStage(s)
    ensures Times(RootStages(s), x) <= if x in StageIds(s) then 1 else 0
    decreases StageSize(s), 1, 0
  {
    if FirstNested(s).None? || Cyclic(LocalGraph(FirstNested(s).value.stages)) {
      OneStageTimes(s, x);
    } else {
      var p := FirstNested(s).value;
      FirstNestedDistinct(s);
      FirstNestedIds(s);
      assert p.stages[..|p.stages|] == p.stages;
      RootsAmongOnce(p.stages, |p.stages|, x);
    }
  }

  lemma OneStageTimes(s: Stage, x: nat)
    ensures Times([s], x) == if s.id == x then 1 else 0
  {
    assert TimesIn([s], 1, x) == TimesIn([s], 0, x) + if [s][0].id == x then 1 else 0;
  }

  lemma {:induction false} RootsAmongOnce(all: seq<Stage>, n: nat, x: nat)
    requires DistinctStages(all) && n <= |all|
    ensures Times(RootsAmong(all, n), x) <= if Amidst(all, n, x) then 1 else 0
    decreases StagesSize(all), 2, n
  {
    if n > 0 {
      MemberSize(all, n - 1);
      MemberDistinct(all, n - 1);
      RootsOnce(all[n - 1], x);
      RootsAmongOnce(all, n - 1, x);
      AmidstNext(all, n - 1, x);
      if Suppliers(all, all[n - 1].dependsIn) == [] {
        TimesJoin(RootsAmong(all, n - 1), RootStages(all[n - 1]), |RootStages(all[n - 1])|, x);
      } else {
        assert RootsAmong(all, n) == RootsAmong(all, n - 1);
      }
    }
  }

  /** No stage is listed twice among the leaves, and none from elsewhere. */
  lemma {:induction false} LeavesOnce(s: Stage, x: nat)
    requires DistinctStage(s)
    ensures Times(LeafStages(s), x) <= if x in StageIds(s) then 1 else 0
    decreases StageSize(s), 1, 0
  {
    if FirstNested(s).None? || Cyclic(LocalGraph(FirstNested(s).value.stages)) {
      OneStageTimes(s, x);
    } else {
      var p := FirstNested(s).value;
      FirstNestedDistinct(s);
      FirstNestedIds(s);
      assert p.stages[..|p.stages|] == p.stages;
      LeavesAmongOnce(p.stages, |p.stages|, x);
    }
  }

  lemma {:induction false} LeavesAmongOnce(all: seq<Stage>, n: nat, x: nat)
    requires DistinctStages(all) && n <= |all|
    ensures Times(LeavesAmong(all, n), x) <= if Amidst(all, n, x) then 1 else 0
    decreases StagesSize(all), 2, n
  {
    if n > 0 {
      MemberSize(all, n - 1);
      MemberDistinct(all, n - 1);
      LeavesOnce(all[n - 1], x);
      LeavesAmongOnce(all, n - 1, x);
      AmidstNext(all, n - 1, x);
      if Consumers(all, all, all[n - 1].id) == [] {
        TimesJoin(LeavesAmong(all, n - 1), LeafStages(all[n - 1]), |LeafStages(all[n - 1])|, x);
      } else {
        assert LeavesAmong(all, n) == LeavesAmong(all, n - 1);
      }
    }
  }

  /** `x` is one of the first `n` stages or nested in one of them. */
  ghost predicate Amidst(all: seq<Stage>, n: nat, x: nat)
    requires n <= |all|
  {
    x in StagesIds(all[..n])
  }

  lemma AmidstNext(all: seq<Stage>, n: nat, x: nat)
    requires DistinctStages(all) && n < |all|
    ensures Amidst(all, n + 1, x) <==> Amidst(all, n, x) || x in StageIds(all[n])
    ensures !(Amidst(all, n, x) && x in StageIds(all[n]))
    ensures Amidst(all, |all|, x) <==> x in StagesIds(all)
  {
    IdsUpTo(all, n);
    assert all[..|all|] == all;
  }

  lemma {:induction false} IdsUpTo(all: seq<Stage>, n: nat)
    requires DistinctStages(all) && n < |all|
    ensures StagesIds(all[..n + 1]) == StagesIds(all[..n]) + StageIds(all[n]) && StagesIds(all[..n]) !! StageIds(all[n])
    ensures StagesIds(all[..n]) <= StagesIds(all)
  {
    if n > 0 {
      IdsUpTo(all[1..], n - 1);
      MemberIds(all[1..], n - 1);
      assert all[..n + 1][1..] == all[1..][..n] && all[..n][1..] == all[1..][..n - 1];
    } else {
      assert all[..1][1..] == [] && all[..0] == [];
    }
  }

  lemma {:induction false} FirstNestedIds(s: Stage)
    requires FirstNested(s).Some?
    ensures StagesIds(FirstNested(s).value.stages) <= StageIds(s)
    decreases s
  {
    if FirstNestedIn(s.inner[0].stages).Some? {
      FirstNestedIdsIn(s.inner[0].stages);
    }
  }

  lemma {:induction false} FirstNestedIdsIn(ss: seq<Stage>)
    requires FirstNestedIn(ss).Some?
    ensures StagesIds(FirstNestedIn(ss).value.stages) <= StagesIds(ss)
    decreases ss
  {
    if FirstNested(ss[0]).Some? {
      FirstNestedIds(ss[0]);
    } else {
      FirstNestedIdsIn(ss[1..]);
    }
  }

  /** In a flat pipeline an edge is there once for each token. */
  lemma FlatCounts(p: Pipeline, i: nat, j: nat)
    requires DistinctSiblings(p.stages) && (forall l :: 0 <= l < |p.stages| ==> p.stages[l].inner == [])
    requires i < |p.stages| && j < |p.stages|
    ensures AllStitches([p], p.stages[i].id, p.stages[j].id) == multiset(ConsumersOf(p, i))[p.stages[j].id]
  {
    var x, y := p.stages[i].id, p.stages[j].id;
    FlatBelow(p, |p.stages|, i, j);
    FlatInner(p.stages, x, y);
    assert [p][1..] == [];
    var c := ConsumersOf(p, i);
    assert c[..|c|] == c;
  }

  lemma {:induction false} FlatInner(ss: seq<Stage>, x: nat, y: nat)
    requires forall l :: 0 <= l < |ss| ==> ss[l].inner == []
    ensures InnerStitches(ss, x, y) == 0
  {
    if ss != [] {
      FlatInner(ss[1..], x, y);
    }
  }

  lemma {:induction false} FlatBelow(p: Pipeline, n: nat, i: nat, j: nat)
    requires DistinctSiblings(p.stages) && (forall l :: 0 <= l < |p.stages| ==> p.stages[l].inner == [])
    requires i < |p.stages| && j < |p.stages| && n <= |p.stages|
    ensures StitchesBelow(p, n, p.stages[i].id, p.stages[j].id)
      == if i < n then multiset(ConsumersOf(p, i)[..|ConsumersOf(p, i)|])[p.stages[j].id] else 0
  {
    if n > 0 {
      var x, y := p.stages[i].id, p.stages[j].id;
      FlatBelow(p, n - 1, i, j);
      FlatFor(p, n - 1, |ConsumersOf(p, n - 1)|, i, j);
      assert StitchesBelow(p, n, x, y) == StitchesBelow(p, n - 1, x, y) + StitchesFor(p, n - 1, |ConsumersOf(p, n - 1)|, x, y);
    }
  }

  lemma {:induction false} FlatFor(p: Pipeline, l: nat, n: nat, i: nat, j: nat)
    requires DistinctSiblings(p.stages) && (forall l :: 0 <= l < |p.stages| ==> p.stages[l].inner == [])
    requires i < |p.stages| && j < |p.stages| && l < |p.stages| && n <= |ConsumersOf(p, l)|
    ensures StitchesFor(p, l, n, p.stages[i].id, p.stages[j].id)
      == if l == i then multiset(ConsumersOf(p, l)[..n])[p.stages[j].id] else 0
  {
    if n > 0 {
      var c := ConsumersOf(p, l);
      FlatFor(p, l, n - 1, i, j);
      FlatTimes(p.stages[l], p.stages[i].id);
      FlatTimes(p.stages[ConsumerAt(p, l, n - 1)], p.stages[j].id);
      assert c[..n] == c[..n - 1] + [c[n - 1]];
    }
  }

  lemma FlatTimes(s: Stage, x: nat)
    requires s.inner == []
    ensures Times(LeafStages(s), x) == Times(RootStages(s), x) == if s.id == x then 1 else 0
  {
    assert TimesIn([s], 1, x) == TimesIn([s], 0, x) + if [s][0].id == x then 1 else 0;
  }
}
