/**
 * Stages of a pipeline running iterations concurrently over a doubled buffer. A stage runs its
 * iterations in order, waits for its tokens, and starts iteration k + 2 only when all stages have
 * finished k. Nothing else orders the stages.
 */
module BufferProtocol {
  import opened Sequences
  import opened Digraph
  import opened DoubleBuffering

  /** What a copy of the buffer holds: nothing, part of what is being written in an iteration, or all of it. */
  datatype Content = Empty | Partial(iteration: nat) | Full(iteration: nat)

  /** How many iterations every stage has started and finished, and the two copies of the buffer. */
  datatype State = State(started: seq<nat>, finished: seq<nat>, copies: map<nat, Content>)

  ghost predicate Shaped(stages: seq<Stage>, s: State) {
    |s.started| == |stages| && |s.finished| == |stages| && s.copies.Keys == {0, 1}
  }

  ghost predicate Init(stages: seq<Stage>, s: State) {
    && Shaped(stages, s) && s.copies == map[0 := Empty, 1 := Empty]
    && forall x :: 0 <= x < |stages| ==> s.started[x] == 0 && s.finished[x] == 0
  }

  /** The copy that iteration `k` uses. */
  function Copy(k: nat): nat {
    k % 2
  }

  /** Stage `x` may start its next iteration. */
  ghost predicate MayStart(stages: seq<Stage>, s: State, x: nat)
    requires Shaped(stages, s)
  {
    && x < |stages| && s.started[x] == s.finished[x]
    && (forall y: nat {:trigger WaitsFor(stages, x, y)} :: y < |stages| && WaitsFor(stages, x, y) ==> s.finished[y] > s.started[x])
    && forall y :: 0 <= y < |stages| ==> s.started[x] < s.finished[y] + 2
  }

  ghost predicate Starts(stages: seq<Stage>, buffer: nat, s: State, s': State, x: nat)
    requires Shaped(stages, s)
  {
    && MayStart(stages, s, x)
    && s' == State(s.started[x := s.started[x] + 1], s.finished,
      if Writes(stages[x], buffer) then s.copies[Copy(s.started[x]) := Partial(s.started[x])] else s.copies)
  }

  ghost predicate Finishes(stages: seq<Stage>, buffer: nat, s: State, s': State, x: nat)
    requires Shaped(stages, s)
  {
    && x < |stages| && s.finished[x] < s.started[x]
    && s' == State(s.started, s.finished[x := s.finished[x] + 1],
      if Writes(stages[x], buffer) then s.copies[Copy(s.finished[x]) := Full(s.finished[x])] else s.copies)
  }

  /** One stage starts or finishes an iteration. */
  ghost predicate Step(stages: seq<Stage>, buffer: nat, s: State, s': State, x: nat)
    requires Shaped(stages, s)
  {
    Starts(stages, buffer, s, s', x) || Finishes(stages, buffer, s, s', x)
  }

  /** An interleaving: `who` steps at each moment. */
  ghost predicate Run(stages: seq<Stage>, buffer: nat, run: seq<State>, who: seq<nat>) {
    && |run| == |who| + 1 && (forall i :: 0 <= i < |run| ==> Shaped(stages, run[i]))
    && Init(stages, run[0])
    && forall i :: 0 <= i < |who| ==> Step(stages, buffer, run[i], run[i + 1], who[i])
  }

  /** Stage `x` is inside iteration `k`. */
  ghost predicate Inside(stages: seq<Stage>, s: State, x: nat, k: nat)
    requires Shaped(stages, s)
  {
    x < |stages| && s.started[x] == k + 1 && s.finished[x] == k
  }

  // ---------------------------------------------------------------------------------------------
  // What every step keeps
  // ---------------------------------------------------------------------------------------------

  /** Nobody is ahead of its tokens, nor two iterations ahead of anybody. */
  ghost predicate InStep(stages: seq<Stage>, s: State)
    requires Shaped(stages, s)
  {
    && (forall x :: 0 <= x < |stages| ==> s.finished[x] <= s.started[x] <= s.finished[x] + 1)
    && (forall x: nat, y: nat {:trigger WaitsFor(stages, x, y)} ::
      x < |stages| && y < |stages| && WaitsFor(stages, x, y) ==> s.started[x] <= s.finished[y])
    && forall x, y :: 0 <= x < |stages| && 0 <= y < |stages| ==> s.started[x] <= s.finished[y] + 2
  }

  lemma StepKeepsInStep(stages: seq<Stage>, buffer: nat, s: State, s': State, x: nat)
    requires Shaped(stages, s) && Shaped(stages, s') && InStep(stages, s) && Step(stages, buffer, s, s', x)
    ensures InStep(stages, s')
  {
  }

  /** What the copies hold when the only writer `p` has started `n` and finished `f` iterations. */
  ghost predicate Holds(copies: map<nat, Content>, n: nat, f: nat)
    requires copies.Keys == {0, 1}
  {
    && (n > f ==> copies[Copy(f)] == Partial(f))
    && (f > 0 ==> copies[Copy(f - 1)] == Full(f - 1))
    && (f > 1 && n == f ==> copies[Copy(f - 2)] == Full(f - 2))
  }

  ghost predicate SoleWriter(stages: seq<Stage>, buffer: nat, p: nat) {
    p < |stages| && forall k :: 0 <= k < |stages| ==> (Writes(stages[k], buffer) <==> k == p)
  }

  lemma StepKeepsHolds(stages: seq<Stage>, buffer: nat, p: nat, s: State, s': State, x: nat)
    requires SoleWriter(stages, buffer, p) && Shaped(stages, s) && Shaped(stages, s') && InStep(stages, s)
    requires Holds(s.copies, s.started[p], s.finished[p]) && Step(stages, buffer, s, s', x)
    ensures Holds(s'.copies, s'.started[p], s'.finished[p])
  {
  }

  lemma {:induction false} RunKeeps(stages: seq<Stage>, buffer: nat, p: nat, run: seq<State>, who: seq<nat>, i: nat)
    requires SoleWriter(stages, buffer, p) && Run(stages, buffer, run, who) && i < |run|
    ensures InStep(stages, run[i]) && Holds(run[i].copies, run[i].started[p], run[i].finished[p])
  {
    if i > 0 {
      RunKeeps(stages, buffer, p, run, who, i - 1);
      assert Step(stages, buffer, run[i - 1], run[i], who[i - 1]);
      StepKeepsInStep(stages, buffer, run[i - 1], run[i], who[i - 1]);
      StepKeepsHolds(stages, buffer, p, run[i - 1], run[i], who[i - 1]);
    }
  }

  /** A stage has started no more iterations than a stage before it in the token order has finished. */
  lemma {:induction false} BehindItsPredecessor(stages: seq<Stage>, s: State, p: seq<nat>, j: nat)
    requires Shaped(stages, s) && InStep(stages, s) && Walk(TokenGraph(stages), p) && 0 < j < |p|
    ensures p[0] < |stages| && p[j] < |stages| && s.started[p[j]] <= s.finished[p[0]]
  {
    assert Edge(TokenGraph(stages), p[j - 1], p[j]);
    assert WaitsFor(stages, p[j], p[j - 1]);
    if j > 1 {
      BehindItsPredecessor(stages, s, p, j - 1);
    }
  }

  /** In every interleaving a stage behind the only writer sees its own iteration, and it is not being overwritten. */
  lemma BehindTheWriter(stages: seq<Stage>, buffer: nat, p: nat, run: seq<State>, who: seq<nat>, i: nat, x: nat, k: nat)
    requires SoleWriter(stages, buffer, p) && Run(stages, buffer, run, who) && i < |run|
    requires x != p && Reaches(TokenGraph(stages), p, x) && Inside(stages, run[i], x, k)
    ensures run[i].copies[Copy(k)] == Full(k)
    ensures forall m: nat, y: nat :: Inside(stages, run[i], y, m) && Writes(stages[y], buffer) ==> Copy(m) != Copy(k)
  {
    var s := run[i];
    RunKeeps(stages, buffer, p, run, who, i);
    var walk :| WalkBetween(TokenGraph(stages), walk, p, x);
    assert |walk| > 1;
    BehindItsPredecessor(stages, s, walk, |walk| - 1);
    assert s.started[p] <= s.finished[x] + 2;
  }

  /**
   * For a buffer that passed the checks: while a reader is inside iteration k the copy it reads holds all
   * that the writer wrote in iteration k, and nobody is writing that copy.
   */
  lemma ReadersSeeTheirIteration(stages: seq<Stage>, buffer: nat, c: Candidate, run: seq<State>, who: seq<nat>, i: nat, x: nat, k: nat)
    requires Eligible(stages, buffer, c) && Run(stages, buffer, run, who) && i < |run|
    requires x < |stages| && Reads(stages[x], buffer) && Inside(stages, run[i], x, k)
    ensures run[i].copies[Copy(k)] == Full(k)
    ensures forall m: nat, y: nat :: Inside(stages, run[i], y, m) && Writes(stages[y], buffer) ==> Copy(m) != Copy(k)
  {
    assert x in c.consumers;
    BehindTheWriter(stages, buffer, c.producer, run, who, i, x, k);
  }

  // ---------------------------------------------------------------------------------------------
  // A reader that no token puts behind the writer
  // ---------------------------------------------------------------------------------------------

  lemma RunOn(stages: seq<Stage>, buffer: nat, run: seq<State>, who: seq<nat>, s: State, x: nat)
    requires Run(stages, buffer, run, who) && Shaped(stages, s) && Step(stages, buffer, run[|run| - 1], s, x)
    ensures Run(stages, buffer, run + [s], who + [x])
  {
    var run', who' := run + [s], who + [x];
    forall i | 0 <= i < |who'|
      ensures Step(stages, buffer, run'[i], run'[i + 1], who'[i])
    {
      if i < |who| {
        assert Step(stages, buffer, run[i], run[i + 1], who[i]);
      }
    }
  }

  /** Exactly the stages of `done` have run one iteration, and nothing has been written. */
  ghost predicate OnlyRan(stages: seq<Stage>, s: State, done: set<nat>)
    requires Shaped(stages, s)
  {
    && s.copies == map[0 := Empty, 1 := Empty]
    && forall y :: 0 <= y < |stages| ==> s.started[y] == s.finished[y] == if y in done then 1 else 0
  }

  /** Lets stage `v` run its first iteration. */
  lemma RunFirst(stages: seq<Stage>, buffer: nat, run: seq<State>, who: seq<nat>, done: set<nat>, v: nat)
    returns (run': seq<State>, who': seq<nat>)
    requires Run(stages, buffer, run, who) && OnlyRan(stages, run[|run| - 1], done)
    requires v < |stages| && v !in done && !Writes(stages[v], buffer)
    requires forall y: nat :: y < |stages| && WaitsFor(stages, v, y) ==> y in done
    ensures Run(stages, buffer, run', who') && OnlyRan(stages, run'[|run'| - 1], done + {v})
  {
    var s := run[|run| - 1];
    var s1 := State(s.started[v := 1], s.finished, s.copies);
    var s2 := State(s1.started, s1.finished[v := 1], s1.copies);
    assert Starts(stages, buffer, s, s1, v);
    RunOn(stages, buffer, run, who, s1, v);
    assert Finishes(stages, buffer, s1, s2, v);
    RunOn(stages, buffer, run + [s1], who + [v], s2, v);
    run', who' := run + [s1] + [s2], who + [v] + [v];
  }

  /** The stages before place `i` of the order from which tokens lead to `x`. */
  ghost function Ahead(stages: seq<Stage>, order: seq<nat>, x: nat, i: nat): set<nat>
    requires i <= |order|
  {
    set y | y in order[..i] && y != x && Reaches(TokenGraph(stages), y, x)
  }

  /** Runs all stages before place `i` of the order from which tokens lead to `x`. */
  lemma {:induction false} RunAhead(stages: seq<Stage>, buffer: nat, p: nat, order: seq<nat>, x: nat, i: nat)
    returns (run: seq<State>, who: seq<nat>)
    requires TopologicalOrder(TokenGraph(stages), order) && x < |stages| && i <= |order|
    requires !Reaches(TokenGraph(stages), p, x) && forall k :: 0 <= k < |stages| && Writes(stages[k], buffer) ==> k == p
    ensures Run(stages, buffer, run, who) && OnlyRan(stages, run[|run| - 1], Ahead(stages, order, x, i))
  {
    if i == 0 {
      run, who := [State(seq(|stages|, _ => 0), seq(|stages|, _ => 0), map[0 := Empty, 1 := Empty])], [];
      assert Ahead(stages, order, x, 0) == {};
    } else {
      var v := order[i - 1];
      assert order[..i] == order[..i - 1] + [v];
      run, who := RunAhead(stages, buffer, p, order, x, i - 1);
      if v != x && Reaches(TokenGraph(stages), v, x) {
        assert v in order;
        var done := Ahead(stages, order, x, i - 1);
        forall y: nat | y < |stages| && WaitsFor(stages, v, y)
          ensures y in done
        {
          SupplierIsAhead(stages, order, x, i - 1, y);
        }
        run, who := RunFirst(stages, buffer, run, who, done, v);
        assert Ahead(stages, order, x, i) == done + {v};
      } else {
        assert Ahead(stages, order, x, i) == Ahead(stages, order, x, i - 1);
      }
    }
  }

  lemma SupplierIsAhead(stages: seq<Stage>, order: seq<nat>, x: nat, i: nat, y: nat)
    requires TopologicalOrder(TokenGraph(stages), order) && x < |stages| && i < |order|
    requires order[i] < |stages| && y < |stages| && WaitsFor(stages, order[i], y) && Reaches(TokenGraph(stages), order[i], x)
    ensures y in Ahead(stages, order, x, i)
  {
    var g, v := TokenGraph(stages), order[i];
    assert Edge(g, y, v);
    ReachesEdge(g, y, v);
    ReachesTransitive(g, y, v, x);
    assert y in g && y in Elems(order);
    var j := Place(order, y);
    assert order[j] == order[..i][j];
    if y == x {
      var walk :| WalkBetween(g, walk, v, x);
      WalkClimbs(g, order, walk, i, j);
    }
  }

  /** Without such tokens there is an interleaving in which the reader is inside its first iteration before anything is written. */
  lemma UnorderedReaderMisses(stages: seq<Stage>, buffer: nat, p: nat, x: nat) returns (run: seq<State>, who: seq<nat>)
    requires !Cyclic(TokenGraph(stages)) && x < |stages| && x != p
    requires forall k :: 0 <= k < |stages| && Writes(stages[k], buffer) ==> k == p
    requires !Reaches(TokenGraph(stages), p, x)
    ensures Run(stages, buffer, run, who)
    ensures Inside(stages, run[|run| - 1], x, 0) && run[|run| - 1].copies[Copy(0)] == Empty
  {
    var order := AcyclicHasOrder(TokenGraph(stages));
    run, who := RunAhead(stages, buffer, p, order, x, |order|);
    var s, done := run[|run| - 1], Ahead(stages, order, x, |order|);
    assert order[..|order|] == order;
    forall y: nat | y < |stages| && WaitsFor(stages, x, y)
      ensures y in done
    {
      assert Edge(TokenGraph(stages), y, x);
      ReachesEdge(TokenGraph(stages), y, x);
      assert y in Elems(order);
    }
    var s' := State(s.started[x := 1], s.finished, s.copies);
    assert x !in done;
    assert Starts(stages, buffer, s, s', x);
    RunOn(stages, buffer, run, who, s', x);
    run, who := run + [s'], who + [x];
  }

  /** While the stage `x` is inside an iteration, its copy holds all that was written in that iteration. */
  ghost predicate AlwaysReads(stages: seq<Stage>, buffer: nat, x: nat) {
    forall run: seq<State>, who: seq<nat>, i: nat, k: nat :: Run(stages, buffer, run, who) && i < |run| && Inside(stages, run[i], x, k) ==>
      run[i].copies[Copy(k)] == Full(k)
  }

  /** With one writer and acyclic tokens, a stage always sees its iteration exactly when the writer precedes it. */
  lemma SafeIffPrecedes(stages: seq<Stage>, buffer: nat, p: nat, x: nat)
    requires !Cyclic(TokenGraph(stages)) && SoleWriter(stages, buffer, p) && x < |stages| && x != p
    ensures AlwaysReads(stages, buffer, x) <==> Reaches(TokenGraph(stages), p, x)
  {
    if Reaches(TokenGraph(stages), p, x) {
      forall run: seq<State>, who: seq<nat>, i: nat, k: nat | Run(stages, buffer, run, who) && i < |run| && Inside(stages, run[i], x, k)
        ensures run[i].copies[Copy(k)] == Full(k)
      {
        BehindTheWriter(stages, buffer, p, run, who, i, x, k);
      }
    } else {
      var run, who := UnorderedReaderMisses(stages, buffer, p, x);
      assert Inside(stages, run[|run| - 1], x, 0);
    }
  }
}
