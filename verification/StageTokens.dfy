/**
 * The stage graph of one pipeline, read off the tokens its stages exchange, and the search for
 * cycles in it.
 */
module StageTokens {
  import opened Sequences
  import opened Digraph

  /** A stage consumes and produces tokens; `inner` are the pipelines directly inside its body, in program order. */
  datatype Stage = Stage(id: nat, dependsIn: seq<nat>, dependsOut: seq<nat>, inner: seq<Pipeline>)

  datatype Pipeline = Pipeline(stages: seq<Stage>)

  /** Both directions of a dependency graph. */
  datatype Dag = Dag(predecessors: Graph, successors: Graph)

  // ---------------------------------------------------------------------------------------------
  // Token flow inside one pipeline
  // ---------------------------------------------------------------------------------------------

  ghost predicate DistinctSiblings(stages: seq<Stage>) {
    forall i, j :: 0 <= i < j < |stages| ==> stages[i].id != stages[j].id
  }

  function IdsOf(stages: seq<Stage>): set<nat> {
    set i | 0 <= i < |stages| :: stages[i].id
  }

  /** The stage that produces a token; a later stage naming the same token takes over. */
  function Producer(stages: seq<Stage>, token: nat): Option<nat> {
    if stages == [] then None
    else if token in stages[|stages| - 1].dependsOut then Some(stages[|stages| - 1].id)
    else Producer(stages[..|stages| - 1], token)
  }

  /** One entry `v` for each of the tokens that `u` produces. */
  function Deliveries(all: seq<Stage>, tokens: seq<nat>, u: nat, v: nat): seq<nat> {
    if tokens == [] then []
    else
      var rest := Deliveries(all, tokens[..|tokens| - 1], u, v);
      if Producer(all, tokens[|tokens| - 1]) == Some(u) then rest + [v] else rest
  }

  /** Consumers of `u` among the listed stages, once for each token. */
  function Consumers(all: seq<Stage>, listed: seq<Stage>, u: nat): seq<nat> {
    if listed == [] then []
    else
      var last := listed[|listed| - 1];
      Consumers(all, listed[..|listed| - 1], u) + Deliveries(all, last.dependsIn, u, last.id)
  }

  function LocalGraph(stages: seq<Stage>): Graph {
    map u | u in IdsOf(stages) :: Consumers(stages, stages, u)
  }

  /** The producers of a stage's input tokens. */
  function Suppliers(all: seq<Stage>, tokens: seq<nat>): seq<nat> {
    if tokens == [] then []
    else
      var rest := Suppliers(all, tokens[..|tokens| - 1]);
      match Producer(all, tokens[|tokens| - 1])
      case Some(u) => rest + [u]
      case None => rest
  }

  lemma ProducerIsStage(stages: seq<Stage>, token: nat)
    ensures Producer(stages, token).Some? ==> Producer(stages, token).value in IdsOf(stages)
  {
    if stages != [] {
      var last := |stages| - 1;
      ProducerIsStage(stages[..last], token);
      assert IdsOf(stages) == IdsOf(stages[..last]) + {stages[last].id};
    }
  }

  lemma {:induction false} DeliveriesHold(all: seq<Stage>, tokens: seq<nat>, u: nat, v: nat)
    ensures var d := Deliveries(all, tokens, u, v); forall i :: 0 <= i < |d| ==> d[i] == v
    ensures |Deliveries(all, tokens, u, v)| == multiset(Suppliers(all, tokens))[u]
  {
    if tokens != [] {
      DeliveriesHold(all, tokens[..|tokens| - 1], u, v);
    }
  }

  lemma {:induction false} SuppliersAreStages(all: seq<Stage>, tokens: seq<nat>)
    ensures forall u :: u in Suppliers(all, tokens) ==> u in IdsOf(all)
  {
    if tokens != [] {
      SuppliersAreStages(all, tokens[..|tokens| - 1]);
      ProducerIsStage(all, tokens[|tokens| - 1]);
    }
  }

  /** Of several stages that put out a token the last one counts. */
  lemma {:induction false} ProducerIsLast(stages: seq<Stage>, token: nat) returns (place: nat)
    ensures Producer(stages, token).None? ==> place == 0
    ensures Producer(stages, token).Some? ==>
      0 < place <= |stages| && token in stages[place - 1].dependsOut && Producer(stages, token) == Some(stages[place - 1].id)
    ensures forall k :: place <= k < |stages| ==> token !in stages[k].dependsOut
  {
    var n := |stages|;
    if n == 0 {
      place := 0;
    } else if token in stages[n - 1].dependsOut {
      place := n;
    } else {
      place := ProducerIsLast(stages[..n - 1], token);
    }
  }

  predicate Increasing(s: seq<nat>) {
    forall i, j :: 0 <= i < j < |s| ==> s[i] < s[j]
  }

  /** The suppliers of a stage are the producers of those of its tokens that have one, token by token; `at` are their places. */
  lemma {:induction false} SuppliersInOrder(all: seq<Stage>, tokens: seq<nat>) returns (at: seq<nat>)
    ensures |at| == |Suppliers(all, tokens)| && Increasing(at) && forall k :: 0 <= k < |at| ==> at[k] < |tokens|
    ensures forall k :: 0 <= k < |at| ==> Producer(all, tokens[at[k]]) == Some(Suppliers(all, tokens)[k])
    ensures forall i :: 0 <= i < |tokens| && Producer(all, tokens[i]).Some? ==> i in at
  {
    var n := |tokens| - 1;
    if n < 0 {
      at := [];
    } else {
      at := SuppliersInOrder(all, tokens[..n]);
      at := at + if Producer(all, tokens[n]).Some? then [n] else [];
    }
  }

  /** The consumers of a stage come in the order of the stages. */
  lemma {:induction false} ConsumersInOrder(all: seq<Stage>, listed: seq<Stage>, u: nat) returns (at: seq<nat>)
    ensures |at| == |Consumers(all, listed, u)| && forall i, j :: 0 <= i <= j < |at| ==> at[i] <= at[j]
    ensures forall k :: 0 <= k < |at| ==> at[k] < |listed| && listed[at[k]].id == Consumers(all, listed, u)[k]
  {
    var n := |listed| - 1;
    if n < 0 {
      at := [];
    } else {
      var own := Deliveries(all, listed[n].dependsIn, u, listed[n].id);
      DeliveriesAreAlike(all, listed[n].dependsIn, u, listed[n].id);
      at := ConsumersInOrder(all, listed[..n], u);
      at := at + seq(|own|, _ => n);
    }
  }

  lemma {:induction false} DeliveriesAreAlike(all: seq<Stage>, tokens: seq<nat>, u: nat, v: nat)
    ensures forall k :: 0 <= k < |Deliveries(all, tokens, u, v)| ==> Deliveries(all, tokens, u, v)[k] == v
  {
    if tokens != [] {
      DeliveriesAreAlike(all, tokens[..|tokens| - 1], u, v);
    }
  }

  lemma {:induction false} ConsumersAreListed(all: seq<Stage>, listed: seq<Stage>, u: nat)
    ensures forall v :: v in Consumers(all, listed, u) ==> v in IdsOf(listed)
  {
    if listed != [] {
      var last := |listed| - 1;
      ConsumersAreListed(all, listed[..last], u);
      DeliveriesHold(all, listed[last].dependsIn, u, listed[last].id);
      assert IdsOf(listed) == IdsOf(listed[..last]) + {listed[last].id};
    }
  }

  lemma LocalGraphClosed(stages: seq<Stage>)
    ensures Closed(LocalGraph(stages))
  {
    forall u | u in IdsOf(stages) {
      ConsumersAreListed(stages, stages, u);
    }
  }

  lemma {:induction false} ConsumersCount(all: seq<Stage>, listed: seq<Stage>, u: nat, k: nat)
    requires DistinctSiblings(listed) && k < |listed|
    ensures multiset(Consumers(all, listed, u))[listed[k].id] == multiset(Suppliers(all, listed[k].dependsIn))[u]
  {
    var last := |listed| - 1;
    var own := Deliveries(all, listed[last].dependsIn, u, listed[last].id);
    var others := Consumers(all, listed[..last], u);
    DeliveriesHold(all, listed[last].dependsIn, u, listed[last].id);
    AllSame(own, listed[last].id);
    assert multiset(Consumers(all, listed, u)) == multiset(others) + multiset(own);
    if k < last {
      ConsumersCount(all, listed[..last], u, k);
    } else {
      ConsumersAreListed(all, listed[..last], u);
      assert listed[last].id !in others;
    }
  }

  lemma {:induction false} AllSame(s: seq<nat>, v: nat)
    requires forall i :: 0 <= i < |s| ==> s[i] == v
    ensures forall x :: multiset(s)[x] == if x == v then |s| else 0
  {
    if s != [] {
      AllSame(s[1..], v);
      assert s == [s[0]] + s[1..];
    }
  }

  /** The predecessor lists that mirror `LocalGraph`. */
  ghost predicate MirrorsTokens(stages: seq<Stage>, dag: Dag) {
    && dag.successors == LocalGraph(stages)
    && dag.predecessors.Keys == IdsOf(stages)
    && forall i :: 0 <= i < |stages| ==> dag.predecessors[stages[i].id] == Suppliers(stages, stages[i].dependsIn)
  }

  /** Predecessor and successor lists are inverse to each other, repetitions included. */
  lemma LocalDagIsMutual(stages: seq<Stage>, dag: Dag, i: nat, j: nat)
    requires DistinctSiblings(stages) && MirrorsTokens(stages, dag)
    requires i < |stages| && j < |stages|
    ensures stages[i].id in dag.successors && stages[j].id in dag.predecessors
    ensures multiset(dag.successors[stages[i].id])[stages[j].id]
         == multiset(dag.predecessors[stages[j].id])[stages[i].id]
  {
    ConsumersCount(stages, stages, stages[i].id, j);
  }

  /** No supplier means no incoming edge. */
  lemma NoSuppliersNoEdge(stages: seq<Stage>, j: nat)
    requires DistinctSiblings(stages) && j < |stages|
    ensures Suppliers(stages, stages[j].dependsIn) == [] <==>
      forall u :: u in IdsOf(stages) ==> !Edge(LocalGraph(stages), u, stages[j].id)
  {
    var suppliers := Suppliers(stages, stages[j].dependsIn);
    forall u | u in IdsOf(stages)
      ensures Edge(LocalGraph(stages), u, stages[j].id) <==> u in suppliers
    {
      ConsumersCount(stages, stages, u, j);
    }
    SuppliersAreStages(stages, stages[j].dependsIn);
    if suppliers != [] {
      assert suppliers[0] in IdsOf(stages);
    }
  }

  /** The map from tokens to the stage that produces them. */
  method MapProducers(stages: seq<Stage>) returns (producers: map<nat, nat>)
    ensures forall t :: t in producers <==> Producer(stages, t).Some?
    ensures forall t :: t in producers ==> Producer(stages, t) == Some(producers[t])
  {
    producers := map[];
    for i := 0 to |stages|
      invariant forall t :: t in producers <==> Producer(stages[..i], t).Some?
      invariant forall t :: t in producers ==> Producer(stages[..i], t) == Some(producers[t])
    {
      var before := producers;
      var tokens := stages[i].dependsOut;
      for j := 0 to |tokens|
        invariant forall t :: t in producers <==> t in before || t in tokens[..j]
        invariant forall t :: t in producers ==>
          producers[t] == if t in tokens[..j] then stages[i].id else before[t]
      {
        assert tokens[..j + 1] == tokens[..j] + [tokens[j]];
        producers := producers[tokens[j] := stages[i].id];
      }
      assert tokens[..|tokens|] == tokens;
      assert stages[..i + 1][..i] == stages[..i];
    }
    assert stages[..|stages|] == stages;
  }

  /** Records the edges into one stage. */
  method RecordStage(all: seq<Stage>, producers: map<nat, nat>, stage: Stage, predecessors: Graph, successors: Graph)
    returns (predecessors': Graph, successors': Graph)
    requires forall t :: t in producers <==> Producer(all, t).Some?
    requires forall t :: t in producers ==> Producer(all, t) == Some(producers[t])
    requires predecessors.Keys == successors.Keys == IdsOf(all) && stage.id in IdsOf(all)
    requires predecessors[stage.id] == []
    ensures predecessors' == predecessors[stage.id := Suppliers(all, stage.dependsIn)]
    ensures successors'.Keys == successors.Keys
    ensures forall u :: u in successors ==>
      successors'[u] == successors[u] + Deliveries(all, stage.dependsIn, u, stage.id)
  {
    predecessors', successors' := predecessors, successors;
    var tokens := stage.dependsIn;
    for j := 0 to |tokens|
      invariant predecessors' == predecessors[stage.id := Suppliers(all, tokens[..j])]
      invariant successors'.Keys == successors.Keys
      invariant forall u :: u in successors ==>
        successors'[u] == successors[u] + Deliveries(all, tokens[..j], u, stage.id)
    {
      assert tokens[..j + 1][..j] == tokens[..j];
      ProducerIsStage(all, tokens[j]);
      if tokens[j] in producers {
        var producer := producers[tokens[j]];
        predecessors' := predecessors'[stage.id := predecessors'[stage.id] + [producer]];
        successors' := successors'[producer := successors'[producer] + [stage.id]];
      }
    }
    assert tokens[..|tokens|] == tokens;
  }

  // ---------------------------------------------------------------------------------------------
  // Cycle detection with three colours
  // ---------------------------------------------------------------------------------------------

  const WHITE := 0
  const GRAY := 1
  const BLACK := 2

  /** `finished` lists the black vertices so that the successors of each come before it. */
  ghost predicate Finished(g: Graph, finished: seq<nat>) {
    && NoDup(finished)
    && forall i, v :: 0 <= i < |finished| && Edge(g, finished[i], v) ==> v in finished[..i]
  }

  /** Gray vertices are those on the walk `path`, black ones those in `finished`. */
  ghost predicate Coloured(g: Graph, color: map<nat, int>, path: seq<nat>, finished: seq<nat>) {
    && color.Keys == g.Keys
    && (path == [] || Walk(g, path))
    && Finished(g, finished)
    && (forall v :: v in g ==> (color[v] == GRAY <==> v in path))
    && (forall v :: v in g ==> (color[v] == BLACK <==> v in finished))
    && (forall v :: v in g ==> color[v] == WHITE || color[v] == GRAY || color[v] == BLACK)
    && (forall v :: v in path ==> v in g) && (forall v :: v in finished ==> v in g)
  }

  ghost function Whites(color: map<nat, int>): set<nat> {
    set v | v in color && color[v] == WHITE
  }

  lemma FinishOne(g: Graph, finished: seq<nat>, op: nat)
    requires Finished(g, finished) && op !in finished
    requires forall v :: Edge(g, op, v) ==> v in finished
    ensures Finished(g, finished + [op])
  {
    var next := finished + [op];
    forall i, v | 0 <= i < |next| && Edge(g, next[i], v)
      ensures v in next[..i]
    {
      if i < |finished| {
        assert next[..i] == finished[..i];
      } else {
        assert next[..i] == finished;
      }
    }
  }

  lemma GraySuccessorClosesCycle(g: Graph, path: seq<nat>, v: nat)
    requires Walk(g, path) && Edge(g, path[|path| - 1], v) && v in path
    ensures Cyclic(g)
  {
    var k :| 0 <= k < |path| && path[k] == v;
    var c := path[k..] + [v];
    forall i | 0 <= i < |c| - 1
      ensures Edge(g, c[i], c[i + 1])
    {
      if i < |c| - 2 {
        assert Edge(g, path[k + i], path[k + i + 1]);
      }
    }
    assert c[0] in g by {
      if k < |path| - 1 {
        assert Edge(g, path[k], path[k + 1]);
      }
    }
    assert IsCycle(g, c);
  }

  lemma {:induction false} FinishedBackwards(g: Graph, finished: seq<nat>, p: seq<nat>, i: nat)
    requires Finished(g, finished) && Walk(g, p) && i < |finished| && finished[i] == p[0]
    ensures |p| > 1 ==> p[|p| - 1] in finished[..i]
    decreases |p|
  {
    if |p| > 1 {
      assert Edge(g, p[0], p[1]);
      var j :| 0 <= j < i && finished[j] == p[1];
      var q := p[1..];
      forall k | 0 <= k < |q| - 1
        ensures Edge(g, q[k], q[k + 1])
      {
        assert Edge(g, p[k + 1], p[k + 2]);
      }
      if |q| > 1 {
        assert Edge(g, q[0], q[1]);
        FinishedBackwards(g, finished, q, j);
      }
    }
  }

  lemma AllFinishedIsAcyclic(g: Graph, finished: seq<nat>)
    requires Finished(g, finished) && forall v :: v in g ==> v in finished
    ensures !Cyclic(g)
  {
    if Cyclic(g) {
      var p :| IsCycle(g, p);
      var i :| 0 <= i < |finished| && finished[i] == p[0];
      FinishedBackwards(g, finished, p, i);
    }
  }

  lemma SmallerSet(a: set<nat>, b: set<nat>, v: nat)
    requires a <= b - {v} && v in b
    ensures |a| < |b|
  {
    if a == b - {v} {
      assert |a| == |b| - 1;
    } else {
      assert a < b;
      SubsetBound(a, b - {v});
    }
  }

  /** Depth-first search from a white vertex that the walk `path` leads to. */
  method HasCycle(g: Graph, op: nat, color: map<nat, int>, ghost path: seq<nat>, ghost finished: seq<nat>)
    returns (cycle: bool, color': map<nat, int>, ghost finished': seq<nat>)
    requires Closed(g) && Coloured(g, color, path, finished)
    requires op in g && color[op] == WHITE
    requires path != [] ==> Edge(g, path[|path| - 1], op)
    ensures cycle ==> Cyclic(g)
    ensures !cycle ==> Coloured(g, color', path, finished') && finished <= finished' && op in finished'
    ensures !cycle ==> Whites(color') <= Whites(color) - {op}
    decreases |Whites(color)|
  {
    color', finished' := color[op := GRAY], finished;
    ghost var path' := path + [op];
    WalkOn(g, path, op);
    for k := 0 to |g[op]|
      invariant Coloured(g, color', path', finished') && finished <= finished'
      invariant forall i :: 0 <= i < k ==> g[op][i] in finished'
      invariant Whites(color') <= Whites(color) - {op}
    {
      var succ := g[op][k];
      assert Edge(g, op, succ);
      if color'[succ] == GRAY {
        GraySuccessorClosesCycle(g, path', succ);
        return true, color', finished';
      }
      if color'[succ] == WHITE {
        SmallerSet(Whites(color'), Whites(color), op);
        cycle, color', finished' := HasCycle(g, succ, color', path', finished');
        if cycle {
          return;
        }
      }
    }
    color' := color'[op := BLACK];
    FinishOne(g, finished', op);
    finished' := finished' + [op];
    cycle := false;
  }

  lemma WalkOn(g: Graph, path: seq<nat>, op: nat)
    requires op in g && (path == [] || (Walk(g, path) && Edge(g, path[|path| - 1], op)))
    ensures Walk(g, path + [op])
  {
    var next := path + [op];
    forall i | 0 <= i < |next| - 1
      ensures Edge(g, next[i], next[i + 1])
    {
      if i < |path| - 1 {
        assert Edge(g, path[i], path[i + 1]);
      }
    }
  }

  /** Searches from every stage not yet coloured: succeeds exactly on acyclic graphs. */
  method SearchAll(stages: seq<nat>, g: Graph) returns (cycle: bool)
    requires Closed(g) && forall v :: v in stages <==> v in g
    ensures cycle <==> Cyclic(g)
  {
    var color: map<nat, int> := map v | v in g :: WHITE;
    ghost var finished: seq<nat> := [];
    for i := 0 to |stages|
      invariant Coloured(g, color, [], finished)
      invariant forall j :: 0 <= j < i ==> stages[j] in finished
    {
      if color[stages[i]] == WHITE {
        cycle, color, finished := HasCycle(g, stages[i], color, [], finished);
        if cycle {
          return;
        }
      }
    }
    AllFinishedIsAcyclic(g, finished);
    cycle := false;
  }

  // ---------------------------------------------------------------------------------------------
  // analyzeStageDependencies
  // ---------------------------------------------------------------------------------------------

  /** The predecessor lists when the first `n` stages have been recorded. */
  ghost predicate RecordedUpTo(stages: seq<Stage>, predecessors: Graph, n: nat) {
    && predecessors.Keys == IdsOf(stages)
    && (forall j :: 0 <= j < n && j < |stages| ==> predecessors[stages[j].id] == Suppliers(stages, stages[j].dependsIn))
    && (forall j :: n <= j < |stages| ==> predecessors[stages[j].id] == [])
  }

  lemma RecordNext(stages: seq<Stage>, predecessors: Graph, n: nat)
    requires DistinctSiblings(stages) && RecordedUpTo(stages, predecessors, n) && n < |stages|
    ensures RecordedUpTo(stages, predecessors[stages[n].id := Suppliers(stages, stages[n].dependsIn)], n + 1)
  {
    forall j | 0 <= j < |stages| && j != n ensures stages[j].id != stages[n].id {
    }
  }

  ghost predicate DeliveredUpTo(stages: seq<Stage>, successors: Graph, n: nat)
    requires n <= |stages|
  {
    && successors.Keys == IdsOf(stages)
    && forall u :: u in successors ==> successors[u] == Consumers(stages, stages[..n], u)
  }

  lemma DeliverNext(stages: seq<Stage>, successors: Graph, successors': Graph, n: nat)
    requires n < |stages| && DeliveredUpTo(stages, successors, n) && successors'.Keys == successors.Keys
    requires forall u :: u in successors ==>
      successors'[u] == successors[u] + Deliveries(stages, stages[n].dependsIn, u, stages[n].id)
    ensures DeliveredUpTo(stages, successors', n + 1)
  {
    assert stages[..n + 1][..n] == stages[..n];
  }

  /** Matches tokens with their producers, in both directions. */
  method MatchTokens(stages: seq<Stage>) returns (dag: Dag)
    requires DistinctSiblings(stages)
    ensures MirrorsTokens(stages, dag)
  {
    var ids := IdsOf(stages);
    var predecessors: Graph := map u | u in ids :: [];
    var successors: Graph := map u | u in ids :: [];
    var producers := MapProducers(stages);
    for i := 0 to |stages|
      invariant RecordedUpTo(stages, predecessors, i) && DeliveredUpTo(stages, successors, i)
    {
      RecordNext(stages, predecessors, i);
      ghost var before := successors;
      predecessors, successors := RecordStage(stages, producers, stages[i], predecessors, successors);
      DeliverNext(stages, before, successors, i);
    }
    dag := Dag(predecessors, successors);
    AllMirrored(stages, dag);
  }

  lemma AllMirrored(stages: seq<Stage>, dag: Dag)
    requires RecordedUpTo(stages, dag.predecessors, |stages|) && DeliveredUpTo(stages, dag.successors, |stages|)
    ensures MirrorsTokens(stages, dag)
  {
    assert stages[..|stages|] == stages;
  }

  /** Builds both directions of the local graph and reports whether it is free of cycles. */
  method AnalyzeStageDependencies(stages: seq<Stage>) returns (ok: bool, dag: Dag)
    requires DistinctSiblings(stages)
    ensures MirrorsTokens(stages, dag)
    ensures ok <==> !Cyclic(LocalGraph(stages))
  {
    dag := MatchTokens(stages);
    LocalGraphClosed(stages);
    var ids := seq(|stages|, i requires 0 <= i < |stages| => stages[i].id);
    forall v
      ensures v in ids <==> v in IdsOf(stages)
    {
      if v in IdsOf(stages) {
        var i :| 0 <= i < |stages| && stages[i].id == v;
        assert ids[i] == v;
      }
    }
    var cycle := SearchAll(ids, dag.successors);
    ok := !cycle;
  }
}
