/**
 * Writing the stages of an expanded pipeline back: tokens stand for their dependencies, which the tree
 * builder reads again later.
 */
module Materializer {
  import opened Sequences
  import opened Digraph
  import opened StageTokens

  // ---------------------------------------------------------------------------------------------
  // Tokens for dependencies
  // ---------------------------------------------------------------------------------------------

  /** The stages that somebody depends on, in order. */
  function Blocking(stages: seq<nat>, deps: Graph): seq<nat>
    requires forall u :: u in stages ==> u in deps
  {
    if stages == [] then []
    else
      var last := stages[|stages| - 1];
      Blocking(stages[..|stages| - 1], deps) + if deps[last] == [] then [] else [last]
  }

  /** One copy of `token` for every entry for `v`. */
  function Copies(entries: seq<nat>, v: nat, token: nat): seq<nat> {
    if entries == [] then []
    else Copies(entries[..|entries| - 1], v, token) + if entries[|entries| - 1] == v then [token] else []
  }

  /** Input tokens of `v` from the listed stages. */
  function TokensFor(listed: seq<nat>, deps: Graph, tokens: map<nat, nat>, v: nat): seq<nat>
    requires forall u :: u in listed ==> u in deps && (deps[u] != [] ==> u in tokens)
  {
    if listed == [] then []
    else
      var last := listed[|listed| - 1];
      TokensFor(listed[..|listed| - 1], deps, tokens, v)
      + if last == v || deps[last] == [] then [] else Copies(deps[last], v, tokens[last])
  }

  /** Every stage that blocks others has a token of its own. */
  lemma {:induction false} CopiesAreAlike(entries: seq<nat>, v: nat, token: nat)
    ensures forall k :: 0 <= k < |Copies(entries, v, token)| ==> Copies(entries, v, token)[k] == token
  {
    if entries != [] {
      CopiesAreAlike(entries[..|entries| - 1], v, token);
    }
  }

  /** The input tokens of a stage come in the order of the stages that they are from. */
  lemma {:induction false} TokensInOrder(listed: seq<nat>, deps: Graph, tokens: map<nat, nat>, v: nat) returns (at: seq<nat>)
    requires forall u :: u in listed ==> u in deps && (deps[u] != [] ==> u in tokens)
    ensures |at| == |TokensFor(listed, deps, tokens, v)| && forall i, j :: 0 <= i <= j < |at| ==> at[i] <= at[j]
    ensures forall k :: 0 <= k < |at| ==>
      at[k] < |listed| && listed[at[k]] in tokens && TokensFor(listed, deps, tokens, v)[k] == tokens[listed[at[k]]]
  {
    var n := |listed| - 1;
    if n < 0 {
      at := [];
    } else {
      var last := listed[n];
      at := TokensInOrder(listed[..n], deps, tokens, v);
      if !(last == v || deps[last] == []) {
        CopiesAreAlike(deps[last], v, tokens[last]);
        at := at + seq(|Copies(deps[last], v, tokens[last])|, _ => n);
      }
    }
  }

  ghost predicate TokenMap(stages: seq<nat>, deps: Graph, tokens: map<nat, nat>) {
    && NoDup(stages) && (forall u :: u in stages ==> u in deps && (deps[u] != [] ==> u in tokens))
    && (forall u, v {:trigger tokens[u], tokens[v]} :: u in tokens && v in tokens && u != v ==> tokens[u] != tokens[v])
  }

  function Written(stages: seq<nat>, deps: Graph, tokens: map<nat, nat>, v: nat): Stage
    requires forall u :: u in stages ==> u in deps && (deps[u] != [] ==> u in tokens)
    requires v in stages
  {
    Stage(v, TokensFor(stages, deps, tokens, v), if deps[v] == [] then [] else [tokens[v]], [])
  }

  /** Writes one stage with its input and output tokens. */
  method MaterializeStage(stages: seq<nat>, deps: Graph, tokens: map<nat, nat>, v: nat) returns (stage: Stage)
    requires TokenMap(stages, deps, tokens) && v in stages
    ensures stage == Written(stages, deps, tokens, v)
  {
    var dependsOut := if deps[v] == [] then [] else [tokens[v]];
    var dependsIn: seq<nat> := [];
    var i := 0;
    while i < |stages|
      invariant i <= |stages| && dependsIn == TokensFor(stages[..i], deps, tokens, v)
    {
      assert stages[..i + 1][..i] == stages[..i] && stages[..i + 1][i] == stages[i] && stages[i] in stages;
      if stages[i] != v && deps[stages[i]] != [] {
        var copies := TokenCopies(deps[stages[i]], v, tokens[stages[i]]);
        dependsIn := dependsIn + copies;
      }
      i := i + 1;
    }
    assert stages[..i] == stages;
    stage := Stage(v, dependsIn, dependsOut, []);
  }

  /** Looks through one stage's dependents for `v`. */
  method TokenCopies(entries: seq<nat>, v: nat, token: nat) returns (copies: seq<nat>)
    ensures copies == Copies(entries, v, token)
  {
    copies := [];
    var j := 0;
    while j < |entries|
      invariant j <= |entries| && copies == Copies(entries[..j], v, token)
    {
      assert entries[..j + 1][..j] == entries[..j];
      if entries[j] == v {
        copies := copies + [token];
      }
      j := j + 1;
    }
    assert entries[..j] == entries;
  }

  /** How many stages before place `i` have dependents. */
  function DependedOnBefore(stages: seq<nat>, deps: Graph, i: nat): nat
    requires i <= |stages| && forall u :: u in stages ==> u in deps
  {
    if i == 0 then 0 else DependedOnBefore(stages, deps, i - 1) + if deps[stages[i - 1]] == [] then 0 else 1
  }

  lemma {:induction false} BlockingAt(stages: seq<nat>, deps: Graph, n: nat, i: nat)
    requires i <= n <= |stages| && forall u :: u in stages ==> u in deps
    ensures |Blocking(stages[..n], deps)| == DependedOnBefore(stages, deps, n) >= DependedOnBefore(stages, deps, i)
    ensures i < n && deps[stages[i]] != [] ==>
      var k := DependedOnBefore(stages, deps, i); k < |Blocking(stages[..n], deps)| && Blocking(stages[..n], deps)[k] == stages[i]
  {
    if n > 0 {
      assert stages[..n][..n - 1] == stages[..n - 1] && stages[..n][n - 1] == stages[n - 1] && stages[n - 1] in stages;
      BlockingAt(stages, deps, n - 1, if i < n then i else n - 1);
    }
  }

  /** Gives each blocking stage the next result after the others. */
  method BuildStageToTokenMapping(stages: seq<nat>, deps: Graph, nonTokens: nat) returns (tokens: map<nat, nat>)
    requires NoDup(stages) && forall u :: u in stages ==> u in deps
    ensures TokenMap(stages, deps, tokens)
    ensures forall u :: u in tokens <==> u in stages && deps[u] != []
    ensures forall i :: 0 <= i < |stages| && deps[stages[i]] != [] ==>
      stages[i] in tokens && tokens[stages[i]] == nonTokens + DependedOnBefore(stages, deps, i)
  {
    var blocking := StagesWithDeps(stages, deps);
    tokens := map[];
    var i := 0;
    while i < |blocking|
      invariant 0 <= i <= |blocking| && tokens.Keys == Elems(blocking[..i])
      invariant forall j :: 0 <= j < i ==> tokens[blocking[j]] == nonTokens + j
    {
      assert blocking[..i + 1] == blocking[..i] + [blocking[i]];
      tokens := tokens[blocking[i] := nonTokens + i];
      i := i + 1;
    }
    assert blocking[..i] == blocking;
    NumberedTokens(stages, deps, tokens, blocking, nonTokens);
    forall j | 0 <= j < |stages| && deps[stages[j]] != []
      ensures stages[j] in tokens && tokens[stages[j]] == nonTokens + DependedOnBefore(stages, deps, j)
    {
      TokenAt(stages, deps, tokens, blocking, nonTokens, j);
    }
  }

  lemma TokenAt(stages: seq<nat>, deps: Graph, tokens: map<nat, nat>, blocking: seq<nat>, nonTokens: nat, j: nat)
    requires (forall u :: u in stages ==> u in deps) && tokens.Keys == Elems(blocking) && blocking == Blocking(stages, deps)
    requires forall i :: 0 <= i < |blocking| ==> tokens[blocking[i]] == nonTokens + i
    requires j < |stages| && deps[stages[j]] != []
    ensures stages[j] in tokens && tokens[stages[j]] == nonTokens + DependedOnBefore(stages, deps, j)
  {
    assert stages[..|stages|] == stages;
    BlockingAt(stages, deps, |stages|, j);
    assert blocking[DependedOnBefore(stages, deps, j)] == stages[j];
  }

  lemma NumberedTokens(stages: seq<nat>, deps: Graph, tokens: map<nat, nat>, blocking: seq<nat>, nonTokens: nat)
    requires NoDup(stages) && (forall u :: u in stages ==> u in deps) && tokens.Keys == Elems(blocking)
    requires forall u :: u in blocking <==> u in stages && deps[u] != []
    requires forall j :: 0 <= j < |blocking| ==> tokens[blocking[j]] == nonTokens + j
    ensures TokenMap(stages, deps, tokens)
  {
    forall u, v | u in tokens && v in tokens && u != v
      ensures tokens[u] != tokens[v]
    {
      assert u == blocking[Place(blocking, u)] && v == blocking[Place(blocking, v)];
    }
    forall u | u in stages && deps[u] != []
      ensures u in tokens
    {
      assert u in Elems(blocking);
    }
  }

  /** The stages that somebody depends on. */
  method StagesWithDeps(stages: seq<nat>, deps: Graph) returns (blocking: seq<nat>)
    requires NoDup(stages) && forall u :: u in stages ==> u in deps
    ensures blocking == Blocking(stages, deps) && NoDup(blocking)
    ensures forall u :: u in blocking <==> u in stages && deps[u] != []
  {
    blocking := [];
    var i := 0;
    while i < |stages|
      invariant 0 <= i <= |stages| && blocking == Blocking(stages[..i], deps)
    {
      assert stages[..i + 1][..i] == stages[..i] && stages[..i + 1][i] == stages[i] && stages[i] in stages;
      if deps[stages[i]] != [] {
        blocking := blocking + [stages[i]];
      }
      i := i + 1;
    }
    assert stages[..i] == stages;
    BlockingFacts(stages, deps);
  }

  lemma {:induction false} BlockingFacts(stages: seq<nat>, deps: Graph)
    requires NoDup(stages) && forall u :: u in stages ==> u in deps
    ensures NoDup(Blocking(stages, deps)) && forall u :: u in Blocking(stages, deps) <==> u in stages && deps[u] != []
  {
    if stages != [] {
      var init, last := stages[..|stages| - 1], stages[|stages| - 1];
      assert stages == init + [last];
      BlockingFacts(init, deps);
      FreshLast(stages, |stages|);
    }
  }

  // ---------------------------------------------------------------------------------------------
  // Round trip
  // ---------------------------------------------------------------------------------------------

  /** The pipeline as written. */
  ghost predicate WrittenPipeline(stages: seq<nat>, deps: Graph, tokens: map<nat, nat>, m: seq<Stage>) {
    && TokenMap(stages, deps, tokens) && |m| == |stages|
    && forall i :: 0 <= i < |stages| ==> stages[i] in stages && m[i] == Written(stages, deps, tokens, stages[i])
  }

  method MaterializePipeline(stages: seq<nat>, deps: Graph, nonTokens: nat) returns (m: seq<Stage>, ghost tokens: map<nat, nat>)
    requires NoDup(stages) && forall u :: u in stages ==> u in deps
    ensures WrittenPipeline(stages, deps, tokens, m)
  {
    var map_ := BuildStageToTokenMapping(stages, deps, nonTokens);
    tokens := map_;
    m := [];
    var i := 0;
    while i < |stages|
      invariant 0 <= i == |m| <= |stages|
      invariant forall j :: 0 <= j < i ==> stages[j] in stages && m[j] == Written(stages, deps, tokens, stages[j])
    {
      assert stages[i] in stages;
      var stage := MaterializeStage(stages, deps, map_, stages[i]);
      m := m + [stage];
      i := i + 1;
    }
  }

  /** The token of `u` is produced by `u`. */
  lemma {:induction false} TokenProducer(stages: seq<nat>, deps: Graph, tokens: map<nat, nat>, m: seq<Stage>, n: nat, u: nat)
    requires WrittenPipeline(stages, deps, tokens, m) && n <= |stages| && u in stages && deps[u] != []
    ensures Producer(m[..n], tokens[u]) == if u in stages[..n] then Some(u) else None
  {
    if n > 0 {
      var last := stages[n - 1];
      TokenProducer(stages, deps, tokens, m, n - 1, u);
      assert m[..n][..n - 1] == m[..n - 1] && m[..n][n - 1] == m[n - 1];
      assert stages[..n] == stages[..n - 1] + [last];
      assert m[n - 1] == Written(stages, deps, tokens, last);
      if last == u {
        assert m[n - 1].dependsOut == [tokens[u]];
      } else if deps[last] != [] {
        assert tokens[last] != tokens[u];
      }
    }
  }

  lemma {:induction false} SuppliersJoin(all: seq<Stage>, a: seq<nat>, b: seq<nat>)
    ensures Suppliers(all, a + b) == Suppliers(all, a) + Suppliers(all, b)
  {
    if b == [] {
      assert a + b == a;
    } else {
      assert (a + b)[..|a + b| - 1] == a + b[..|b| - 1];
      SuppliersJoin(all, a, b[..|b| - 1]);
    }
  }

  /** Each copy of the token stands for its producer. */
  lemma {:induction false} SuppliersOfCopies(all: seq<Stage>, entries: seq<nat>, v: nat, token: nat, u: nat)
    requires Producer(all, token) == Some(u)
    ensures Suppliers(all, Copies(entries, v, token)) == Copies(entries, v, u)
  {
    if entries != [] {
      var before := Copies(entries[..|entries| - 1], v, token);
      SuppliersOfCopies(all, entries[..|entries| - 1], v, token, u);
      if entries[|entries| - 1] == v {
        var after := before + [token];
        assert after[..|after| - 1] == before && after[|after| - 1] == token;
        assert Suppliers(all, after) == Suppliers(all, before) + [u];
        assert Copies(entries, v, token) == after;
      } else {
        assert Copies(entries, v, token) == before;
      }
    }
  }

  lemma {:induction false} CountCopies(entries: seq<nat>, v: nat, u: nat, w: nat)
    ensures multiset(Copies(entries, v, u))[w] == if w == u then multiset(entries)[v] else 0
  {
    if entries != [] {
      var init, last := entries[..|entries| - 1], entries[|entries| - 1];
      CountCopies(init, v, u, w);
      assert entries == init + [last];
      CountSnoc(init, last, v);
      CountSnoc(Copies(init, v, u), u, w);
    }
  }

  lemma CountSnoc(s: seq<nat>, x: nat, v: nat)
    ensures multiset(s + [x])[v] == multiset(s)[v] + if x == v then 1 else 0
  {
  }

  /** How often `u` supplies `v`: once for each time it blocks it, and never itself. */
  lemma {:induction false} SuppliersOfTokens(stages: seq<nat>, deps: Graph, tokens: map<nat, nat>, m: seq<Stage>, n: nat, v: nat, w: nat)
    requires WrittenPipeline(stages, deps, tokens, m) && n <= |stages|
    requires forall u :: u in stages[..n] ==> u in deps && (deps[u] != [] ==> u in tokens)
    ensures multiset(Suppliers(m, TokensFor(stages[..n], deps, tokens, v)))[w] ==
      if w in stages[..n] && w != v then multiset(deps[w])[v] else 0
  {
    if n > 0 {
      var last, init := stages[n - 1], stages[..n - 1];
      assert stages[..n] == init + [last] && last in stages;
      assert forall u :: u in init ==> u in stages[..n];
      SuppliersOfTokens(stages, deps, tokens, m, n - 1, v, w);
      FreshLast(stages, n);
      assert w in stages[..n] <==> w in init || w == last;
      TokensForNext(init, last, deps, tokens, v);
      var own := if last != v && deps[last] != [] then Copies(deps[last], v, tokens[last]) else [];
      SuppliersJoin(m, TokensFor(init, deps, tokens, v), own);
      OwnSuppliers(stages, deps, tokens, m, last, v, w);
    }
  }

  lemma TokensForNext(init: seq<nat>, last: nat, deps: Graph, tokens: map<nat, nat>, v: nat)
    requires forall u :: u in init + [last] ==> u in deps && (deps[u] != [] ==> u in tokens)
    ensures last in deps && (deps[last] != [] ==> last in tokens) && forall u :: u in init ==> u in deps && (deps[u] != [] ==> u in tokens)
    ensures TokensFor(init + [last], deps, tokens, v)
      == TokensFor(init, deps, tokens, v) + if last != v && deps[last] != [] then Copies(deps[last], v, tokens[last]) else []
  {
    assert (init + [last])[..|init|] == init && (init + [last])[|init|] == last;
    assert last in init + [last] && forall u :: u in init ==> u in init + [last];
  }

  /** What the copies of one stage's token amount to. */
  lemma OwnSuppliers(stages: seq<nat>, deps: Graph, tokens: map<nat, nat>, m: seq<Stage>, u: nat, v: nat, w: nat)
    requires WrittenPipeline(stages, deps, tokens, m) && u in stages && u in deps && (deps[u] != [] ==> u in tokens)
    ensures multiset(Suppliers(m, if u != v && deps[u] != [] then Copies(deps[u], v, tokens[u]) else []))[w]
      == if w == u && u != v then multiset(deps[u])[v] else 0
  {
    if u != v && deps[u] != [] {
      TokenProducer(stages, deps, tokens, m, |stages|, u);
      assert m[..|stages|] == m && stages[..|stages|] == stages;
      SuppliersOfCopies(m, deps[u], v, tokens[u], u);
      CountCopies(deps[u], v, u, w);
    }
  }

  lemma FreshLast(stages: seq<nat>, n: nat)
    requires NoDup(stages) && 0 < n <= |stages|
    ensures stages[n - 1] !in stages[..n - 1]
  {
  }

  lemma WrittenIds(stages: seq<nat>, deps: Graph, tokens: map<nat, nat>, m: seq<Stage>)
    requires WrittenPipeline(stages, deps, tokens, m)
    ensures DistinctSiblings(m) && IdsOf(m) == Elems(stages) && forall i :: 0 <= i < |m| ==> m[i].id == stages[i]
  {
    forall i | 0 <= i < |m|
      ensures m[i].id == stages[i]
    {
      assert m[i] == Written(stages, deps, tokens, stages[i]);
    }
  }

  /** Reading the tokens gives back every dependency on a sibling as often as it was there, and nothing else. */
  lemma ReadBack(stages: seq<nat>, deps: Graph, tokens: map<nat, nat>, m: seq<Stage>, u: nat, v: nat)
    requires WrittenPipeline(stages, deps, tokens, m) && u in stages
    ensures u in LocalGraph(m)
    ensures multiset(LocalGraph(m)[u])[v] == if v in stages && v != u then multiset(deps[u])[v] else 0
  {
    WrittenIds(stages, deps, tokens, m);
    assert u in Elems(stages);
    if v in stages {
      var k := Place(stages, v);
      assert m[k] == Written(stages, deps, tokens, v) && m[k].id == v;
      ConsumersCount(m, m, u, k);
      assert stages[..|stages|] == stages;
      SuppliersOfTokens(stages, deps, tokens, m, |stages|, v, u);
    } else {
      ConsumersAreListed(m, m, u);
      assert v !in Elems(stages);
    }
  }

  /** Writing and reading again gives the same dependencies exactly when they join different stages of the pipeline. */
  lemma RoundTripIff(stages: seq<nat>, deps: Graph, tokens: map<nat, nat>, m: seq<Stage>)
    requires WrittenPipeline(stages, deps, tokens, m)
    ensures (forall u :: u in stages ==> u in LocalGraph(m) && multiset(LocalGraph(m)[u]) == multiset(deps[u]))
      <==> (forall u, v :: u in stages && v in deps[u] ==> v in stages && v != u)
  {
    if forall u, v :: u in stages && v in deps[u] ==> v in stages && v != u {
      forall u | u in stages
        ensures u in LocalGraph(m) && multiset(LocalGraph(m)[u]) == multiset(deps[u])
      {
        forall v: nat
          ensures multiset(LocalGraph(m)[u])[v] == multiset(deps[u])[v]
        {
          ReadBack(stages, deps, tokens, m, u, v);
        }
      }
    } else {
      var u, v :| u in stages && v in deps[u] && !(v in stages && v != u);
      ReadBack(stages, deps, tokens, m, u, v);
      assert multiset(deps[u])[v] > 0;
    }
  }
}
