/**
 * Which buffers of a pipeline may be doubled: one stage writes the buffer, others read it, and the
 * writer comes before every reader in the order that the tokens impose.
 */
module DoubleBuffering {
  import opened Sequences
  import opened Digraph

  datatype Transfer = Transfer(source: nat, destination: nat)

  /** A stage is known by its place among the stages of the pipeline. */
  datatype Stage = Stage(transfers: seq<Transfer>, dependsIn: seq<nat>, dependsOut: seq<nat>)

  predicate Writes(s: Stage, buffer: nat) {
    exists i :: 0 <= i < |s.transfers| && s.transfers[i].destination == buffer
  }

  predicate Reads(s: Stage, buffer: nat) {
    exists i :: 0 <= i < |s.transfers| && s.transfers[i].source == buffer
  }

  // ---------------------------------------------------------------------------------------------
  // Scan for writers and readers
  // ---------------------------------------------------------------------------------------------

  datatype Roles = Roles(producers: seq<nat>, consumers: seq<nat>)

  /** The stages before place `n` that write, in order. */
  function Writers(stages: seq<Stage>, buffer: nat, n: nat): (w: seq<nat>)
    requires n <= |stages|
    ensures forall k: nat :: k in w <==> k < n && Writes(stages[k], buffer)
    ensures NoDup(w)
  {
    if n == 0 then [] else Writers(stages, buffer, n - 1) + if Writes(stages[n - 1], buffer) then [n - 1] else []
  }

  function Readers(stages: seq<Stage>, buffer: nat, n: nat): (r: seq<nat>)
    requires n <= |stages|
    ensures forall k: nat :: k in r <==> k < n && Reads(stages[k], buffer)
    ensures NoDup(r)
  {
    if n == 0 then [] else Readers(stages, buffer, n - 1) + if Reads(stages[n - 1], buffer) then [n - 1] else []
  }

  /** The roles of one stage. */
  predicate Ascending(s: seq<nat>) {
    forall i, j :: 0 <= i < j < |s| ==> s[i] < s[j]
  }

  lemma {:induction false} ReadersAscend(stages: seq<Stage>, buffer: nat, n: nat)
    requires n <= |stages|
    ensures Ascending(Readers(stages, buffer, n))
  {
    if n > 0 {
      var before := Readers(stages, buffer, n - 1);
      ReadersAscend(stages, buffer, n - 1);
      assert forall i :: 0 <= i < |before| ==> before[i] in before;
    }
  }

  method ScanStage(s: Stage, buffer: nat) returns (isWriter: bool, isReader: bool)
    ensures isWriter <==> Writes(s, buffer)
    ensures isReader <==> Reads(s, buffer)
  {
    isWriter, isReader := false, false;
    var i := 0;
    while i < |s.transfers|
      invariant i <= |s.transfers|
      invariant isWriter <==> exists j :: 0 <= j < i && s.transfers[j].destination == buffer
      invariant isReader <==> exists j :: 0 <= j < i && s.transfers[j].source == buffer
    {
      if s.transfers[i].destination == buffer {
        isWriter := true;
      }
      if s.transfers[i].source == buffer {
        isReader := true;
      }
      i := i + 1;
    }
  }

  method AnyCommon(a: seq<nat>, b: seq<nat>) returns (common: bool)
    ensures common <==> exists k :: k in a && k in b
  {
    var j := 0;
    while j < |a|
      invariant j <= |a| && forall i :: 0 <= i < j ==> a[i] !in b
    {
      if a[j] in b {
        return true;
      }
      j := j + 1;
    }
    return false;
  }

  method ScanStages(stages: seq<Stage>, buffer: nat) returns (producers: seq<nat>, consumers: seq<nat>)
    ensures producers == Writers(stages, buffer, |stages|) && consumers == Readers(stages, buffer, |stages|)
  {
    producers, consumers := [], [];
    var i := 0;
    while i < |stages|
      invariant i <= |stages| && producers == Writers(stages, buffer, i) && consumers == Readers(stages, buffer, i)
    {
      var isWriter, isReader := ScanStage(stages[i], buffer);
      if isWriter {
        producers := producers + [i];
      }
      if isReader {
        consumers := consumers + [i];
      }
      i := i + 1;
    }
  }

  /** All writers and readers, or nothing when some stage is both. */
  method ScanProducersConsumers(stages: seq<Stage>, buffer: nat) returns (roles: Option<Roles>)
    ensures roles.None? <==> exists k :: 0 <= k < |stages| && Writes(stages[k], buffer) && Reads(stages[k], buffer)
    ensures roles.Some? ==>
      roles.value == Roles(Writers(stages, buffer, |stages|), Readers(stages, buffer, |stages|))
  {
    var producers, consumers := ScanStages(stages, buffer);
    var common := AnyCommon(producers, consumers);
    roles := if common then None else Some(Roles(producers, consumers));
  }

  // ---------------------------------------------------------------------------------------------
  // Order by tokens
  // ---------------------------------------------------------------------------------------------

  /** The first of the first `n` stages that produces the token. */
  function FirstProducer(stages: seq<Stage>, token: nat, n: nat): (p: Option<nat>)
    requires n <= |stages|
    ensures p.Some? ==> p.value < n && token in stages[p.value].dependsOut
  {
    if n == 0 then None
    else
      var earlier := FirstProducer(stages, token, n - 1);
      if earlier.Some? then earlier else if token in stages[n - 1].dependsOut then Some(n - 1) else None
  }

  /** `v` waits for `u`: it consumes a token that `u` is the first to produce. */
  predicate WaitsFor(stages: seq<Stage>, v: nat, u: nat)
    requires v < |stages|
  {
    v != u && exists i :: 0 <= i < |stages[v].dependsIn| && FirstProducer(stages, stages[v].dependsIn[i], |stages|) == Some(u)
  }

  function Waiting(stages: seq<Stage>, u: nat, n: nat): (w: seq<nat>)
    requires n <= |stages|
    ensures forall v: nat :: v in w <==> v < n && WaitsFor(stages, v, u)
  {
    if n == 0 then [] else Waiting(stages, u, n - 1) + if WaitsFor(stages, n - 1, u) then [n - 1] else []
  }

  /** The graph of the tokens. */
  function TokenGraph(stages: seq<Stage>): Graph {
    map u: nat | u < |stages| :: Waiting(stages, u, |stages|)
  }

  /** A token comes from the first stage that puts it out. */
  lemma {:induction false} FirstProducerIsFirst(stages: seq<Stage>, token: nat, n: nat)
    requires n <= |stages|
    ensures var p := FirstProducer(stages, token, n);
      forall k :: 0 <= k < (if p.Some? then p.value else n) ==> token !in stages[k].dependsOut
  {
    if n > 0 {
      FirstProducerIsFirst(stages, token, n - 1);
    }
  }

  /** `u` puts out the token, and no stage before it does. */
  predicate SuppliesFirst(stages: seq<Stage>, token: nat, u: nat) {
    u < |stages| && token in stages[u].dependsOut && forall k :: 0 <= k < u ==> token !in stages[k].dependsOut
  }

  lemma FirstProducerIff(stages: seq<Stage>, token: nat, u: nat)
    ensures FirstProducer(stages, token, |stages|) == Some(u) <==> SuppliesFirst(stages, token, u)
  {
    FirstProducerIsFirst(stages, token, |stages|);
  }

  /** A stage waits for another exactly when one of the tokens that it takes in is put out by that stage first. */
  lemma WaitsForIff(stages: seq<Stage>, v: nat, u: nat)
    requires v < |stages|
    ensures WaitsFor(stages, v, u) <==>
      v != u && exists i :: 0 <= i < |stages[v].dependsIn| && SuppliesFirst(stages, stages[v].dependsIn[i], u)
  {
    forall i | 0 <= i < |stages[v].dependsIn|
      ensures FirstProducer(stages, stages[v].dependsIn[i], |stages|) == Some(u) <==> SuppliesFirst(stages, stages[v].dependsIn[i], u)
    {
      FirstProducerIff(stages, stages[v].dependsIn[i], u);
    }
  }

  /** First producer of every token. */
  method MapTokens(stages: seq<Stage>) returns (producers: map<nat, nat>)
    ensures forall token: nat :: token in producers <==> FirstProducer(stages, token, |stages|).Some?
    ensures forall token: nat :: token in producers ==> FirstProducer(stages, token, |stages|) == Some(producers[token])
  {
    producers := map[];
    var i := 0;
    while i < |stages|
      invariant i <= |stages|
      invariant forall token: nat :: token in producers <==> FirstProducer(stages, token, i).Some?
      invariant forall token: nat :: token in producers ==> FirstProducer(stages, token, i) == Some(producers[token])
    {
      producers := AddTokens(producers, stages[i].dependsOut, i);
      i := i + 1;
    }
  }

  /** Adds the tokens that are not in the map yet. */
  method AddTokens(producers: map<nat, nat>, tokens: seq<nat>, stage: nat) returns (producers': map<nat, nat>)
    ensures producers'.Keys == producers.Keys + Elems(tokens)
    ensures forall token :: token in producers' ==>
      producers'[token] == if token in producers then producers[token] else stage
  {
    producers' := producers;
    var i := 0;
    while i < |tokens|
      invariant i <= |tokens| && producers'.Keys == producers.Keys + Elems(tokens[..i])
      invariant forall token :: token in producers' ==>
        producers'[token] == if token in producers then producers[token] else stage
    {
      assert tokens[..i + 1] == tokens[..i] + [tokens[i]];
      if tokens[i] !in producers' {
        producers' := producers'[tokens[i] := stage];
      }
      i := i + 1;
    }
    assert tokens[..i] == tokens;
  }

  method DependsOn(stages: seq<Stage>, producers: map<nat, nat>, v: nat, u: nat) returns (b: bool)
    requires v < |stages| && v != u
    requires forall token: nat :: token in producers <==> FirstProducer(stages, token, |stages|).Some?
    requires forall token: nat :: token in producers ==> FirstProducer(stages, token, |stages|) == Some(producers[token])
    ensures b <==> WaitsFor(stages, v, u)
  {
    var tokens := stages[v].dependsIn;
    var i := 0;
    while i < |tokens|
      invariant i <= |tokens| && forall j :: 0 <= j < i ==> FirstProducer(stages, tokens[j], |stages|) != Some(u)
    {
      if tokens[i] in producers && producers[tokens[i]] == u {
        return true;
      }
      i := i + 1;
    }
    return false;
  }

  /** What the search knows: everything visited is reachable, and the target has not been met. */
  ghost predicate Searching(stages: seq<Stage>, producer: nat, target: nat, visited: seq<nat>, worklist: seq<nat>) {
    && NoDup(visited) && producer in visited && target !in visited
    && (forall v :: v in visited ==> v < |stages| && Reaches(TokenGraph(stages), producer, v))
    && (forall v :: v in worklist ==> v in visited)
  }

  /** All successors of `v` have been visited. */
  ghost predicate Expanded(stages: seq<Stage>, v: nat, visited: seq<nat>) {
    forall w :: Edge(TokenGraph(stages), v, w) ==> w in visited
  }

  lemma VisitedBound(stages: seq<Stage>, producer: nat, target: nat, visited: seq<nat>, worklist: seq<nat>)
    requires Searching(stages, producer, target, visited, worklist)
    ensures |visited| <= |stages|
  {
    RangeSize(0, |stages|);
    NoDupBound(visited, Range(0, |stages|));
  }

  lemma ReachesNext(stages: seq<Stage>, producer: nat, s: nat, w: nat)
    requires s < |stages| && w < |stages| && Reaches(TokenGraph(stages), producer, s) && WaitsFor(stages, w, s)
    ensures Reaches(TokenGraph(stages), producer, w)
  {
    ReachesEdge(TokenGraph(stages), s, w);
    ReachesTransitive(TokenGraph(stages), producer, s, w);
  }

  /** Visits the stages that wait for `s`; stops at the target. */
  method Expand(stages: seq<Stage>, tokens: map<nat, nat>, producer: nat, target: nat, s: nat, visited0: seq<nat>, worklist0: seq<nat>)
    returns (found: bool, visited: seq<nat>, worklist: seq<nat>)
    requires Searching(stages, producer, target, visited0, worklist0) && s in visited0 && target < |stages|
    requires forall token: nat :: token in tokens <==> FirstProducer(stages, token, |stages|).Some?
    requires forall token: nat :: token in tokens ==> FirstProducer(stages, token, |stages|) == Some(tokens[token])
    ensures found ==> Reaches(TokenGraph(stages), producer, target)
    ensures !found ==> Searching(stages, producer, target, visited, worklist) && Expanded(stages, s, visited)
    ensures |visited| - |visited0| == |worklist| - |worklist0| >= 0
    ensures forall v :: v in visited ==> v in visited0 || v in worklist
    ensures forall v :: v in visited0 ==> v in visited
    ensures forall v :: v in worklist0 ==> v in worklist
  {
    found, visited, worklist := false, visited0, worklist0;
    var succ := 0;
    while succ < |stages|
      invariant succ <= |stages| && Searching(stages, producer, target, visited, worklist)
      invariant |visited| - |visited0| == |worklist| - |worklist0| >= 0
      invariant forall v :: v in visited ==> v in visited0 || v in worklist
      invariant forall v :: v in visited0 ==> v in visited
      invariant forall v :: v in worklist0 ==> v in worklist
      invariant forall w :: 0 <= w < succ && WaitsFor(stages, w, s) ==> w in visited
    {
      if succ != s {
        var depends := DependsOn(stages, tokens, succ, s);
        if depends {
          ReachesNext(stages, producer, s, succ);
          if succ == target {
            found := true;
            return;
          }
          if succ !in visited {
            visited, worklist := visited + [succ], worklist + [succ];
          }
        }
      }
      succ := succ + 1;
    }
  }

  /** Searches from `producer` along tokens for `target`. */
  method ProducerTransitivelyPrecedes(stages: seq<Stage>, producer: nat, target: nat) returns (precedes: bool)
    requires producer < |stages| && target < |stages|
    ensures precedes <==> producer != target && Reaches(TokenGraph(stages), producer, target)
  {
    if producer == target {
      return false;
    }
    var tokens := MapTokens(stages);
    var visited, worklist := [producer], [producer];
    ReachesSelf(TokenGraph(stages), producer);
    VisitedBound(stages, producer, target, visited, worklist);
    while worklist != []
      invariant Searching(stages, producer, target, visited, worklist) && |visited| <= |stages|
      invariant forall v :: v in visited && v !in worklist ==> Expanded(stages, v, visited)
      decreases 2 * (|stages| - |visited|) + |worklist|
    {
      var s := worklist[|worklist| - 1];
      var rest := worklist[..|worklist| - 1];
      assert worklist == rest + [s];
      var found;
      found, visited, worklist := Expand(stages, tokens, producer, target, s, visited, rest);
      if found {
        return true;
      }
      VisitedBound(stages, producer, target, visited, worklist);
    }
    if Reaches(TokenGraph(stages), producer, target) {
      var p :| WalkBetween(TokenGraph(stages), p, producer, target);
      StaysVisited(stages, p, visited, |p| - 1);
    }
    return false;
  }

  lemma {:induction false} StaysVisited(stages: seq<Stage>, p: seq<nat>, visited: seq<nat>, i: nat)
    requires Walk(TokenGraph(stages), p) && p[0] in visited && i < |p|
    requires forall v :: v in visited ==> Expanded(stages, v, visited)
    ensures p[i] in visited
  {
    if i > 0 {
      StaysVisited(stages, p, visited, i - 1);
      assert Edge(TokenGraph(stages), p[i - 1], p[i]);
    }
  }

  // ---------------------------------------------------------------------------------------------
  // Eligibility
  // ---------------------------------------------------------------------------------------------

  datatype Candidate = Candidate(producer: nat, consumers: seq<nat>)

  /** Only `c.producer` writes the buffer, exactly `c.consumers` read it, and the producer precedes each of them. */
  ghost predicate Eligible(stages: seq<Stage>, buffer: nat, c: Candidate) {
    && c.producer < |stages| && c.consumers != [] && Ascending(c.consumers)
    && (forall k :: 0 <= k < |stages| ==> (Writes(stages[k], buffer) <==> k == c.producer))
    && (forall k: nat :: k in c.consumers <==> k < |stages| && Reads(stages[k], buffer))
    && c.producer !in c.consumers
    && forall k: nat :: k in c.consumers ==> Reaches(TokenGraph(stages), c.producer, k)
  }

  lemma {:induction false} OneWriter(stages: seq<Stage>, buffer: nat, p: nat)
    requires p < |stages| && forall k :: 0 <= k < |stages| ==> (Writes(stages[k], buffer) <==> k == p)
    ensures Writers(stages, buffer, |stages|) == [p]
  {
    var w := Writers(stages, buffer, |stages|);
    assert p in w;
    NoDupBound(w, {p});
  }

  lemma EligibleHasReader(stages: seq<Stage>, buffer: nat, c: Candidate)
    requires Eligible(stages, buffer, c)
    ensures exists k: nat :: k < |stages| && Reads(stages[k], buffer)
  {
    assert c.consumers[0] in c.consumers;
  }

  /** Accepts a buffer exactly when it is eligible, and then names its writer and its readers. */
  method CheckProducerConsumer(stages: seq<Stage>, buffer: nat) returns (c: Option<Candidate>)
    ensures c.Some? ==> Eligible(stages, buffer, c.value)
    ensures c.Some? ==> exists t :: t in stages[c.value.producer].transfers && t.destination == buffer
    ensures c.Some? ==> forall k: nat :: k in c.value.consumers ==> exists t :: t in stages[k].transfers && t.source == buffer
    ensures c.None? ==> forall x :: !Eligible(stages, buffer, x)
  {
    var roles := ScanProducersConsumers(stages, buffer);
    if roles.None? {
      return None;
    }
    var producers, consumers := roles.value.producers, roles.value.consumers;
    assert forall k: nat :: k in producers <==> k < |stages| && Writes(stages[k], buffer);
    if |producers| != 1 {
      forall x | Eligible(stages, buffer, x)
        ensures false
      {
        OneWriter(stages, buffer, x.producer);
      }
      return None;
    }
    var p := producers[0];
    assert p in producers;
    if |consumers| == 0 {
      forall x | Eligible(stages, buffer, x)
        ensures false
      {
        EligibleHasReader(stages, buffer, x);
      }
      return None;
    }
    var i := 0;
    while i < |consumers|
      invariant i <= |consumers|
      invariant forall j :: 0 <= j < i ==> p != consumers[j] && Reaches(TokenGraph(stages), p, consumers[j])
    {
      assert consumers[i] in consumers;
      var precedes := ProducerTransitivelyPrecedes(stages, p, consumers[i]);
      if !precedes {
        return None;
      }
      i := i + 1;
    }
    ReadersAscend(stages, buffer, |stages|);
    c := Some(Candidate(p, consumers));
  }
}
