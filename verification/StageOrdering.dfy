/**
 * Sorting and checking the stages of one pipeline.
 *
 * A pipeline is given by the sibling order of its stages and, for each stage, the list of stages
 * that depend on it. Lists may name a stage several times.
 */
module StageOrdering {
  import opened Sequences
  import opened Digraph

  /** The stages listed are exactly the vertices, each once. */
  ghost predicate Lists(stages: seq<nat>, g: Graph) {
    NoDup(stages) && forall v :: v in stages <==> v in g
  }

  /** Number of edges, with repetitions, from the vertices in `from` to `v`. */
  ghost function Incoming(g: Graph, from: seq<nat>, v: nat): nat
    requires forall u :: u in from ==> u in g
  {
    if from == [] then 0
    else Incoming(g, from[..|from| - 1], v) + multiset(g[from[|from| - 1]])[v]
  }

  lemma IncomingExtend(g: Graph, from: seq<nat>, i: nat, v: nat)
    requires i < |from| && forall u :: u in from ==> u in g
    ensures Incoming(g, from[..i + 1], v) == Incoming(g, from[..i], v) + multiset(g[from[i]])[v]
  {
    assert from[..i + 1][..i] == from[..i];
  }

  lemma {:induction false} IncomingWithout(g: Graph, from: seq<nat>, k: nat, v: nat)
    requires k < |from| && forall u :: u in from ==> u in g
    ensures Incoming(g, from, v) == Incoming(g, from[..k] + from[k + 1..], v) + multiset(g[from[k]])[v]
  {
    var last := |from| - 1;
    if k == last {
      assert from[..k] + from[k + 1..] == from[..last];
    } else {
      IncomingWithout(g, from[..last], k, v);
      assert from[..last][..k] == from[..k];
      assert (from[..k] + from[k + 1..])[..last - 1] == from[..last][..k] + from[..last][k + 1..];
    }
  }

  lemma {:induction false} IncomingZero(g: Graph, from: seq<nat>, v: nat)
    requires forall u :: u in from ==> u in g
    ensures Incoming(g, from, v) == 0 <==> forall u :: u in from ==> v !in g[u]
  {
    if from != [] {
      var last := |from| - 1;
      IncomingZero(g, from[..last], v);
      assert from == from[..last] + [from[last]];
    }
  }

  function Get(inDegree: map<nat, int>, v: nat): int {
    if v in inDegree then inDegree[v] else 0
  }

  /** Adds one stage's edges to the in-degrees. */
  method CountDependents(inDegree: map<nat, int>, dependents: seq<nat>) returns (inDegree': map<nat, int>)
    ensures forall v :: v in inDegree' <==> v in inDegree || v in dependents
    ensures forall v :: v in inDegree' ==> inDegree'[v] == Get(inDegree, v) + multiset(dependents)[v]
  {
    inDegree' := inDegree;
    for j := 0 to |dependents|
      invariant forall v :: v in inDegree' <==> v in inDegree || v in dependents[..j]
      invariant forall v :: v in inDegree' ==> inDegree'[v] == Get(inDegree, v) + multiset(dependents[..j])[v]
    {
      assert dependents[..j + 1] == dependents[..j] + [dependents[j]];
      inDegree' := inDegree'[dependents[j] := Get(inDegree', dependents[j]) + 1];
    }
    assert dependents[..|dependents|] == dependents;
  }

  /** The edges that start at the listed stages. */
  ghost function From(stages: seq<nat>, g: Graph): (local: Graph)
    requires forall u :: u in stages ==> u in g
    ensures forall u :: u in local <==> u in stages
    ensures forall u :: u in stages ==> local[u] == g[u]
  {
    map u | u in stages :: g[u]
  }

  /** All dependents of the listed stages are listed. */
  ghost predicate AmongThemselves(stages: seq<nat>, g: Graph)
    requires forall u :: u in stages ==> u in g
  {
    forall u, v :: u in stages && v in g[u] ==> v in stages
  }

  /** Fills the in-degree map; dependents that are not listed get an entry of their own. */
  method CountIncoming(stages: seq<nat>, g: Graph) returns (inDegree: map<nat, int>)
    requires forall u :: u in stages ==> u in g
    ensures forall v :: v in inDegree <==> v in stages || Incoming(From(stages, g), stages, v) > 0
    ensures forall v :: v in inDegree ==> inDegree[v] == Incoming(From(stages, g), stages, v)
  {
    ghost var local := From(stages, g);
    inDegree := map v | v in stages :: 0;
    for i := 0 to |stages|
      invariant forall v :: v in inDegree <==> v in stages || Incoming(local, stages[..i], v) > 0
      invariant forall v :: v in inDegree ==> inDegree[v] == Incoming(local, stages[..i], v)
    {
      var u := stages[i];
      assert u in stages;
      ghost var before := inDegree;
      inDegree := CountDependents(inDegree, g[u]);
      forall v
        ensures v in inDegree <==> v in stages || Incoming(local, stages[..i + 1], v) > 0
        ensures v in inDegree ==> inDegree[v] == Incoming(local, stages[..i + 1], v)
      {
        IncomingExtend(local, stages, i, v);
      }
    }
    assert stages[..|stages|] == stages;
  }

  /** Of the stages with a count, the queue and the sorted list hold those whose count is used up, once each. */
  ghost predicate Waiting(inDegree: map<nat, int>, counted: set<nat>, sorted: seq<nat>, queue: seq<nat>) {
    && NoDup(sorted + queue)
    && (forall v :: v in sorted + queue ==> v in counted)
    && (forall v :: v in counted ==> v in inDegree && (inDegree[v] <= 0 <==> v in sorted + queue))
    && forall v :: v !in counted ==> Get(inDegree, v) <= 0
  }

  /** Removes the edges that leave one sorted stage; a stage whose count reaches zero joins the queue. */
  method Release(inDegree: map<nat, int>, dependents: seq<nat>, ghost counted: set<nat>, sorted: seq<nat>, queue: seq<nat>)
    returns (inDegree': map<nat, int>, queue': seq<nat>)
    requires Waiting(inDegree, counted, sorted, queue)
    ensures Waiting(inDegree', counted, sorted, queue') && queue <= queue'
    ensures forall v :: Get(inDegree', v) == Get(inDegree, v) - multiset(dependents)[v]
  {
    inDegree', queue' := inDegree, queue;
    for j := 0 to |dependents|
      invariant forall v :: Get(inDegree', v) == Get(inDegree, v) - multiset(dependents[..j])[v]
      invariant Waiting(inDegree', counted, sorted, queue') && queue <= queue'
    {
      var v := dependents[j];
      assert dependents[..j + 1] == dependents[..j] + [v];
      ghost var before := inDegree';
      inDegree' := inDegree'[v := Get(inDegree', v) - 1];
      if inDegree'[v] == 0 {
        ReleasedJoins(before, counted, sorted, queue', v);
        queue' := queue' + [v];
      }
    }
    assert dependents[..|dependents|] == dependents;
  }

  lemma ReleasedJoins(inDegree: map<nat, int>, counted: set<nat>, sorted: seq<nat>, queue: seq<nat>, v: nat)
    requires Waiting(inDegree, counted, sorted, queue) && Get(inDegree, v) == 1
    ensures Waiting(inDegree[v := 0], counted, sorted, queue + [v])
  {
    assert sorted + (queue + [v]) == (sorted + queue) + [v];
  }

  /** `rest` are the listed stages that have not been sorted. */
  ghost predicate LeftOver(stages: seq<nat>, sorted: seq<nat>, rest: seq<nat>) {
    NoDup(rest) && forall v :: v in rest <==> v in stages && v !in sorted
  }

  /** No count is higher than the edges that leave the stages in `rest` account for. */
  ghost predicate Covered(local: Graph, inDegree: map<nat, int>, counted: set<nat>, rest: seq<nat>) {
    && (forall u :: u in rest ==> u in local)
    && forall v :: v in counted ==> Get(inDegree, v) <= Incoming(local, rest, v)
  }

  /**
   * Where all dependents are listed: the counts are those of the edges leaving `rest`, and every sorted
   * stage has all its predecessors sorted before it.
   */
  ghost predicate Progress(local: Graph, inDegree: map<nat, int>, sorted: seq<nat>, rest: seq<nat>) {
    && Lists(sorted + rest, local) && OrderedPrefix(local, sorted)
    && forall v :: v in local ==> Get(inDegree, v) == Incoming(local, rest, v)
  }

  /** What holds each time the worklist is inspected. */
  ghost predicate Sorting(stages: seq<nat>, local: Graph, inDegree: map<nat, int>, counted: set<nat>,
      sorted: seq<nat>, queue: seq<nat>, rest: seq<nat>) {
    && Waiting(inDegree, counted, sorted, queue) && LeftOver(stages, sorted, rest) && Covered(local, inDegree, counted, rest)
    && (Closed(local) ==> counted == local.Keys && Progress(local, inDegree, sorted, rest))
  }

  /** A queued stage has all its predecessors sorted. */
  lemma QueuedIsReady(local: Graph, inDegree: map<nat, int>, sorted: seq<nat>, queue: seq<nat>, rest: seq<nat>)
    requires Waiting(inDegree, local.Keys, sorted, queue) && Progress(local, inDegree, sorted, rest) && queue != []
    ensures queue[0] in rest && queue[0] !in sorted
    ensures forall u :: Edge(local, u, queue[0]) ==> u in sorted
  {
    var v := queue[0];
    NoDupSplit(sorted, queue, 0);
    assert v in sorted + queue;
    assert v in sorted + rest;
    IncomingZero(local, rest, v);
    forall u | Edge(local, u, v)
      ensures u in sorted
    {
      assert u in sorted + rest;
    }
  }

  /** Without the stage taken from the queue. */
  ghost function Without(rest: seq<nat>, v: nat): seq<nat> {
    if v in rest then Remove(rest, Place(rest, v)) else rest
  }

  lemma WithoutOne(rest: seq<nat>, v: nat)
    requires NoDup(rest)
    ensures NoDup(Without(rest, v)) && forall u :: u in Without(rest, v) <==> u in rest && u != v
  {
    if v in rest {
      RemovedKeepsNoDup(rest, Place(rest, v));
      RemovedMembers(rest, Place(rest, v));
    }
  }

  lemma RemovedKeepsNoDup(s: seq<nat>, k: nat)
    requires NoDup(s) && k < |s|
    ensures NoDup(Remove(s, k))
  {
    var r := Remove(s, k);
    assert forall i :: 0 <= i < |r| ==> r[i] == s[if i < k then i else i + 1];
  }

  lemma RemovedMembers(s: seq<nat>, k: nat)
    requires NoDup(s) && k < |s|
    ensures forall u :: u in Remove(s, k) <==> u in s && u != s[k]
  {
    var a, b := s[..k], s[k + 1..];
    assert s == a + [s[k]] + b;
    assert forall i :: 0 <= i < |a| ==> a[i] == s[i] != s[k];
    assert forall i :: 0 <= i < |b| ==> b[i] == s[k + 1 + i] != s[k];
  }

  lemma LeftWithout(stages: seq<nat>, sorted: seq<nat>, rest: seq<nat>, v: nat)
    requires LeftOver(stages, sorted, rest)
    ensures LeftOver(stages, sorted + [v], Without(rest, v))
  {
    WithoutOne(rest, v);
  }

  /** The edges about to be removed are those of the stage taken. */
  lemma TakenEdges(local: Graph, rest: seq<nat>, v: nat, w: nat)
    requires forall u :: u in rest ==> u in local
    ensures forall u :: u in Without(rest, v) ==> u in local
    ensures v in rest ==> Incoming(local, rest, w) == Incoming(local, Without(rest, v), w) + multiset(local[v])[w]
  {
    if v in rest {
      var k := Place(rest, v);
      assert forall i :: 0 <= i < |Without(rest, v)| ==> Without(rest, v)[i] == rest[if i < k then i else i + 1];
      IncomingWithout(local, rest, k, w);
    }
  }

  lemma TakeFirst(inDegree: map<nat, int>, counted: set<nat>, sorted: seq<nat>, queue: seq<nat>)
    requires Waiting(inDegree, counted, sorted, queue) && queue != []
    ensures Waiting(inDegree, counted, sorted + [queue[0]], queue[1..])
  {
    assert sorted + [queue[0]] + queue[1..] == sorted + queue;
  }

  lemma StillListed(g: Graph, sorted: seq<nat>, rest: seq<nat>, k: nat)
    requires Lists(sorted + rest, g) && k < |rest|
    ensures Lists(sorted + [rest[k]] + (rest[..k] + rest[k + 1..]), g)
  {
    var before := sorted + rest;
    var after := sorted + [rest[k]] + (rest[..k] + rest[k + 1..]);
    var m := |sorted|;
    assert forall i :: 0 <= i < m ==> after[i] == before[i];
    assert after[m] == before[m + k];
    assert forall i :: m < i <= m + k ==> after[i] == before[i - 1];
    assert forall i :: m + k < i < |after| ==> after[i] == before[i];
    forall v
      ensures v in after <==> v in g
    {
      if v in before {
        var i :| 0 <= i < |before| && before[i] == v;
        assert v == after[if i < m then i else if i < m + k then i + 1 else if i == m + k then m else i];
      }
    }
  }

  lemma ProgressNext(local: Graph, inDegree: map<nat, int>, inDegree': map<nat, int>, sorted: seq<nat>, queue: seq<nat>, rest: seq<nat>)
    requires Waiting(inDegree, local.Keys, sorted, queue) && Progress(local, inDegree, sorted, rest) && Closed(local) && queue != []
    requires queue[0] in local ==> forall v :: Get(inDegree', v) == Get(inDegree, v) - multiset(local[queue[0]])[v]
    ensures Progress(local, inDegree', sorted + [queue[0]], Without(rest, queue[0]))
  {
    var v := queue[0];
    QueuedIsReady(local, inDegree, sorted, queue, rest);
    assert v in sorted + rest;
    var k := Place(rest, v);
    StillListed(local, sorted, rest, k);
    ExtendPrefix(local, sorted, v);
    forall w | w in local ensures Get(inDegree', w) == Incoming(local, Without(rest, v), w) {
      assert forall u :: u in rest ==> u in sorted + rest;
      TakenEdges(local, rest, v, w);
    }
  }

  /** One pass of the main loop. */
  lemma SortingNext(stages: seq<nat>, g: Graph, inDegree: map<nat, int>, inDegree': map<nat, int>, counted: set<nat>,
      sorted: seq<nat>, queue: seq<nat>, queue': seq<nat>, rest: seq<nat>)
    requires (forall u :: u in stages ==> u in g) && queue != [] && queue[0] in g
    requires Sorting(stages, From(stages, g), inDegree, counted, sorted, queue, rest)
    requires Waiting(inDegree', counted, sorted + [queue[0]], queue')
    requires forall v :: Get(inDegree', v) == Get(inDegree, v) - multiset(g[queue[0]])[v]
    ensures Sorting(stages, From(stages, g), inDegree', counted, sorted + [queue[0]], queue', Without(rest, queue[0]))
  {
    var local, v := From(stages, g), queue[0];
    LeftWithout(stages, sorted, rest, v);
    forall w | w in counted ensures Get(inDegree', w) <= Incoming(local, Without(rest, v), w) {
      TakenEdges(local, rest, v, w);
    }
    TakenEdges(local, rest, v, 0);
    if Closed(local) {
      ProgressNext(local, inDegree, inDegree', sorted, queue, rest);
    }
  }

  /** When the queue is empty, the stages that are left are stuck on a cycle. */
  lemma LeftIsStuck(stages: seq<nat>, local: Graph, inDegree: map<nat, int>, counted: set<nat>, sorted: seq<nat>, rest: seq<nat>)
    requires Sorting(stages, local, inDegree, counted, sorted, [], rest) && (forall v :: v in stages ==> v in counted)
    ensures rest != [] ==> Cyclic(local)
  {
    assert sorted + [] == sorted;
    if rest != [] {
      forall v | v in Elems(rest)
        ensures HasPredecessorIn(local, Elems(rest), v)
      {
        IncomingZero(local, rest, v);
        var u :| u in rest && v in local[u];
        assert u in Elems(rest) && Edge(local, u, v);
      }
      assert rest[0] in Elems(rest);
      StuckSetHasCycle(local, Elems(rest));
    }
  }

  /** Without a cycle everything that has a count has been sorted. */
  lemma CountedAreSorted(stages: seq<nat>, local: Graph, inDegree: map<nat, int>, counted: set<nat>, sorted: seq<nat>, rest: seq<nat>)
    requires Sorting(stages, local, inDegree, counted, sorted, [], rest) && rest == []
    ensures Elems(sorted) == counted
  {
    assert sorted + [] == sorted;
  }

  /** With all dependents listed the sorted list is in order, and there is no cycle, once nothing is left. */
  lemma NothingLeft(stages: seq<nat>, local: Graph, inDegree: map<nat, int>, counted: set<nat>, sorted: seq<nat>, rest: seq<nat>)
    requires Sorting(stages, local, inDegree, counted, sorted, [], rest) && Closed(local) && rest == []
    ensures TopologicalOrder(local, sorted) && !Cyclic(local)
  {
    assert sorted + rest == sorted;
    FullPrefixIsOrder(local, sorted);
    OrderedIsAcyclic(local, sorted);
  }

  /** All stages whose in-degree is zero, in sibling order. */
  method InitialQueue(stages: seq<nat>, inDegree: map<nat, int>) returns (queue: seq<nat>)
    requires NoDup(stages) && (forall v :: v in stages ==> v in inDegree)
    requires forall v :: v in inDegree ==> inDegree[v] >= 0 && (inDegree[v] == 0 ==> v in stages)
    ensures Waiting(inDegree, inDegree.Keys, [], queue)
  {
    queue := [];
    for i := 0 to |stages|
      invariant NoDup(queue)
      invariant forall v :: v in queue <==> v in stages[..i] && inDegree[v] == 0
    {
      assert stages[..i + 1] == stages[..i] + [stages[i]];
      assert stages[i] in stages;
      if inDegree[stages[i]] == 0 {
        queue := queue + [stages[i]];
      }
    }
    assert stages[..|stages|] == stages;
    assert [] + queue == queue;
  }

  lemma SortingStarts(stages: seq<nat>, g: Graph, inDegree: map<nat, int>, queue: seq<nat>)
    requires NoDup(stages) && (forall u :: u in stages ==> u in g)
    requires forall v :: v in inDegree <==> v in stages || Incoming(From(stages, g), stages, v) > 0
    requires forall v :: v in inDegree ==> inDegree[v] == Incoming(From(stages, g), stages, v)
    requires Waiting(inDegree, inDegree.Keys, [], queue)
    ensures Sorting(stages, From(stages, g), inDegree, inDegree.Keys, [], queue, stages)
  {
    var local := From(stages, g);
    assert [] + stages == stages;
    if Closed(local) {
      forall v ensures v in inDegree <==> v in local {
        IncomingZero(local, stages, v);
      }
      assert inDegree.Keys == local.Keys;
    }
  }

  lemma CountedIsBounded(counted: set<nat>, sorted: seq<nat>, v: nat)
    requires v in counted && v !in sorted
    ensures counted - Elems(sorted + [v]) < counted - Elems(sorted)
    ensures |counted - Elems(sorted + [v])| < |counted - Elems(sorted)|
  {
    assert counted - Elems(sorted + [v]) == counted - Elems(sorted) - {v};
  }

  /**
   * Kahn's algorithm. Where the dependents of the stages are stages of the list it succeeds exactly when
   * there is no cycle, and then lists every stage once with each edge going forward. On stages without a
   * cycle it succeeds exactly when that is so: a dependent elsewhere is sorted as well and counts as one
   * stage too many.
   */
  method TopologicalSortStages(stages: seq<nat>, g: Graph) returns (result: Option<seq<nat>>)
    requires NoDup(stages) && Closed(g) && forall u :: u in stages ==> u in g
    ensures result.Some? ==> NoDup(result.value) && |result.value| == |stages|
    ensures AmongThemselves(stages, g) ==>
      (result.Some? <==> !Cyclic(From(stages, g))) && (result.Some? ==> TopologicalOrder(From(stages, g), result.value))
    ensures !Cyclic(From(stages, g)) ==> (result.Some? <==> AmongThemselves(stages, g))
  {
    ghost var local := From(stages, g);
    if stages == [] {
      assert TopologicalOrder(local, []);
      OrderedIsAcyclic(local, []);
      return Some([]);
    }
    var inDegree := CountIncoming(stages, g);
    var queue := InitialQueue(stages, inDegree);
    var sorted := [];
    ghost var counted, rest := inDegree.Keys, stages;
    SortingStarts(stages, g, inDegree, queue);
    CountedExist(stages, g, inDegree);
    while queue != []
      invariant Sorting(stages, local, inDegree, counted, sorted, queue, rest)
      decreases |counted - Elems(sorted)|
    {
      var current := queue[0];
      TakeFirst(inDegree, counted, sorted, queue);
      NoDupSplit(sorted, queue, 0);
      assert current in sorted + queue;
      CountedIsBounded(counted, sorted, current);
      var fewer, longer := Release(inDegree, g[current], counted, sorted + [current], queue[1..]);
      SortingNext(stages, g, inDegree, fewer, counted, sorted, queue, longer, rest);
      sorted, inDegree, queue, rest := sorted + [current], fewer, longer, Without(rest, current);
    }
    SortVerdict(stages, g, inDegree, counted, sorted, rest);
    if |sorted| != |stages| {
      return None;
    }
    return Some(sorted);
  }

  lemma CountedExist(stages: seq<nat>, g: Graph, inDegree: map<nat, int>)
    requires Closed(g) && (forall u :: u in stages ==> u in g)
    requires forall v :: v in inDegree <==> v in stages || Incoming(From(stages, g), stages, v) > 0
    ensures forall v :: v in inDegree ==> v in g
  {
    forall v | v in inDegree ensures v in g {
      IncomingZero(From(stages, g), stages, v);
    }
  }

  /** What the length of the sorted list says. */
  lemma SortVerdict(stages: seq<nat>, g: Graph, inDegree: map<nat, int>, counted: set<nat>, sorted: seq<nat>, rest: seq<nat>)
    requires NoDup(stages) && (forall u :: u in stages ==> u in g) && Sorting(stages, From(stages, g), inDegree, counted, sorted, [], rest)
    requires forall v :: v in counted <==> v in stages || Incoming(From(stages, g), stages, v) > 0
    ensures NoDup(sorted)
    ensures AmongThemselves(stages, g) ==>
      (|sorted| == |stages| <==> !Cyclic(From(stages, g))) && (|sorted| == |stages| ==> TopologicalOrder(From(stages, g), sorted))
    ensures !Cyclic(From(stages, g)) ==> (|sorted| == |stages| <==> AmongThemselves(stages, g))
  {
    var local := From(stages, g);
    assert sorted + [] == sorted;
    LeftIsStuck(stages, local, inDegree, counted, sorted, rest);
    if AmongThemselves(stages, g) {
      SameLength(stages, sorted + rest, local);
      if rest == [] {
        NothingLeft(stages, local, inDegree, counted, sorted, rest);
      }
    } else if rest == [] {
      CountedAreSorted(stages, local, inDegree, counted, sorted, rest);
      MoreAreCounted(stages, g, counted);
      NoDupCard(sorted);
    }
  }

  lemma MoreAreCounted(stages: seq<nat>, g: Graph, counted: set<nat>)
    requires NoDup(stages) && (forall u :: u in stages ==> u in g) && !AmongThemselves(stages, g)
    requires forall v :: v in counted <==> v in stages || Incoming(From(stages, g), stages, v) > 0
    ensures |counted| > |stages|
  {
    var u, v :| u in stages && v in g[u] && v !in stages;
    IncomingZero(From(stages, g), stages, v);
    NoDupCard(stages);
    SubsetBound(Elems(stages) + {v}, counted);
  }

  lemma SameLength(a: seq<nat>, b: seq<nat>, g: Graph)
    requires Lists(a, g) && Lists(b, g)
    ensures |a| == |b|
  {
    NoDupBound(a, g.Keys);
    NoDupBound(b, g.Keys);
    NoDupCard(a);
    NoDupCard(b);
    assert Elems(a) == g.Keys == Elems(b);
  }

  /** When all stages are listed, those are all the edges there are. */
  lemma FromAll(stages: seq<nat>, g: Graph)
    requires Lists(stages, g) && Closed(g)
    ensures From(stages, g) == g && AmongThemselves(stages, g)
  {
  }

  // ---------------------------------------------------------------------------------------------
  // Linear chains
  // ---------------------------------------------------------------------------------------------

  /** The stage after place `i`, if any. */
  function After(s: seq<nat>, i: nat): seq<nat>
    requires i < |s|
  {
    if i + 1 < |s| then [s[i + 1]] else []
  }

  /** Each stage's only dependent is the next stage of the list, and the last has none. */
  ghost predicate IsChain(g: Graph, s: seq<nat>) {
    && (forall u :: u in s ==> u in g)
    && forall i {:trigger After(s, i)} :: 0 <= i < |s| ==> g[s[i]] == After(s, i)
  }

  /** How many of the first `n` stages have no predecessor among those already visited. */
  ghost function NumSources(g: Graph, s: seq<nat>, n: nat): nat
    requires n <= |s| && forall u :: u in s ==> u in g
  {
    if n == 0 then 0
    else NumSources(g, s, n - 1) + if Incoming(g, s[..n], s[n - 1]) == 0 then 1 else 0
  }

  /** How many of the first `n` stages have no dependent. */
  ghost function NumSinks(g: Graph, s: seq<nat>, n: nat): nat
    requires n <= |s| && forall u :: u in s ==> u in g
  {
    if n == 0 then 0 else NumSinks(g, s, n - 1) + if g[s[n - 1]] == [] then 1 else 0
  }

  /** Stage `j` has at most one dependent and, among the stages up to it, at most one predecessor. */
  ghost predicate Narrow(g: Graph, s: seq<nat>, j: nat)
    requires j < |s| && forall u :: u in s ==> u in g
  {
    |g[s[j]]| <= 1 && Incoming(g, s[..j + 1], s[j]) <= 1
  }

  lemma {:induction false} IncomingOne(g: Graph, s: seq<nat>, i: nat, v: nat)
    requires i < |s| && (forall u :: u in s ==> u in g) && v in g[s[i]]
    ensures Incoming(g, s, v) >= 1
  {
    if i < |s| - 1 {
      IncomingOne(g, s[..|s| - 1], i, v);
    }
  }

  lemma {:induction false} IncomingTwo(g: Graph, s: seq<nat>, i: nat, j: nat, v: nat)
    requires i < j < |s| && forall u :: u in s ==> u in g
    requires v in g[s[i]] && v in g[s[j]]
    ensures Incoming(g, s, v) >= 2
  {
    if j < |s| - 1 {
      IncomingTwo(g, s[..|s| - 1], i, j, v);
    } else {
      IncomingOne(g, s[..|s| - 1], i, v);
    }
  }

  /** In a chain the stages up to `s[j]` reach it once, or not at all when it is the first. */
  lemma {:induction false} ChainIncoming(g: Graph, s: seq<nat>, n: nat, j: nat)
    requires IsChain(g, s) && NoDup(s) && n <= |s| && j < |s|
    ensures Incoming(g, s[..n], s[j]) == if 1 <= j <= n then 1 else 0
  {
    if n > 0 {
      ChainIncoming(g, s, n - 1, j);
      IncomingExtend(g, s, n - 1, s[j]);
      assert g[s[n - 1]] == After(s, n - 1);
    }
  }

  lemma {:induction false} ChainTotals(g: Graph, s: seq<nat>, n: nat)
    requires IsChain(g, s) && NoDup(s) && n <= |s|
    ensures NumSources(g, s, n) == if n == 0 then 0 else 1
    ensures NumSinks(g, s, n) == if n == |s| && n > 0 then 1 else 0
  {
    if n > 0 {
      ChainTotals(g, s, n - 1);
      ChainIncoming(g, s, n, n - 1);
      assert g[s[n - 1]] == After(s, n - 1);
    }
  }

  lemma ChainIsNarrow(g: Graph, s: seq<nat>, j: nat)
    requires IsChain(g, s) && NoDup(s) && j < |s|
    ensures Narrow(g, s, j)
  {
    assert g[s[j]] == After(s, j);
    ChainIncoming(g, s, j + 1, j);
  }

  lemma {:induction false} NoSinksBefore(g: Graph, s: seq<nat>, n: nat, j: nat)
    requires j < n <= |s| && (forall u :: u in s ==> u in g) && NumSinks(g, s, n) == 0
    ensures g[s[j]] != []
  {
    if j < n - 1 {
      NoSinksBefore(g, s, n - 1, j);
    }
  }

  lemma LastIsSink(g: Graph, s: seq<nat>)
    requires TopologicalOrder(g, s) && Closed(g) && s != []
    ensures s[|s| - 1] in g && g[s[|s| - 1]] == []
  {
    var last := s[|s| - 1];
    assert last in Elems(s);
    if g[last] != [] {
      var v := g[last][0];
      var listed := v in Elems(s);
      assert Edge(g, last, v);
    }
  }

  /** Counting down from the end: each stage but the last needs a dependent, and only the next one is free. */
  lemma {:induction false} ChainFromEnd(g: Graph, s: seq<nat>, i: nat)
    requires TopologicalOrder(g, s) && Closed(g) && i < |s| && forall u :: u in s ==> u in g
    requires forall j :: 0 <= j < |s| ==> Narrow(g, s, j)
    requires forall j :: 0 <= j < |s| - 1 ==> g[s[j]] != []
    ensures forall j {:trigger After(s, j)} :: i <= j < |s| ==> g[s[j]] == After(s, j)
    decreases |s| - i
  {
    if i + 1 < |s| {
      ChainFromEnd(g, s, i + 1);
      var v := g[s[i]][0];
      assert Edge(g, s[i], v) && v in Elems(s);
      var k :| 0 <= k < |s| && s[k] == v;
      assert Narrow(g, s, k);
      if k > i + 1 {
        assert g[s[k - 1]] == After(s, k - 1);
        IncomingTwo(g, s[..k + 1], i, k - 1, v);
      }
      assert Narrow(g, s, i) && g[s[i]] == [v];
    } else {
      LastIsSink(g, s);
    }
  }

  lemma ChainVerdict(g: Graph, s: seq<nat>)
    requires TopologicalOrder(g, s) && Closed(g) && s != [] && forall u :: u in s ==> u in g
    requires forall j :: 0 <= j < |s| ==> Narrow(g, s, j)
    ensures IsChain(g, s) <==> NumSources(g, s, |s|) == 1 && NumSinks(g, s, |s|) == 1
  {
    if IsChain(g, s) {
      ChainTotals(g, s, |s|);
    }
    if NumSinks(g, s, |s|) == 1 {
      LastIsSink(g, s);
      forall j | 0 <= j < |s| - 1
        ensures g[s[j]] != []
      {
        NoSinksBefore(g, s, |s| - 1, j);
      }
      ChainFromEnd(g, s, 0);
    }
  }

  lemma VisitedCounts(g: Graph, s: seq<nat>, n: nat, count: map<nat, int>, count': map<nat, int>)
    requires n < |s| && (forall u :: u in s ==> u in g)
    requires count.Keys == count'.Keys == g.Keys
    requires forall v :: v in g ==> count[v] == Incoming(g, s[..n], v)
    requires forall v :: v in g ==> count'[v] == count[v] + multiset(g[s[n]])[v]
    ensures forall v :: v in g ==> count'[v] == Incoming(g, s[..n + 1], v)
  {
    forall v | v in g
      ensures count'[v] == Incoming(g, s[..n + 1], v)
    {
      IncomingExtend(g, s, n, v);
    }
  }

  /** The counting pass; it gives up at the first stage that branches or merges. */
  method SurveyChain(s: seq<nat>, g: Graph) returns (ok: bool, sources: nat, sinks: nat)
    requires NoDup(s) && Closed(g) && forall u :: u in s ==> u in g
    ensures ok ==> forall j :: 0 <= j < |s| ==> Narrow(g, s, j)
    ensures ok ==> sources == NumSources(g, s, |s|) && sinks == NumSinks(g, s, |s|)
    ensures !ok ==> !IsChain(g, s)
  {
    var count: map<nat, int> := map v | v in g :: 0;
    sources, sinks := 0, 0;
    for n := 0 to |s|
      invariant count.Keys == g.Keys && forall v :: v in g ==> count[v] == Incoming(g, s[..n], v)
      invariant forall j :: 0 <= j < n ==> Narrow(g, s, j)
      invariant sources == NumSources(g, s, n) && sinks == NumSinks(g, s, n)
    {
      var stage := s[n];
      var dependents := g[stage];
      if |dependents| > 1 {
        BroadIsNoChain(g, s, n);
        return false, sources, sinks;
      }
      ghost var before := count;
      count := CountDependents(count, dependents);
      VisitedCounts(g, s, n, before, count);
      if count[stage] == 0 {
        sources := sources + 1;
      }
      if dependents == [] {
        sinks := sinks + 1;
      }
      if count[stage] > 1 {
        BroadIsNoChain(g, s, n);
        return false, sources, sinks;
      }
    }
    ok := true;
  }

  /** Accepts a sorted list exactly when it is empty or one chain from its first stage to its last. */
  method ValidateLinearChain(s: seq<nat>, g: Graph) returns (ok: bool)
    requires TopologicalOrder(g, s) && Closed(g)
    ensures ok <==> s == [] || IsChain(g, s)
  {
    if s == [] {
      return true;
    }
    assert forall u :: u in s ==> u in Elems(s);
    var sources, sinks;
    ok, sources, sinks := SurveyChain(s, g);
    if ok {
      ChainVerdict(g, s);
      ok := sources == 1 && sinks == 1;
    }
  }

  lemma BroadIsNoChain(g: Graph, s: seq<nat>, n: nat)
    requires NoDup(s) && n < |s| && (forall u :: u in s ==> u in g) && !Narrow(g, s, n)
    ensures !IsChain(g, s)
  {
    if IsChain(g, s) {
      ChainIsNarrow(g, s, n);
    }
  }

  /** In any order of a chain the stage at place `i` has at least `i` stages before it ... */
  lemma {:induction false} ChainAtLeast(g: Graph, chain: seq<nat>, other: seq<nat>, i: nat, k: nat)
    requires IsChain(g, chain) && TopologicalOrder(g, chain) && TopologicalOrder(g, other)
    requires i < |chain| && k < |other| && other[k] == chain[i]
    ensures k >= i
  {
    if i > 0 {
      assert g[chain[i - 1]] == After(chain, i - 1);
      assert chain[i - 1] in Elems(chain);
      var j :| 0 <= j < |other| && other[j] == chain[i - 1];
      assert Edge(g, other[j], other[k]);
      ChainAtLeast(g, chain, other, i - 1, j);
    }
  }

  /** ... and at least as many after it as in the chain. */
  lemma {:induction false} ChainAtMost(g: Graph, chain: seq<nat>, other: seq<nat>, i: nat, k: nat)
    requires IsChain(g, chain) && TopologicalOrder(g, chain) && TopologicalOrder(g, other)
    requires |chain| == |other| && i < |chain| && k < |other| && other[k] == chain[i]
    ensures k <= i
    decreases |chain| - i
  {
    if i + 1 < |chain| {
      assert g[chain[i]] == After(chain, i);
      assert chain[i + 1] in Elems(chain);
      var j :| 0 <= j < |other| && other[j] == chain[i + 1];
      assert Edge(g, other[k], other[j]);
      ChainAtMost(g, chain, other, i + 1, j);
    }
  }

  /** A chain has only one topological order. */
  lemma ChainOrderIsUnique(g: Graph, chain: seq<nat>, other: seq<nat>)
    requires IsChain(g, chain) && TopologicalOrder(g, chain) && TopologicalOrder(g, other)
    ensures other == chain
  {
    NoDupCard(chain);
    NoDupCard(other);
    assert Elems(chain) == Elems(other);
    forall i | 0 <= i < |chain|
      ensures other[i] == chain[i]
    {
      assert chain[i] in Elems(other);
      var k :| 0 <= k < |other| && other[k] == chain[i];
      ChainAtLeast(g, chain, other, i, k);
      ChainAtMost(g, chain, other, i, k);
    }
  }
}
