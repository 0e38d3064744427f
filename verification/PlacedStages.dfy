/**
 * Which paths place every stage of the chain: between two compute stages each resource has to be looked
 * up at least as often as stages there have it.
 */
module PlacedStages {
  import opened Sequences
  import opened Digraph
  import opened PathExpansion
  import opened PathPlacement

  // ---------------------------------------------------------------------------------------------
  // What is looked up along a path
  // ---------------------------------------------------------------------------------------------

  /** The resource for which a stage is looked up at this node, if any. */
  function Wanted(path: seq<PathNode>, i: nat): Option<nat>
    requires i < |path|
  {
    match path[i].kind
    case Memory => Some(path[i].resource)
    case LoadStore => if StoresRight(path, i) then Some(path[i + 1].resource) else None
    case Compute => None
  }

  /** A memory and what moves data to or from it are passed together. */
  function After(path: seq<PathNode>, i: nat): (next: nat)
    requires i < |path|
    ensures i < next <= |path|
  {
    if (path[i].kind == Memory && MovesRight(path, i)) || (path[i].kind == LoadStore && StoresRight(path, i)) then i + 2 else i + 1
  }

  /** How often the resource is looked up from place `i` on, before what computes next. */
  function Lookups(path: seq<PathNode>, i: nat, resource: nat): nat
    requires i <= |path|
    decreases |path| - i
  {
    if i == |path| || path[i].kind == Compute then 0
    else (if Wanted(path, i) == Some(resource) then 1 else 0) + Lookups(path, After(path, i), resource)
  }

  /** Where the walk from place `i` on meets what computes next, or ends. */
  function NextCompute(path: seq<PathNode>, i: nat): (e: nat)
    requires i <= |path|
    ensures i <= e <= |path| && (e < |path| ==> path[e].kind == Compute)
    decreases |path| - i
  {
    if i == |path| || path[i].kind == Compute then i else NextCompute(path, After(path, i))
  }

  // ---------------------------------------------------------------------------------------------
  // Stages that have not been placed
  // ---------------------------------------------------------------------------------------------

  ghost predicate Known(sorted: seq<nat>, info: map<nat, Info>) {
    NoDup(sorted) && forall s :: s in sorted ==> s in info && info[s].resource.Some?
  }

  /** The stages with this resource among those from place `k` to place `end` of the chain that have not been placed. */
  ghost function Waiting(sorted: seq<nat>, info: map<nat, Info>, placed: set<nat>, resource: nat, k: nat, end: nat): nat
    requires Known(sorted, info) && end <= |sorted|
    decreases end - k
  {
    if k >= end then 0
    else
      (if sorted[k] !in placed && info[sorted[k]].resource == Some(resource) then 1 else 0)
      + Waiting(sorted, info, placed, resource, k + 1, end)
  }

  /** All stages from place `k` to place `end` have been placed. */
  ghost predicate AllPlaced(sorted: seq<nat>, placed: set<nat>, k: nat, end: nat)
    requires end <= |sorted|
  {
    forall j :: k <= j < end ==> sorted[j] in placed
  }

  ghost predicate NoneLeft(sorted: seq<nat>, info: map<nat, Info>, placed: set<nat>, k: nat, end: nat)
    requires Known(sorted, info) && end <= |sorted|
  {
    forall r: nat :: Waiting(sorted, info, placed, r, k, end) == 0
  }

  lemma {:induction false} NoneWaiting(sorted: seq<nat>, info: map<nat, Info>, placed: set<nat>, k: nat, end: nat)
    requires Known(sorted, info) && end <= |sorted|
    ensures AllPlaced(sorted, placed, k, end) <==> NoneLeft(sorted, info, placed, k, end)
    decreases end - k
  {
    if k < end {
      var resource := info[sorted[k]].resource.value;
      NoneWaiting(sorted, info, placed, k + 1, end);
      if AllPlaced(sorted, placed, k, end) {
        assert AllPlaced(sorted, placed, k + 1, end);
        forall r: nat ensures Waiting(sorted, info, placed, r, k, end) == 0 {
          assert Waiting(sorted, info, placed, r, k + 1, end) == 0;
        }
      } else if sorted[k] !in placed {
        assert Waiting(sorted, info, placed, resource, k, end) > 0;
      } else {
        assert !AllPlaced(sorted, placed, k + 1, end);
        var r: nat :| Waiting(sorted, info, placed, r, k + 1, end) != 0;
        assert Waiting(sorted, info, placed, r, k, end) != 0;
      }
    }
  }

  /** What is placed elsewhere does not count. */
  lemma {:induction false} WaitingElsewhere(sorted: seq<nat>, info: map<nat, Info>, placed: set<nat>, s: nat, resource: nat, k: nat, end: nat)
    requires Known(sorted, info) && end <= |sorted|
    requires forall j :: k <= j < end && sorted[j] == s ==> info[s].resource != Some(resource)
    ensures Waiting(sorted, info, placed + {s}, resource, k, end) == Waiting(sorted, info, placed, resource, k, end)
    decreases end - k
  {
    if k < end {
      WaitingElsewhere(sorted, info, placed, s, resource, k + 1, end);
    }
  }

  /** The walk has not changed the resources of the stages of the chain. */
  ghost predicate SameResources(sorted: seq<nat>, info: map<nat, Info>, p: Placing) {
    && Lookable(sorted, p)
    && forall s :: s in sorted ==> s in info && s < p.nextId && p.info[s].resource == info[s].resource
  }

  /** A lookup finds the first stage that waits; then one less does. */
  lemma {:induction false} FoundFrom(sorted: seq<nat>, info: map<nat, Info>, p: Placing, resource: nat, k: nat)
    requires Known(sorted, info) && SameResources(sorted, info, p)
    ensures var found := StageFrom(sorted, p, resource, k);
      && (found.None? <==> Waiting(sorted, info, p.visited, resource, k, p.end) == 0)
      && (found.Some? ==>
        && (exists j :: k <= j < p.end && sorted[j] == found.value)
        && Waiting(sorted, info, p.visited + {found.value}, resource, k, p.end) + 1 == Waiting(sorted, info, p.visited, resource, k, p.end))
    decreases p.end - k
  {
    if k < p.end {
      if sorted[k] !in p.visited && p.info[sorted[k]].resource == Some(resource) {
        WaitingElsewhere(sorted, info, p.visited, sorted[k], resource, k + 1, p.end);
      } else {
        FoundFrom(sorted, info, p, resource, k + 1);
      }
    }
  }

  // ---------------------------------------------------------------------------------------------
  // From one compute stage to the next
  // ---------------------------------------------------------------------------------------------

  /** What has been placed after a lookup. */
  ghost function PlacedAfter(sorted: seq<nat>, p: Placing, wanted: Option<nat>): set<nat>
    requires Lookable(sorted, p)
  {
    if wanted.Some? && StageFor(sorted, p, wanted.value).Some? then p.visited + {StageFor(sorted, p, wanted.value).value} else p.visited
  }

  function Less(a: nat, b: nat): nat {
    if b >= a then 0 else a - b
  }

  /** The stages outside the stretch are as they were. */
  ghost predicate SameOutside(sorted: seq<nat>, before: set<nat>, after: set<nat>, begin: nat, end: nat) {
    forall j :: 0 <= j < |sorted| && (j < begin || j >= end) ==> (sorted[j] in after <==> sorted[j] in before)
  }

  lemma ServedLooksUp(path: seq<PathNode>, i: nat, sorted: seq<nat>, anchors: seq<nat>, info: map<nat, Info>, p: Placing)
    requires i < |path| && path[i].kind != Compute && SameResources(sorted, info, p) && forall a :: a in anchors ==> a < |sorted|
    requires Served(path, i, sorted, anchors, p).Some?
    ensures var r := Served(path, i, sorted, anchors, p).value;
      && r.next == After(path, i) && SameResources(sorted, info, r.placing)
      && r.placing.visited == PlacedAfter(sorted, p, Wanted(path, i))
      && r.placing.begin == p.begin && r.placing.end == p.end && r.placing.cursor == p.cursor
  {
  }

  lemma LookupPlacesOne(sorted: seq<nat>, info: map<nat, Info>, p: Placing, wanted: Option<nat>, resource: nat)
    requires Known(sorted, info) && SameResources(sorted, info, p)
    ensures var placed := PlacedAfter(sorted, p, wanted);
      && Waiting(sorted, info, placed, resource, p.begin, p.end)
        == Less(Waiting(sorted, info, p.visited, resource, p.begin, p.end), if wanted == Some(resource) then 1 else 0)
      && SameOutside(sorted, p.visited, placed, p.begin, p.end)
  {
    if wanted.Some? {
      FoundFrom(sorted, info, p, wanted.value, p.begin);
      if StageFor(sorted, p, wanted.value).Some? && wanted.value != resource {
        WaitingElsewhere(sorted, info, p.visited, StageFor(sorted, p, wanted.value).value, resource, p.begin, p.end);
      }
    }
  }

  /** The walk from place `i` up to what computes next. */
  ghost function Stretch(path: seq<PathNode>, i: nat, sorted: seq<nat>, anchors: seq<nat>, p: Placing): (r: Option<Placing>)
    requires i <= |path| && Lookable(sorted, p) && forall a :: a in anchors ==> a < |sorted|
    ensures r.Some? ==> Lookable(sorted, r.value)
    decreases |path| - i
  {
    if i == |path| || path[i].kind == Compute then Some(p)
    else
      match Served(path, i, sorted, anchors, p)
      case None => None
      case Some(r) => Stretch(path, r.next, sorted, anchors, r.placing)
  }

  lemma {:induction false} WalkedByStretch(path: seq<PathNode>, i: nat, sorted: seq<nat>, anchors: seq<nat>, info: map<nat, Info>, p: Placing)
    requires i <= |path| && SameResources(sorted, info, p) && forall a :: a in anchors ==> a < |sorted|
    ensures var r := Stretch(path, i, sorted, anchors, p);
      Walked(path, i, sorted, anchors, p) == if r.None? then None else Walked(path, NextCompute(path, i), sorted, anchors, r.value)
    decreases |path| - i
  {
    if i < |path| && path[i].kind != Compute && Served(path, i, sorted, anchors, p).Some? {
      var r := Served(path, i, sorted, anchors, p).value;
      ServedLooksUp(path, i, sorted, anchors, info, p);
      WalkedByStretch(path, r.next, sorted, anchors, info, r.placing);
    }
  }

  /** What a stretch of the walk leaves waiting: of each resource as many stages as there were more than lookups. */
  ghost predicate StretchOf(path: seq<PathNode>, i: nat, sorted: seq<nat>, info: map<nat, Info>, p: Placing, q: Placing)
    requires i <= |path| && Known(sorted, info)
  {
    && SameResources(sorted, info, p) && SameResources(sorted, info, q)
    && q.begin == p.begin && q.end == p.end && q.cursor == p.cursor && SameOutside(sorted, p.visited, q.visited, p.begin, p.end)
    && forall r: nat :: LeavesWaiting(path, i, sorted, info, p, q, r)
  }

  ghost predicate LeavesWaiting(path: seq<PathNode>, i: nat, sorted: seq<nat>, info: map<nat, Info>, p: Placing, q: Placing, resource: nat)
    requires i <= |path| && Known(sorted, info) && p.end <= |sorted|
  {
    Waiting(sorted, info, q.visited, resource, p.begin, p.end)
      == Less(Waiting(sorted, info, p.visited, resource, p.begin, p.end), Lookups(path, i, resource))
  }

  lemma {:induction false} StretchLeaves(path: seq<PathNode>, i: nat, sorted: seq<nat>, anchors: seq<nat>, info: map<nat, Info>, p: Placing)
    requires i <= |path| && Known(sorted, info) && SameResources(sorted, info, p) && forall a :: a in anchors ==> a < |sorted|
    requires Stretch(path, i, sorted, anchors, p).Some?
    ensures StretchOf(path, i, sorted, info, p, Stretch(path, i, sorted, anchors, p).value)
    decreases |path| - i
  {
    if i < |path| && path[i].kind != Compute {
      var q := Stretch(path, i, sorted, anchors, p).value;
      var p1 := Served(path, i, sorted, anchors, p).value.placing;
      ServedLooksUp(path, i, sorted, anchors, info, p);
      StretchLeaves(path, After(path, i), sorted, anchors, info, p1);
      LookupPlacesOne(sorted, info, p, Wanted(path, i), 0);
      forall r: nat ensures LeavesWaiting(path, i, sorted, info, p, q, r) {
        LookupPlacesOne(sorted, info, p, Wanted(path, i), r);
        assert LeavesWaiting(path, After(path, i), sorted, info, p1, q, r);
      }
    }
  }

  // ---------------------------------------------------------------------------------------------
  // The whole walk
  // ---------------------------------------------------------------------------------------------

  /** The compute stages are met in the order of the chain. */
  predicate InChainOrder(sorted: seq<nat>, anchors: seq<nat>) {
    && (forall c :: 0 <= c < |anchors| ==> anchors[c] < |sorted|)
    && forall c, d :: 0 <= c < d < |anchors| ==> anchors[c] < anchors[d]
  }

  /** The stretch before compute stage `c`, or behind the last one. */
  function Begin(anchors: seq<nat>, c: nat): nat
    requires c <= |anchors|
  {
    if c == 0 then 0 else anchors[c - 1] + 1
  }

  function End(sorted: seq<nat>, anchors: seq<nat>, c: nat): nat
    requires c <= |anchors|
  {
    if c == |anchors| then |sorted| else anchors[c]
  }

  /** In this stretch no resource is looked up less often than stages have it. */
  ghost predicate EnoughHere(path: seq<PathNode>, i: nat, sorted: seq<nat>, info: map<nat, Info>, anchors: seq<nat>, c: nat)
    requires i <= |path| && Known(sorted, info) && InChainOrder(sorted, anchors) && c <= |anchors|
  {
    forall r: nat :: EnoughOf(path, i, sorted, info, anchors, c, r)
  }

  ghost predicate EnoughOf(path: seq<PathNode>, i: nat, sorted: seq<nat>, info: map<nat, Info>, anchors: seq<nat>, c: nat, resource: nat)
    requires i <= |path| && Known(sorted, info) && InChainOrder(sorted, anchors) && c <= |anchors|
  {
    Waiting(sorted, info, {}, resource, Begin(anchors, c), End(sorted, anchors, c)) <= Lookups(path, i, resource)
  }

  /** Nor in any later stretch; and all compute stages are met. */
  ghost predicate Enough(path: seq<PathNode>, i: nat, sorted: seq<nat>, info: map<nat, Info>, anchors: seq<nat>, c: nat)
    requires i <= |path| && Known(sorted, info) && InChainOrder(sorted, anchors) && c <= |anchors|
    decreases |path| - i
  {
    && EnoughHere(path, i, sorted, info, anchors, c)
    && var e := NextCompute(path, i);
      if e == |path| then c == |anchors| else c < |anchors| && Enough(path, e + 1, sorted, info, anchors, c + 1)
  }

  /** At the beginning of stretch `c`: nothing from there on has been placed. */
  ghost predicate AtStretch(sorted: seq<nat>, info: map<nat, Info>, anchors: seq<nat>, c: nat, p: Placing)
    requires InChainOrder(sorted, anchors)
  {
    && c <= |anchors| && SameResources(sorted, info, p)
    && p.cursor == c && p.begin == Begin(anchors, c) && p.end == End(sorted, anchors, c)
    && forall j :: p.begin <= j < |sorted| ==> sorted[j] !in p.visited
  }

  /** Only what has been placed in the range matters. */
  lemma {:induction false} WaitingInRange(sorted: seq<nat>, info: map<nat, Info>, placed: set<nat>, resource: nat, k: nat, end: nat)
    requires Known(sorted, info) && end <= |sorted| && forall j :: k <= j < end ==> sorted[j] !in placed
    ensures Waiting(sorted, info, placed, resource, k, end) == Waiting(sorted, info, {}, resource, k, end)
    decreases end - k
  {
    if k < end {
      WaitingInRange(sorted, info, placed, resource, k + 1, end);
    }
  }

  /** A stretch of the walk places all stages of that stretch of the chain exactly when there are enough lookups. */
  lemma StretchPlacesAllIff(path: seq<PathNode>, i: nat, sorted: seq<nat>, info: map<nat, Info>, anchors: seq<nat>, c: nat, p: Placing, q: Placing)
    requires i <= |path| && Known(sorted, info) && InChainOrder(sorted, anchors) && AtStretch(sorted, info, anchors, c, p)
    requires StretchOf(path, i, sorted, info, p, q)
    ensures AllPlaced(sorted, q.visited, p.begin, p.end) <==> EnoughHere(path, i, sorted, info, anchors, c)
  {
    NoneWaiting(sorted, info, q.visited, p.begin, p.end);
    if EnoughHere(path, i, sorted, info, anchors, c) {
      forall r: nat ensures Waiting(sorted, info, q.visited, r, p.begin, p.end) == 0 {
        assert EnoughOf(path, i, sorted, info, anchors, c, r);
        NoneLeftIff(path, i, sorted, info, anchors, c, p, q, r);
      }
    } else {
      var r: nat :| !EnoughOf(path, i, sorted, info, anchors, c, r);
      NoneLeftIff(path, i, sorted, info, anchors, c, p, q, r);
      assert !NoneLeft(sorted, info, q.visited, p.begin, p.end);
    }
  }

  lemma NoneLeftIff(path: seq<PathNode>, i: nat, sorted: seq<nat>, info: map<nat, Info>, anchors: seq<nat>, c: nat,
      p: Placing, q: Placing, resource: nat)
    requires i <= |path| && Known(sorted, info) && InChainOrder(sorted, anchors) && AtStretch(sorted, info, anchors, c, p)
    requires StretchOf(path, i, sorted, info, p, q)
    ensures Waiting(sorted, info, q.visited, resource, p.begin, p.end) == 0 <==> EnoughOf(path, i, sorted, info, anchors, c, resource)
  {
    assert LeavesWaiting(path, i, sorted, info, p, q, resource);
    WaitingInRange(sorted, info, p.visited, resource, p.begin, p.end);
  }

  /** What computes takes its stage, and the next stretch begins behind it. */
  lemma ComputeBeginsStretch(path: seq<PathNode>, e: nat, sorted: seq<nat>, info: map<nat, Info>, anchors: seq<nat>, c: nat, p: Placing, q: Placing)
    requires e < |path| && path[e].kind == Compute && Known(sorted, info) && InChainOrder(sorted, anchors)
    requires forall a :: a in anchors ==> a < |sorted|
    requires AtStretch(sorted, info, anchors, c, p) && SameResources(sorted, info, q)
    requires q.cursor == c && SameOutside(sorted, p.visited, q.visited, p.begin, p.end)
    requires Served(path, e, sorted, anchors, q).Some?
    ensures var r := Served(path, e, sorted, anchors, q).value;
      && r.next == e + 1 && c < |anchors| && AtStretch(sorted, info, anchors, c + 1, r.placing)
      && r.placing.visited == q.visited + {sorted[anchors[c]]}
  {
    var r := Served(path, e, sorted, anchors, q).value;
    forall j | anchors[c] < j < |sorted| ensures sorted[j] !in r.placing.visited {
      assert sorted[j] != sorted[anchors[c]];
    }
  }

  /** All stages from place `k` of the chain on have been placed exactly when those of this stretch and those behind it have. */
  lemma AllPlacedSplit(sorted: seq<nat>, placed: set<nat>, k: nat, a: nat)
    requires k <= a < |sorted|
    ensures AllPlaced(sorted, placed, k, |sorted|) <==>
      AllPlaced(sorted, placed, k, a) && sorted[a] in placed && AllPlaced(sorted, placed, a + 1, |sorted|)
  {
    if AllPlaced(sorted, placed, k, a) && sorted[a] in placed && AllPlaced(sorted, placed, a + 1, |sorted|) {
      forall j | k <= j < |sorted| ensures sorted[j] in placed {
        assert j < a || j == a || a + 1 <= j;
      }
    }
  }

  lemma StretchesJoin(sorted: seq<nat>, begin: nat, a: nat, p: set<nat>, p1: set<nat>, r: set<nat>, q: set<nat>)
    requires NoDup(sorted) && begin <= a < |sorted| && SameOutside(sorted, p, p1, begin, a) && r == p1 + {sorted[a]}
    requires forall j :: 0 <= j < a + 1 ==> (sorted[j] in q <==> sorted[j] in r)
    ensures AllPlaced(sorted, q, begin, |sorted|) <==> AllPlaced(sorted, p1, begin, a) && AllPlaced(sorted, q, a + 1, |sorted|)
    ensures forall j :: 0 <= j < begin ==> (sorted[j] in q <==> sorted[j] in p)
  {
    AllPlacedSplit(sorted, q, begin, a);
    assert forall j :: 0 <= j < a ==> sorted[j] != sorted[a];
  }

  /** The walk from the beginning of a stretch places all stages from there on exactly when there are enough lookups. */
  lemma {:induction false} WalkPlacesAllIff(path: seq<PathNode>, i: nat, sorted: seq<nat>, info: map<nat, Info>, anchors: seq<nat>, c: nat,
      p: Placing)
    requires i <= |path| && Known(sorted, info) && InChainOrder(sorted, anchors) && AtStretch(sorted, info, anchors, c, p)
    requires (forall a :: a in anchors ==> a < |sorted|) && Walked(path, i, sorted, anchors, p).Some?
    ensures var q := Walked(path, i, sorted, anchors, p).value;
      && (AllPlaced(sorted, q.visited, p.begin, |sorted|) <==> Enough(path, i, sorted, info, anchors, c))
      && forall j :: 0 <= j < p.begin && j < |sorted| ==> (sorted[j] in q.visited <==> sorted[j] in p.visited)
    decreases |path| - i
  {
    WalkedByStretch(path, i, sorted, anchors, info, p);
    StretchLeaves(path, i, sorted, anchors, info, p);
    var e, p1 := NextCompute(path, i), Stretch(path, i, sorted, anchors, p).value;
    var q := Walked(path, i, sorted, anchors, p).value;
    StretchPlacesAllIff(path, i, sorted, info, anchors, c, p, p1);
    if e == |path| {
      assert c < |anchors| ==> sorted[anchors[c]] !in q.visited;
    } else {
      var r := Served(path, e, sorted, anchors, p1).value.placing;
      ComputeBeginsStretch(path, e, sorted, info, anchors, c, p, p1);
      WalkPlacesAllIff(path, e + 1, sorted, info, anchors, c + 1, r);
      StretchesJoin(sorted, p.begin, anchors[c], p.visited, p1.visited, r.visited, q.visited);
    }
  }

  // ---------------------------------------------------------------------------------------------
  // The chain after the walk
  // ---------------------------------------------------------------------------------------------

  /**
   * The path is walked and the chain rebuilt over the placed stages. Sorting and checking the pipeline is
   * what happens before the walk; done to the result, with the new stages in it, it would succeed exactly
   * when every original stage was placed or the pipeline has no more than one stage. Every original stage
   * is placed exactly when in every stretch between compute stages there are enough lookups.
   */
  method ExpandAlongPath(path: seq<PathNode>, sorted: seq<nat>, info: map<nat, Info>, firstFree: nat, g0: Graph)
    returns (placed: Option<Placing>, chain: Option<seq<nat>>)
    requires Known(sorted, info) && forall s :: s in sorted ==> s < firstFree && info[s].unit == None
    requires g0.Keys == Elems(sorted)
    ensures placed.None? ==> chain == None
    ensures placed.Some? ==> (chain.Some? <==>
      (forall s :: s in sorted ==> s in placed.value.ordered) || |sorted| + |New(placed.value.ordered, firstFree)| <= 1)
    ensures placed.Some? && chain.Some? && (forall s :: s in sorted ==> s in placed.value.ordered) ==> chain.value == placed.value.ordered
    ensures var anchors := Anchors(path, sorted, info, |path|);
      placed.Some? && InChainOrder(sorted, anchors) ==>
        ((forall s :: s in sorted ==> s in placed.value.ordered) <==> Enough(path, 0, sorted, info, anchors, 0))
  {
    placed := BuildExpandedStageList(path, sorted, info, firstFree);
    if placed.None? {
      return None, None;
    }
    var ordered := placed.value.ordered;
    ghost var anchors := Anchors(path, sorted, info, |path|);
    if InChainOrder(sorted, anchors) {
      AllStagesPlacedIff(path, sorted, info, anchors, firstFree, placed.value);
    }
    NewIsNew(ordered, firstFree);
    AllPlacedIff(sorted, ordered, firstFree);
    chain := ResortWith(sorted, New(ordered, firstFree), ordered, g0);
  }

  /** The walk along a path places all stages exactly when in every stretch there are enough lookups. */
  lemma AllStagesPlacedIff(path: seq<PathNode>, sorted: seq<nat>, info: map<nat, Info>, anchors: seq<nat>, firstFree: nat, q: Placing)
    requires Known(sorted, info) && InChainOrder(sorted, anchors) && forall s :: s in sorted ==> s < firstFree
    requires forall a :: a in anchors ==> a < |sorted|
    requires Lookable(sorted, Start(sorted, info, anchors, firstFree))
    requires Walked(path, 0, sorted, anchors, Start(sorted, info, anchors, firstFree)) == Some(q)
    requires forall s :: s in q.visited <==> s in sorted && s in q.ordered
    ensures (forall s :: s in sorted ==> s in q.ordered) <==> Enough(path, 0, sorted, info, anchors, 0)
  {
    WalkPlacesAllIff(path, 0, sorted, info, anchors, 0, Start(sorted, info, anchors, firstFree));
    if AllPlaced(sorted, q.visited, 0, |sorted|) {
      forall s | s in sorted ensures s in q.ordered {
        var j :| 0 <= j < |sorted| && sorted[j] == s;
      }
    }
  }

  lemma NoDupJoin(a: seq<nat>, b: seq<nat>)
    requires NoDup(a) && NoDup(b) && forall x :: x in b ==> x !in a
    ensures NoDup(a + b)
  {
    forall i, j | 0 <= i < j < |a + b| ensures (a + b)[i] != (a + b)[j] {
      if i < |a| <= j {
        assert b[j - |a|] in b && a[i] in a;
      }
    }
  }

  /** The chain over `ordered` is rebuilt and checked among all stages, the new ones included. */
  method ResortWith(sorted: seq<nat>, added: seq<nat>, ordered: seq<nat>, g0: Graph) returns (chain: Option<seq<nat>>)
    requires NoDup(sorted) && NoDup(added) && NoDup(ordered) && g0.Keys == Elems(sorted)
    requires (forall s :: s in added ==> s !in sorted) && forall u :: u in ordered ==> u in sorted || u in added
    ensures chain.Some? <==> Elems(sorted + added) == Elems(ordered) || |sorted| + |added| <= 1
    ensures chain.Some? && Elems(sorted + added) == Elems(ordered) ==> chain.value == ordered
  {
    var g := g0;
    var k := 0;
    while k < |added|
      invariant k <= |added| && forall u :: u in g <==> u in sorted || u in added[..k]
    {
      assert added[..k + 1] == added[..k] + [added[k]];
      g := g[added[k] := []];
      k := k + 1;
    }
    assert added[..k] == added;
    NoDupJoin(sorted, added);
    chain := ResortAndValidate(sorted + added, ordered, g);
  }

  /** The new stages among those placed, in order. */
  function New(ordered: seq<nat>, firstFree: nat): seq<nat> {
    if ordered == [] then []
    else New(ordered[..|ordered| - 1], firstFree) + if ordered[|ordered| - 1] < firstFree then [] else [ordered[|ordered| - 1]]
  }

  lemma {:induction false} NewIsNew(ordered: seq<nat>, firstFree: nat)
    requires NoDup(ordered)
    ensures NoDup(New(ordered, firstFree))
    ensures forall s :: s in New(ordered, firstFree) <==> s in ordered && s >= firstFree
  {
    if ordered != [] {
      NewIsNew(ordered[..|ordered| - 1], firstFree);
      var init, last := ordered[..|ordered| - 1], ordered[|ordered| - 1];
      assert ordered == init + [last];
      NoDupSplit(init, [last], 0);
      assert last !in New(init, firstFree);
    }
  }

  lemma AllPlacedIff(sorted: seq<nat>, ordered: seq<nat>, firstFree: nat)
    requires NoDup(ordered) && forall s :: s in ordered ==> (s in sorted <==> s < firstFree)
    ensures Elems(sorted + New(ordered, firstFree)) == Elems(ordered) <==> forall s :: s in sorted ==> s in ordered
  {
    NewIsNew(ordered, firstFree);
    if forall s :: s in sorted ==> s in ordered {
      assert forall x :: x in sorted + New(ordered, firstFree) <==> x in ordered;
    }
    if Elems(sorted + New(ordered, firstFree)) == Elems(ordered) {
      forall s | s in sorted ensures s in ordered {
        assert s in Elems(sorted + New(ordered, firstFree));
        assert s in Elems(ordered);
      }
    }
  }
}
