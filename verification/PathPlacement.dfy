/**
 * Placing stages along the path that the data takes: every stage of the chain gets the resource at its
 * end, then the path is walked and each of its units gets a stage of the chain or a new one.
 */
module PathPlacement {
  import opened Sequences

  // ---------------------------------------------------------------------------------------------
  // The resources of the original stages
  // ---------------------------------------------------------------------------------------------

  /** A stage of the chain: its unit when it computes, and the memories that its first transfer joins. */
  datatype Original = Original(unit: Option<nat>, source: Option<nat>, dest: Option<nat>)

  /** The resource that the stage itself determines, where it does. */
  function OwnResource(stages: seq<Original>, i: nat): Option<nat>
    requires i < |stages|
  {
    var s := stages[i];
    if s.unit.Some? then s.unit
    else if i == 0 then s.source
    else if i == |stages| - 1 then s.dest
    else if s.source.Some? && s.dest.None? then s.source
    else if s.dest.Some? && s.source.None? then s.dest
    else None
  }

  /** Both ends are memories, and a neighbour is needed to tell which one it is. */
  predicate NeedsNeighbour(stages: seq<Original>, i: nat)
    requires i < |stages|
  {
    0 < i < |stages| - 1 && stages[i].unit.None? && (stages[i].source.Some? <==> stages[i].dest.Some?)
  }

  /** The left neighbour is where the transfer starts, so the stage is where it ends; or the other way round. */
  predicate FromNeighbour(stages: seq<Original>, found: seq<Option<nat>>, i: nat, r: nat)
    requires |found| == |stages| && 0 < i < |stages| - 1
  {
    || (stages[i].source.Some? && found[i - 1] == stages[i].source && stages[i].dest == Some(r))
    || (stages[i].dest.Some? && found[i + 1] == stages[i].dest && stages[i].source == Some(r))
  }

  /** What the neighbours say: the left one is asked first. */
  function FromNeighbours(stages: seq<Original>, found: seq<Option<nat>>, i: nat): Option<nat>
    requires |found| == |stages| && 0 < i < |stages| - 1
  {
    var s := stages[i];
    if s.source.None? || s.dest.None? then None
    else if found[i - 1] == s.source then s.dest
    else if found[i + 1] == s.dest then s.source
    else None
  }

  /** One pass over the stages from `i` on; what it finds counts for the stages further right at once. */
  function Swept(stages: seq<Original>, found: seq<Option<nat>>, i: nat): (r: seq<Option<nat>>)
    requires |found| == |stages| && i > 0
    ensures |r| == |stages|
    decreases |stages| - i
  {
    if i + 1 >= |stages| then found
    else if found[i].None? then Swept(stages, found[i := FromNeighbours(stages, found, i)], i + 1)
    else Swept(stages, found, i + 1)
  }

  function SweptTimes(stages: seq<Original>, found: seq<Option<nat>>, n: nat): (r: seq<Option<nat>>)
    requires |found| == |stages|
    ensures |r| == |stages|
  {
    if n == 0 then found else Swept(stages, SweptTimes(stages, found, n - 1), 1)
  }

  /** The resources that the stages determine themselves. */
  function OwnResources(stages: seq<Original>): (r: seq<Option<nat>>)
    ensures |r| == |stages|
  {
    seq(|stages|, i requires 0 <= i < |stages| => if NeedsNeighbour(stages, i) then None else OwnResource(stages, i))
  }

  /** Every resource found so far is the stage's own, or follows from a neighbour's. */
  ghost predicate Justified(stages: seq<Original>, found: seq<Option<nat>>) {
    |found| == |stages| && forall i :: 0 <= i < |stages| ==> JustifiedAt(stages, found, i)
  }

  ghost predicate JustifiedAt(stages: seq<Original>, found: seq<Option<nat>>, i: nat)
    requires |found| == |stages| && i < |stages|
  {
    if NeedsNeighbour(stages, i) then found[i].Some? ==> FromNeighbour(stages, found, i, found[i].value)
    else found[i] == OwnResource(stages, i)
  }

  /**
   * The unit of a stage that computes; the outer end of the first and of the last transfer; the only memory
   * of a transfer in between; if it joins two memories, the one that is not the neighbour's.
   */
  ghost predicate ByTheRules(stages: seq<Original>, found: seq<Option<nat>>, i: nat)
    requires |found| == |stages| && i < |stages|
  {
    var Original(unit, source, dest) := stages[i];
    if unit.Some? then found[i] == unit
    else if i == 0 then found[i] == source
    else if i == |stages| - 1 then found[i] == dest
    else if source.None? || dest.None? then found[i] == if source.None? then dest else source
    else found[i].None? || (found[i - 1] == source && found[i] == dest) || (found[i + 1] == dest && found[i] == source)
  }

  lemma JustifiedIsByTheRules(stages: seq<Original>, found: seq<Option<nat>>, i: nat)
    requires |found| == |stages| && i < |stages| && JustifiedAt(stages, found, i)
    ensures ByTheRules(stages, found, i)
  {
  }

  /** Both neighbours may tell: a left one that needs no neighbour itself is believed. */
  ghost predicate LeftFirst(stages: seq<Original>, found: seq<Option<nat>>, i: nat)
    requires |found| == |stages| && 0 < i < |stages| - 1
  {
    var left := stages[i - 1];
    (stages[i].unit.None? && stages[i].source.Some? && stages[i].dest.Some? && found[i - 1] == stages[i].source
      && (left.unit.Some? || i == 1 || left.source.None? || left.dest.None?)) ==> found[i] == stages[i].dest
  }

  lemma {:induction false} SweptKeeps(stages: seq<Original>, found: seq<Option<nat>>, i: nat, k: nat)
    requires |found| == |stages| && i > 0 && k < |stages| && found[k].Some?
    ensures Swept(stages, found, i)[k] == found[k]
    decreases |stages| - i
  {
    if i + 1 < |stages| {
      SweptKeeps(stages, if found[i].None? then found[i := FromNeighbours(stages, found, i)] else found, i + 1, k);
    }
  }

  lemma {:induction false} SweptLeft(stages: seq<Original>, found: seq<Option<nat>>, i: nat, k: nat)
    requires |found| == |stages| && 0 < i <= k < |stages| - 1 && found[k].None?
    requires stages[k].source.Some? && stages[k].dest.Some? && found[k - 1] == stages[k].source
    ensures Swept(stages, found, i)[k] == stages[k].dest
    decreases |stages| - i
  {
    var next := if found[i].None? then found[i := FromNeighbours(stages, found, i)] else found;
    if i == k {
      SweptKeeps(stages, next, i + 1, k);
    } else {
      SweptLeft(stages, next, i + 1, k);
    }
  }

  lemma {:induction false} SweptTimesKeeps(stages: seq<Original>, found: seq<Option<nat>>, n: nat, m: nat, k: nat)
    requires |found| == |stages| && n <= m && k < |stages| && SweptTimes(stages, found, n)[k].Some?
    ensures SweptTimes(stages, found, m)[k] == SweptTimes(stages, found, n)[k]
    decreases m
  {
    if n < m {
      SweptTimesKeeps(stages, found, n, m - 1, k);
      SweptKeeps(stages, SweptTimes(stages, found, m - 1), 1, k);
    }
  }

  lemma LeftIsBelieved(stages: seq<Original>, passes: nat, i: nat)
    requires passes > 0 && 0 < i < |stages| - 1
    ensures LeftFirst(stages, SweptTimes(stages, OwnResources(stages), passes), i)
  {
    var own, found := OwnResources(stages), SweptTimes(stages, OwnResources(stages), passes);
    var left := stages[i - 1];
    if stages[i].unit.None? && stages[i].source.Some? && stages[i].dest.Some? && found[i - 1] == stages[i].source
      && (left.unit.Some? || i == 1 || left.source.None? || left.dest.None?)
    {
      assert SweptTimes(stages, own, 0) == own;
      if own[i - 1].Some? {
        SweptTimesKeeps(stages, own, 0, passes, i - 1);
        SweptLeft(stages, own, 1, i);
        assert SweptTimes(stages, own, 1) == Swept(stages, own, 1);
        SweptTimesKeeps(stages, own, 1, passes, i);
      } else {
        NothingToSay(stages, passes, i - 1);
      }
    }
  }

  /** A stage without two memories stays without a resource if it has none itself. */
  lemma {:induction false} NothingToSay(stages: seq<Original>, passes: nat, k: nat)
    requires k < |stages| && OwnResources(stages)[k].None? && (k == 0 || stages[k].source.None? || stages[k].dest.None?)
    ensures SweptTimes(stages, OwnResources(stages), passes)[k].None?
  {
    if passes > 0 {
      NothingToSay(stages, passes - 1, k);
      SweptNothing(stages, SweptTimes(stages, OwnResources(stages), passes - 1), 1, k);
    }
  }

  lemma {:induction false} SweptNothing(stages: seq<Original>, found: seq<Option<nat>>, i: nat, k: nat)
    requires |found| == |stages| && i > 0 && k < |stages| && found[k].None? && (k == 0 || stages[k].source.None? || stages[k].dest.None?)
    ensures Swept(stages, found, i)[k].None?
    decreases |stages| - i
  {
    if i + 1 < |stages| {
      SweptNothing(stages, if found[i].None? then found[i := FromNeighbours(stages, found, i)] else found, i + 1, k);
    }
  }

  /** No neighbour helps a stage that still has none. */
  ghost predicate Stable(stages: seq<Original>, found: seq<Option<nat>>)
    requires |found| == |stages|
  {
    forall i :: 0 < i < |stages| - 1 && found[i].None? ==> StuckAt(stages, found, i)
  }

  predicate StuckAt(stages: seq<Original>, found: seq<Option<nat>>, i: nat)
    requires |found| == |stages| && 0 < i < |stages| - 1
  {
    && !(stages[i].source.Some? && found[i - 1] == stages[i].source)
    && !(stages[i].dest.Some? && found[i + 1] == stages[i].dest)
  }

  ghost function Missing(found: seq<Option<nat>>): nat {
    if found == [] then 0 else (if found[0].None? then 1 else 0) + Missing(found[1..])
  }

  lemma {:induction false} MissingOneLess(found: seq<Option<nat>>, i: nat, r: nat)
    requires i < |found| && found[i].None?
    ensures Missing(found[i := Some(r)]) + 1 == Missing(found)
  {
    if i > 0 {
      MissingOneLess(found[1..], i - 1, r);
      assert found[i := Some(r)][1..] == found[1..][i - 1 := Some(r)];
    } else {
      assert found[0 := Some(r)][1..] == found[1..];
    }
  }

  /** What has been found stays justified when more is found. */
  lemma JustifiedStays(stages: seq<Original>, found: seq<Option<nat>>, i: nat, r: nat)
    requires Justified(stages, found) && i < |stages| && found[i].None?
    requires NeedsNeighbour(stages, i) && FromNeighbour(stages, found, i, r)
    ensures Justified(stages, found[i := Some(r)])
  {
    var more := found[i := Some(r)];
    forall j | 0 <= j < |stages| ensures JustifiedAt(stages, more, j) {
      assert JustifiedAt(stages, found, j);
    }
  }

  /**
   * The stages whose transfers do not say it themselves get their resource from a neighbour, until no
   * neighbour helps any more; nothing when some stage is left without.
   */
  method AssignOriginalStageResources(stages: seq<Original>) returns (found: seq<Option<nat>>, complete: bool, ghost passes: nat)
    ensures found == SweptTimes(stages, OwnResources(stages), passes)
    ensures |found| == |stages| && (forall i :: 0 <= i < |stages| ==> ByTheRules(stages, found, i)) && Stable(stages, found)
    ensures forall i :: 0 < i < |stages| - 1 ==> LeftFirst(stages, found, i)
    ensures complete <==> forall i :: 0 <= i < |found| ==> found[i].Some?
  {
    found := OwnResources(stages);
    passes := 0;
    var changed := true;
    while changed
      invariant changed || passes > 0
      invariant |found| == |stages| && found == SweptTimes(stages, OwnResources(stages), passes)
      invariant Justified(stages, found) && (!changed ==> Stable(stages, found))
      decreases Missing(found), changed
    {
      found, changed := Sweep(stages, found);
      passes := passes + 1;
    }
    forall j | 0 <= j < |stages| ensures ByTheRules(stages, found, j) {
      JustifiedIsByTheRules(stages, found, j);
    }
    forall j | 0 < j < |stages| - 1 ensures LeftFirst(stages, found, j) {
      LeftIsBelieved(stages, passes, j);
    }
    complete := true;
    var i := 0;
    while i < |found|
      invariant i <= |found| && (complete <==> forall j :: 0 <= j < i ==> found[j].Some?)
    {
      complete := complete && found[i].Some?;
      i := i + 1;
    }
  }

  /** One pass from left to right; the left neighbour is asked first. */
  method Sweep(stages: seq<Original>, before: seq<Option<nat>>) returns (found: seq<Option<nat>>, changed: bool)
    requires Justified(stages, before)
    ensures Justified(stages, found) && found == Swept(stages, before, 1)
    ensures changed ==> Missing(found) < Missing(before)
    ensures !changed ==> found == before && Stable(stages, found)
  {
    found, changed := before, false;
    var i := 1;
    while i + 1 < |stages|
      invariant 1 <= i && Justified(stages, found) && Swept(stages, found, i) == Swept(stages, before, 1)
      invariant changed ==> Missing(found) < Missing(before)
      invariant !changed ==> found == before && forall j :: 0 < j < i && j < |stages| - 1 && found[j].None? ==> StuckAt(stages, found, j)
    {
      assert JustifiedAt(stages, found, i);
      if found[i].None? {
        if stages[i].source.Some? && stages[i].dest.Some? && found[i - 1] == stages[i].source {
          MissingOneLess(found, i, stages[i].dest.value);
          JustifiedStays(stages, found, i, stages[i].dest.value);
          found, changed := found[i := stages[i].dest], true;
        } else if stages[i].source.Some? && stages[i].dest.Some? && found[i + 1] == stages[i].dest {
          MissingOneLess(found, i, stages[i].source.value);
          JustifiedStays(stages, found, i, stages[i].source.value);
          found, changed := found[i := stages[i].source], true;
        }
        assert FromNeighbours(stages, found, i).None? ==> found[i := FromNeighbours(stages, found, i)] == found;
      }
      i := i + 1;
    }
  }

  // ---------------------------------------------------------------------------------------------
  // Walking the path
  // ---------------------------------------------------------------------------------------------

  datatype Kind = Memory | LoadStore | Compute

  datatype PathNode = PathNode(kind: Kind, resource: nat)

  datatype Info = Info(resource: Option<nat>, unit: Option<nat>)

  /**
   * The stages placed so far, the original ones among them, what is known of every stage, the next free
   * stage number, and the stretch of the chain between two compute stages in which stages are looked up.
   */
  datatype Placing = Placing(ordered: seq<nat>, visited: set<nat>, info: map<nat, Info>, nextId: nat, cursor: nat, begin: nat, end: nat)

  /** The units of the path in their order: what moves data and what computes. */
  function UnitsOnPath(path: seq<PathNode>): seq<nat> {
    if path == [] then []
    else
      var last := path[|path| - 1];
      UnitsOnPath(path[..|path| - 1]) + if last.kind == Memory then [] else [last.resource]
  }

  /** The units that the placed stages are assigned to, in the order of the stages. */
  function UnitsOf(info: map<nat, Info>, ordered: seq<nat>): seq<nat>
    requires forall s :: s in ordered ==> s in info
  {
    if ordered == [] then []
    else
      var unit := info[ordered[|ordered| - 1]].unit;
      UnitsOf(info, ordered[..|ordered| - 1]) + if unit.Some? then [unit.value] else []
  }

  /** The placed stages that have a unit, in order. */
  function Assigned(info: map<nat, Info>, ordered: seq<nat>): seq<nat>
    requires forall s :: s in ordered ==> s in info
  {
    if ordered == [] then []
    else
      var last := ordered[|ordered| - 1];
      Assigned(info, ordered[..|ordered| - 1]) + if info[last].unit.Some? then [last] else []
  }

  /** Unit for unit: the n-th of them is on the n-th unit. */
  lemma {:induction false} AssignedUnits(info: map<nat, Info>, ordered: seq<nat>)
    requires forall s :: s in ordered ==> s in info
    ensures |Assigned(info, ordered)| == |UnitsOf(info, ordered)|
    ensures forall n :: 0 <= n < |Assigned(info, ordered)| ==>
      Assigned(info, ordered)[n] in ordered && info[Assigned(info, ordered)[n]].unit == Some(UnitsOf(info, ordered)[n])
  {
    if ordered != [] {
      var init := ordered[..|ordered| - 1];
      AssignedUnits(info, init);
      assert forall s :: s in init ==> s in ordered;
    }
  }

  lemma {:induction false} OtherInfo(info: map<nat, Info>, ordered: seq<nat>, s: nat, x: Info)
    requires s !in ordered && forall o :: o in ordered ==> o in info
    ensures UnitsOf(info[s := x], ordered) == UnitsOf(info, ordered)
    ensures Assigned(info[s := x], ordered) == Assigned(info, ordered)
  {
    if ordered != [] {
      OtherInfo(info, ordered[..|ordered| - 1], s, x);
    }
  }

  ghost predicate Consistent(path: seq<PathNode>, i: nat, sorted: seq<nat>, firstFree: nat, p: Placing) {
    && i <= |path| && NoDup(p.ordered) && p.begin <= |sorted| && p.end <= |sorted| && firstFree <= p.nextId
    && (forall s :: s in sorted ==> s in p.info && s < firstFree)
    && (forall s :: s in p.ordered ==> s in p.info && s < p.nextId && (s in sorted <==> s < firstFree))
    && (forall s :: s in p.visited <==> s in sorted && s in p.ordered)
    && (forall s :: s in sorted && s !in p.ordered ==> p.info[s].unit == None)
    && UnitsOf(p.info, p.ordered) == UnitsOnPath(path[..i])
  }

  ghost predicate Lookable(sorted: seq<nat>, p: Placing) {
    p.begin <= |sorted| && p.end <= |sorted| && forall s :: s in sorted ==> s in p.info
  }

  /** From place `k` of the stretch on. */
  ghost function StageFrom(sorted: seq<nat>, p: Placing, resource: nat, k: nat): (r: Option<nat>)
    requires Lookable(sorted, p)
    ensures r.Some? ==> r.value in sorted && r.value !in p.visited && p.info[r.value].resource == Some(resource)
    ensures r.None? ==> forall j :: k <= j < p.end ==> sorted[j] in p.visited || p.info[sorted[j]].resource != Some(resource)
    decreases p.end - k
  {
    if k >= p.end then None
    else if sorted[k] !in p.visited && p.info[sorted[k]].resource == Some(resource) then Some(sorted[k])
    else StageFrom(sorted, p, resource, k + 1)
  }

  /** The first stage of the stretch with this resource that has not been placed. */
  ghost function StageFor(sorted: seq<nat>, p: Placing, resource: nat): (r: Option<nat>)
    requires Lookable(sorted, p)
    ensures r.Some? ==> r.value in sorted && r.value !in p.visited && p.info[r.value].resource == Some(resource)
    ensures r.None? ==> forall j :: p.begin <= j < p.end ==> sorted[j] in p.visited || p.info[sorted[j]].resource != Some(resource)
  {
    StageFrom(sorted, p, resource, p.begin)
  }

  /** The stage waits to be placed and has this resource. */
  predicate Fitting(sorted: seq<nat>, p: Placing, resource: nat, k: nat)
    requires Lookable(sorted, p) && k < |sorted|
  {
    sorted[k] !in p.visited && p.info[sorted[k]].resource == Some(resource)
  }

  method FindStage(sorted: seq<nat>, p: Placing, resource: nat) returns (found: Option<nat>, ghost place: nat)
    requires Lookable(sorted, p)
    ensures found == StageFor(sorted, p, resource)
    ensures found.Some? ==> p.begin <= place < p.end && found.value == sorted[place] && Fitting(sorted, p, resource, place)
    ensures forall j :: p.begin <= j < (if found.Some? then place else p.end) ==> !Fitting(sorted, p, resource, j)
  {
    var k := p.begin;
    place := k;
    while k < p.end
      invariant p.begin <= k && StageFrom(sorted, p, resource, k) == StageFor(sorted, p, resource)
      invariant forall j :: p.begin <= j < k && j < p.end ==> !Fitting(sorted, p, resource, j)
    {
      var s := sorted[k];
      if s !in p.visited && p.info[s].resource == Some(resource) {
        return Some(s), k;
      }
      k := k + 1;
    }
    return None, p.end;
  }

  /** Stage `s` comes next, on this unit if any. */
  function Appended(p: Placing, s: nat, x: Info, original: bool): Placing {
    p.(ordered := p.ordered + [s], info := p.info[s := x],
      visited := if original then p.visited + {s} else p.visited,
      nextId := if original then p.nextId else p.nextId + 1)
  }

  lemma AppendedUnits(p: Placing, s: nat, x: Info, original: bool)
    requires s !in p.ordered && forall o :: o in p.ordered ==> o in p.info
    ensures forall o :: o in Appended(p, s, x, original).ordered ==> o in Appended(p, s, x, original).info
    ensures UnitsOf(Appended(p, s, x, original).info, Appended(p, s, x, original).ordered)
      == UnitsOf(p.info, p.ordered) + if x.unit.Some? then [x.unit.value] else []
    ensures Assigned(Appended(p, s, x, original).info, Appended(p, s, x, original).ordered)
      == Assigned(p.info, p.ordered) + if x.unit.Some? then [s] else []
  {
    OtherInfo(p.info, p.ordered, s, x);
    assert (p.ordered + [s])[..|p.ordered|] == p.ordered;
  }

  /** An original stage that was not placed yet, or a new one, takes the units of the next `n` path nodes. */
  lemma AppendedConsistent(path: seq<PathNode>, i: nat, n: nat, sorted: seq<nat>, firstFree: nat, p: Placing, s: nat, x: Info, original: bool)
    requires Consistent(path, i, sorted, firstFree, p) && i + n <= |path|
    requires if original then s in sorted && s !in p.visited else s == p.nextId
    requires UnitsOnPath(path[..i + n]) == UnitsOnPath(path[..i]) + if x.unit.Some? then [x.unit.value] else []
    ensures Consistent(path, i + n, sorted, firstFree, Appended(p, s, x, original))
  {
    AppendedUnits(p, s, x, original);
  }

  lemma OneUnit(path: seq<PathNode>, i: nat)
    requires i < |path|
    ensures UnitsOnPath(path[..i + 1]) == UnitsOnPath(path[..i]) + if path[i].kind == Memory then [] else [path[i].resource]
  {
    assert path[..i + 1][..i] == path[..i];
  }

  lemma TwoUnits(path: seq<PathNode>, i: nat)
    requires i + 1 < |path| && ((path[i].kind == Memory) != (path[i + 1].kind == Memory))
    ensures UnitsOnPath(path[..i + 2])
      == UnitsOnPath(path[..i]) + [if path[i].kind == Memory then path[i + 1].resource else path[i].resource]
  {
    OneUnit(path, i);
    OneUnit(path, i + 1);
  }

  /** The unit to the right of a node moves data. */
  predicate MovesRight(path: seq<PathNode>, i: nat) {
    i + 1 < |path| && path[i + 1].kind == LoadStore
  }

  /** A stage found for a resource, or the next new one. */
  function OrNew(found: Option<nat>, p: Placing): nat {
    if found.Some? then found.value else p.nextId
  }

  /** A memory: its stage, on the unit to its right if that moves data; or a new stage on that unit. */
  method HandleMemoryNode(path: seq<PathNode>, i: nat, sorted: seq<nat>, ghost firstFree: nat, p: Placing)
    returns (r: Option<Placing>, next: nat)
    requires i < |path| && path[i].kind == Memory && Consistent(path, i, sorted, firstFree, p)
    ensures r.None? <==> StageFor(sorted, p, path[i].resource).None? && !MovesRight(path, i)
    ensures r.Some? ==> i < next <= |path| && Consistent(path, next, sorted, firstFree, r.value)
    ensures r.Some? ==> var found := StageFor(sorted, p, path[i].resource);
      if MovesRight(path, i) then
        next == i + 2 && r.value == Appended(p, OrNew(found, p), Info(Some(path[i].resource), Some(path[i + 1].resource)), found.Some?)
      else next == i + 1 && r.value == Appended(p, found.value, p.info[found.value], true)
  {
    var found, _ := FindStage(sorted, p, path[i].resource);
    if MovesRight(path, i) {
      var s := OrNew(found, p);
      var x := Info(Some(path[i].resource), Some(path[i + 1].resource));
      TwoUnits(path, i);
      AppendedConsistent(path, i, 2, sorted, firstFree, p, s, x, found.Some?);
      return Some(Appended(p, s, x, found.Some?)), i + 2;
    }
    if found.Some? {
      OneUnit(path, i);
      AppendedConsistent(path, i, 1, sorted, firstFree, p, found.value, p.info[found.value], true);
      return Some(Appended(p, found.value, p.info[found.value], true)), i + 1;
    }
    return None, i;
  }

  /** A memory to the right of a node. */
  predicate StoresRight(path: seq<PathNode>, i: nat) {
    i + 1 < |path| && path[i + 1].kind == Memory
  }

  /** What moves data: the stage of the memory to its right, or a new stage. */
  method HandleLoadStoreNode(path: seq<PathNode>, i: nat, sorted: seq<nat>, ghost firstFree: nat, p: Placing)
    returns (r: Placing, next: nat)
    requires i < |path| && path[i].kind == LoadStore && Consistent(path, i, sorted, firstFree, p)
    ensures i < next <= |path| && Consistent(path, next, sorted, firstFree, r)
    ensures if StoresRight(path, i) then
        var found := StageFor(sorted, p, path[i + 1].resource);
        next == i + 2 && r == Appended(p, OrNew(found, p), Info(Some(path[i + 1].resource), Some(path[i].resource)), found.Some?)
      else next == i + 1 && r == Appended(p, p.nextId, Info(None, Some(path[i].resource)), false)
  {
    if StoresRight(path, i) {
      var found, _ := FindStage(sorted, p, path[i + 1].resource);
      var s := OrNew(found, p);
      var x := Info(Some(path[i + 1].resource), Some(path[i].resource));
      TwoUnits(path, i);
      AppendedConsistent(path, i, 2, sorted, firstFree, p, s, x, found.Some?);
      return Appended(p, s, x, found.Some?), i + 2;
    }
    var x := Info(None, Some(path[i].resource));
    OneUnit(path, i);
    AppendedConsistent(path, i, 1, sorted, firstFree, p, p.nextId, x, false);
    return Appended(p, p.nextId, x, false), i + 1;
  }

  /** The next compute stage of the chain has not been placed yet. */
  predicate AnchorIsFree(sorted: seq<nat>, anchors: seq<nat>, p: Placing)
    requires forall a :: a in anchors ==> a < |sorted|
  {
    p.cursor < |anchors| && AnchorStage(sorted, anchors, p.cursor) !in p.visited
  }

  function AnchorStage(sorted: seq<nat>, anchors: seq<nat>, c: nat): (s: nat)
    requires c < |anchors| && forall a :: a in anchors ==> a < |sorted|
    ensures s in sorted
  {
    assert anchors[c] in anchors;
    sorted[anchors[c]]
  }

  /** What computes: the next compute stage of the chain; stages are then looked up behind it. */
  method HandleComputeNode(path: seq<PathNode>, i: nat, sorted: seq<nat>, anchors: seq<nat>, ghost firstFree: nat, p: Placing)
    returns (r: Option<Placing>, next: nat)
    requires i < |path| && path[i].kind == Compute && Consistent(path, i, sorted, firstFree, p)
    requires forall a :: a in anchors ==> a < |sorted|
    ensures r.Some? <==> AnchorIsFree(sorted, anchors, p)
    ensures r.Some? ==> next == i + 1 && Consistent(path, next, sorted, firstFree, r.value)
    ensures r.Some? ==> var s := AnchorStage(sorted, anchors, p.cursor);
      r.value == Appended(p, s, p.info[s].(unit := Some(path[i].resource)), true).(cursor := p.cursor + 1,
        begin := anchors[p.cursor] + 1, end := if p.cursor + 1 < |anchors| then anchors[p.cursor + 1] else |sorted|)
  {
    if !AnchorIsFree(sorted, anchors, p) {
      return None, i;
    }
    var at, s := anchors[p.cursor], AnchorStage(sorted, anchors, p.cursor);
    var x := p.info[s].(unit := Some(path[i].resource));
    OneUnit(path, i);
    AppendedConsistent(path, i, 1, sorted, firstFree, p, s, x, true);
    var placed := Appended(p, s, x, true);
    assert at in anchors;
    var end := if p.cursor + 1 < |anchors| then anchors[p.cursor + 1] else |sorted|;
    assert p.cursor + 1 < |anchors| ==> end in anchors;
    return Some(placed.(cursor := p.cursor + 1, begin := at + 1, end := end)), i + 1;
  }

  /** The first place in the chain, from `k` on, of a stage with this resource; the length when there is none. */
  function FirstOn(sorted: seq<nat>, info: map<nat, Info>, resource: nat, k: nat): (r: nat)
    requires k <= |sorted| && forall s :: s in sorted ==> s in info
    ensures k <= r <= |sorted| && (r < |sorted| ==> info[sorted[r]].resource == Some(resource))
    ensures forall j :: k <= j < r ==> info[sorted[j]].resource != Some(resource)
    decreases |sorted| - k
  {
    if k == |sorted| || info[sorted[k]].resource == Some(resource) then k else FirstOn(sorted, info, resource, k + 1)
  }

  /** For every compute node among the first `n` of the path, in order, the first stage of the chain on that unit. */
  function Anchors(path: seq<PathNode>, sorted: seq<nat>, info: map<nat, Info>, n: nat): (anchors: seq<nat>)
    requires n <= |path| && forall s :: s in sorted ==> s in info
    ensures forall a :: a in anchors ==> a < |sorted|
  {
    if n == 0 then []
    else
      var before := Anchors(path, sorted, info, n - 1);
      var k := FirstOn(sorted, info, path[n - 1].resource, 0);
      if path[n - 1].kind == Compute && k < |sorted| then before + [k] else before
  }

  /** Place `k` is the first in the chain whose stage has the resource. */
  predicate FirstPlace(sorted: seq<nat>, info: map<nat, Info>, resource: nat, k: nat)
    requires forall s :: s in sorted ==> s in info
  {
    k < |sorted| && info[sorted[k]].resource == Some(resource) && forall j :: 0 <= j < k ==> info[sorted[j]].resource != Some(resource)
  }

  predicate HasStage(sorted: seq<nat>, info: map<nat, Info>, resource: nat)
    requires forall s :: s in sorted ==> s in info
  {
    exists j :: 0 <= j < |sorted| && info[sorted[j]].resource == Some(resource)
  }

  /** The nodes listed are those of the first `n` that compute on the resource of some stage, and each has its first place. */
  ghost predicate AnchorsOf(path: seq<PathNode>, sorted: seq<nat>, info: map<nat, Info>, n: nat, nodes: seq<nat>, anchors: seq<nat>)
    requires n <= |path| && forall s :: s in sorted ==> s in info
  {
    && |anchors| == |nodes| && (forall c, d :: 0 <= c < d < |nodes| ==> nodes[c] < nodes[d])
    && (forall e :: 0 <= e < n ==> (e in nodes <==> path[e].kind == Compute && HasStage(sorted, info, path[e].resource)))
    && forall c :: 0 <= c < |nodes| ==> nodes[c] < n && FirstPlace(sorted, info, path[nodes[c]].resource, anchors[c])
  }

  lemma AnchorsOfNext(path: seq<PathNode>, sorted: seq<nat>, info: map<nat, Info>, n: nat, nodes: seq<nat>, anchors: seq<nat>, k: nat)
    requires n < |path| && (forall s :: s in sorted ==> s in info) && AnchorsOf(path, sorted, info, n, nodes, anchors)
    requires k == FirstOn(sorted, info, path[n].resource, 0)
    ensures if path[n].kind == Compute && k < |sorted| then AnchorsOf(path, sorted, info, n + 1, nodes + [n], anchors + [k])
      else AnchorsOf(path, sorted, info, n + 1, nodes, anchors)
  {
    if k < |sorted| {
      assert HasStage(sorted, info, path[n].resource);
    }
    assert n !in nodes;
  }

  method AnchorIndices(path: seq<PathNode>, sorted: seq<nat>, info: map<nat, Info>) returns (anchors: seq<nat>, ghost nodes: seq<nat>)
    requires forall s :: s in sorted ==> s in info
    ensures anchors == Anchors(path, sorted, info, |path|) && AnchorsOf(path, sorted, info, |path|, nodes, anchors)
  {
    anchors, nodes := [], [];
    var i := 0;
    while i < |path|
      invariant i <= |path| && anchors == Anchors(path, sorted, info, i) && AnchorsOf(path, sorted, info, i, nodes, anchors)
    {
      AnchorsOfNext(path, sorted, info, i, nodes, anchors, FirstOn(sorted, info, path[i].resource, 0));
      if path[i].kind == Compute {
        var k := 0;
        while k < |sorted| && info[sorted[k]].resource != Some(path[i].resource)
          invariant k <= |sorted| && FirstOn(sorted, info, path[i].resource, k) == FirstOn(sorted, info, path[i].resource, 0)
        {
          k := k + 1;
        }
        if k < |sorted| {
          anchors, nodes := anchors + [k], nodes + [i];
        }
      }
      i := i + 1;
    }
  }

  /** A placing, and the place in the path up to which it goes. */
  datatype Reached = Reached(placing: Placing, next: nat)

  /** What one node of the path does, nothing when it cannot be served. */
  ghost function Served(path: seq<PathNode>, i: nat, sorted: seq<nat>, anchors: seq<nat>, p: Placing): (r: Option<Reached>)
    requires i < |path| && Lookable(sorted, p) && forall a :: a in anchors ==> a < |sorted|
    ensures r.Some? ==> i < r.value.next <= |path| && Lookable(sorted, r.value.placing)
  {
    var node := path[i];
    match node.kind
    case Memory =>
      var found := StageFor(sorted, p, node.resource);
      if MovesRight(path, i) then
        Some(Reached(Appended(p, OrNew(found, p), Info(Some(node.resource), Some(path[i + 1].resource)), found.Some?), i + 2))
      else if found.Some? then Some(Reached(Appended(p, found.value, p.info[found.value], true), i + 1))
      else None
    case LoadStore =>
      if StoresRight(path, i) then
        var found := StageFor(sorted, p, path[i + 1].resource);
        Some(Reached(Appended(p, OrNew(found, p), Info(Some(path[i + 1].resource), Some(node.resource)), found.Some?), i + 2))
      else Some(Reached(Appended(p, p.nextId, Info(None, Some(node.resource)), false), i + 1))
    case Compute =>
      if AnchorIsFree(sorted, anchors, p) then
        var s := AnchorStage(sorted, anchors, p.cursor);
        assert anchors[p.cursor] in anchors;
        var end := if p.cursor + 1 < |anchors| then anchors[p.cursor + 1] else |sorted|;
        assert p.cursor + 1 < |anchors| ==> end in anchors;
        var placed := Appended(p, s, p.info[s].(unit := Some(node.resource)), true);
        Some(Reached(placed.(cursor := p.cursor + 1, begin := anchors[p.cursor] + 1, end := end), i + 1))
      else None
  }

  /** The walk from place `i` on. */
  ghost function Walked(path: seq<PathNode>, i: nat, sorted: seq<nat>, anchors: seq<nat>, p: Placing): Option<Placing>
    requires i <= |path| && Lookable(sorted, p) && forall a :: a in anchors ==> a < |sorted|
    decreases |path| - i
  {
    if i == |path| then Some(p)
    else
      match Served(path, i, sorted, anchors, p)
      case None => None
      case Some(r) => Walked(path, r.next, sorted, anchors, r.placing)
  }

  /** Before the walk stages are looked up in front of the first compute stage. */
  function Start(sorted: seq<nat>, info: map<nat, Info>, anchors: seq<nat>, firstFree: nat): Placing {
    Placing([], {}, info, firstFree, 0, 0, if anchors == [] then |sorted| else anchors[0])
  }

  function ComputeNodes(path: seq<PathNode>): nat {
    if path == [] then 0 else ComputeNodes(path[..|path| - 1]) + if path[|path| - 1].kind == Compute then 1 else 0
  }

  /** Every compute node so far has taken its stage. */
  ghost predicate AnchorsPlaced(path: seq<PathNode>, i: nat, sorted: seq<nat>, anchors: seq<nat>, p: Placing)
    requires i <= |path| && forall a :: a in anchors ==> a < |sorted|
  {
    && p.cursor == ComputeNodes(path[..i]) && p.cursor <= |anchors|
    && forall c :: 0 <= c < p.cursor ==> AnchorStage(sorted, anchors, c) in p.ordered
  }

  lemma ServedAnchors(path: seq<PathNode>, i: nat, sorted: seq<nat>, anchors: seq<nat>, p: Placing)
    requires i < |path| && Lookable(sorted, p) && forall a :: a in anchors ==> a < |sorted|
    requires AnchorsPlaced(path, i, sorted, anchors, p) && Served(path, i, sorted, anchors, p).Some?
    ensures var r := Served(path, i, sorted, anchors, p).value;
      AnchorsPlaced(path, r.next, sorted, anchors, r.placing)
  {
    var r := Served(path, i, sorted, anchors, p).value;
    assert path[..i + 1][..i] == path[..i];
    if r.next == i + 2 {
      assert path[..i + 2][..i + 1] == path[..i + 1];
    }
    assert forall s :: s in p.ordered ==> s in r.placing.ordered;
    if path[i].kind == Compute {
      assert r.placing.ordered[|p.ordered|] == AnchorStage(sorted, anchors, p.cursor);
    }
  }

  /** The compute node in place `e` is taken by the stage that its anchor says: the one on the unit of that node, counted along the path. */
  ghost predicate TakenByAnchor(path: seq<PathNode>, e: nat, sorted: seq<nat>, anchors: seq<nat>, p: Placing)
    requires e < |path| && (forall a :: a in anchors ==> a < |sorted|) && forall s :: s in p.ordered ==> s in p.info
  {
    var c, n, taken := ComputeNodes(path[..e]), |UnitsOnPath(path[..e])|, Assigned(p.info, p.ordered);
    c < |anchors| && n < |taken| && taken[n] == AnchorStage(sorted, anchors, c)
  }

  ghost predicate AllTakenByAnchors(path: seq<PathNode>, i: nat, sorted: seq<nat>, anchors: seq<nat>, p: Placing)
    requires i <= |path| && (forall a :: a in anchors ==> a < |sorted|) && forall s :: s in p.ordered ==> s in p.info
  {
    forall e :: 0 <= e < i && path[e].kind == Compute ==> TakenByAnchor(path, e, sorted, anchors, p)
  }

  /** What a node adds to the stages that have a unit. */
  lemma ServedAssigned(path: seq<PathNode>, i: nat, sorted: seq<nat>, anchors: seq<nat>, firstFree: nat, p: Placing)
    requires i < |path| && Lookable(sorted, p) && forall a :: a in anchors ==> a < |sorted|
    requires Consistent(path, i, sorted, firstFree, p) && Served(path, i, sorted, anchors, p).Some?
    ensures var r := Served(path, i, sorted, anchors, p).value.placing;
      && (forall s :: s in r.ordered ==> s in r.info)
      && Assigned(p.info, p.ordered) <= Assigned(r.info, r.ordered)
      && (path[i].kind == Compute ==>
        Assigned(r.info, r.ordered) == Assigned(p.info, p.ordered) + [AnchorStage(sorted, anchors, p.cursor)])
  {
    var node := path[i];
    match node.kind
    case Memory =>
      var found := StageFor(sorted, p, node.resource);
      if MovesRight(path, i) {
        AppendedUnits(p, OrNew(found, p), Info(Some(node.resource), Some(path[i + 1].resource)), found.Some?);
      } else {
        AppendedUnits(p, found.value, p.info[found.value], true);
      }
    case LoadStore =>
      if StoresRight(path, i) {
        var found := StageFor(sorted, p, path[i + 1].resource);
        AppendedUnits(p, OrNew(found, p), Info(Some(path[i + 1].resource), Some(node.resource)), found.Some?);
      } else {
        AppendedUnits(p, p.nextId, Info(None, Some(node.resource)), false);
      }
    case Compute =>
      var s := AnchorStage(sorted, anchors, p.cursor);
      AppendedUnits(p, s, p.info[s].(unit := Some(node.resource)), true);
  }

  lemma TakenStays(path: seq<PathNode>, e: nat, sorted: seq<nat>, anchors: seq<nat>, p: Placing, q: Placing)
    requires e < |path| && (forall a :: a in anchors ==> a < |sorted|)
    requires (forall s :: s in p.ordered ==> s in p.info) && (forall s :: s in q.ordered ==> s in q.info)
    requires Assigned(p.info, p.ordered) <= Assigned(q.info, q.ordered) && TakenByAnchor(path, e, sorted, anchors, p)
    ensures TakenByAnchor(path, e, sorted, anchors, q)
  {
  }

  lemma ServedNext(path: seq<PathNode>, i: nat, sorted: seq<nat>, anchors: seq<nat>, p: Placing)
    requires i < |path| && Lookable(sorted, p) && forall a :: a in anchors ==> a < |sorted|
    requires Served(path, i, sorted, anchors, p).Some?
    ensures var next := Served(path, i, sorted, anchors, p).value.next;
      i < next <= |path| && forall e :: i < e < next ==> path[e].kind != Compute
  {
  }

  lemma ServedTaken(path: seq<PathNode>, i: nat, sorted: seq<nat>, anchors: seq<nat>, firstFree: nat, p: Placing)
    requires i < |path| && Lookable(sorted, p) && forall a :: a in anchors ==> a < |sorted|
    requires Consistent(path, i, sorted, firstFree, p) && AnchorsPlaced(path, i, sorted, anchors, p)
    requires AllTakenByAnchors(path, i, sorted, anchors, p) && Served(path, i, sorted, anchors, p).Some?
    ensures var r := Served(path, i, sorted, anchors, p).value;
      (forall s :: s in r.placing.ordered ==> s in r.placing.info) && AllTakenByAnchors(path, r.next, sorted, anchors, r.placing)
  {
    var r := Served(path, i, sorted, anchors, p).value;
    ServedAssigned(path, i, sorted, anchors, firstFree, p);
    ServedNext(path, i, sorted, anchors, p);
    forall e | 0 <= e < r.next && path[e].kind == Compute ensures TakenByAnchor(path, e, sorted, anchors, r.placing) {
      if e < i {
        TakenStays(path, e, sorted, anchors, p, r.placing);
      } else {
        AssignedUnits(p.info, p.ordered);
      }
    }
  }

  /** If every compute node has an anchor, each has its own: the first place in the chain with its resource. */
  lemma {:induction false} AnchorsAreFirst(path: seq<PathNode>, sorted: seq<nat>, info: map<nat, Info>, n: nat, e: nat)
    requires n <= |path| && forall s :: s in sorted ==> s in info
    ensures |Anchors(path, sorted, info, n)| <= ComputeNodes(path[..n])
    ensures |Anchors(path, sorted, info, n)| == ComputeNodes(path[..n]) && e < n && path[e].kind == Compute ==>
      var c := ComputeNodes(path[..e]);
      c < |Anchors(path, sorted, info, n)| && FirstPlace(sorted, info, path[e].resource, Anchors(path, sorted, info, n)[c])
  {
    if n > 0 {
      AnchorsAreFirst(path, sorted, info, n - 1, e);
      assert path[..n][..n - 1] == path[..n - 1];
    }
  }

  /**
   * The n-th of the placed stages that have a unit, if n units come before this node on the path, is the
   * first of the chain with the resource of the node, and is on it.
   */
  ghost predicate Takes(path: seq<PathNode>, e: nat, sorted: seq<nat>, info: map<nat, Info>, p: Placing)
    requires e < |path| && (forall s :: s in sorted ==> s in info) && forall s :: s in p.ordered ==> s in p.info
  {
    var n, taken := |UnitsOnPath(path[..e])|, Assigned(p.info, p.ordered);
    && n < |taken| && taken[n] in p.ordered && p.info[taken[n]].unit == Some(path[e].resource)
    && exists k: nat :: FirstPlace(sorted, info, path[e].resource, k) && taken[n] == sorted[k]
  }

  lemma {:induction false} UnitInPlace(path: seq<PathNode>, n: nat, e: nat)
    requires e < n <= |path| && path[e].kind == Compute
    ensures |UnitsOnPath(path[..e])| < |UnitsOnPath(path[..n])|
    ensures UnitsOnPath(path[..n])[|UnitsOnPath(path[..e])|] == path[e].resource
  {
    assert path[..n][..n - 1] == path[..n - 1];
    if e < n - 1 {
      UnitInPlace(path, n - 1, e);
    }
  }

  lemma AnchorsTake(path: seq<PathNode>, sorted: seq<nat>, info: map<nat, Info>, firstFree: nat, p: Placing, e: nat)
    requires (forall s :: s in sorted ==> s in info) && Consistent(path, |path|, sorted, firstFree, p)
    requires var anchors := Anchors(path, sorted, info, |path|);
      AnchorsPlaced(path, |path|, sorted, anchors, p) && AllTakenByAnchors(path, |path|, sorted, anchors, p)
    requires e < |path| && path[e].kind == Compute
    ensures Takes(path, e, sorted, info, p)
  {
    var anchors := Anchors(path, sorted, info, |path|);
    assert path[..|path|] == path;
    AnchorsAreFirst(path, sorted, info, |path|, e);
    assert TakenByAnchor(path, e, sorted, anchors, p);
    AssignedUnits(p.info, p.ordered);
    UnitInPlace(path, |path|, e);
  }

  /** What is known of a stage at its place along the path; of what computes only the unit. */
  datatype Stop = Stop(resource: Option<nat>, unit: Option<nat>) | Computing(on: nat)

  /**
   * The stops of the path from place `i` on. A memory is one with the unit to its right if that moves data,
   * and what moves data is one with the memory to its right.
   */
  function Stops(path: seq<PathNode>, i: nat): seq<Stop>
    requires i <= |path|
    decreases |path| - i
  {
    if i == |path| then []
    else
      var PathNode(kind, resource) := path[i];
      var right := if i + 1 < |path| then Some(path[i + 1]) else None;
      match kind
      case Memory =>
        if right.Some? && right.value.kind == LoadStore then [Stop(Some(resource), Some(right.value.resource))] + Stops(path, i + 2)
        else [Stop(Some(resource), None)] + Stops(path, i + 1)
      case LoadStore =>
        if right.Some? && right.value.kind == Memory then [Stop(Some(right.value.resource), Some(resource))] + Stops(path, i + 2)
        else [Stop(None, Some(resource))] + Stops(path, i + 1)
      case Compute => [Computing(resource)] + Stops(path, i + 1)
  }

  predicate IsAt(x: Info, stop: Stop) {
    match stop
    case Stop(resource, unit) => x == Info(resource, unit)
    case Computing(on) => x.unit == Some(on)
  }

  /** The stages are at these stops, one by one. */
  predicate AreAt(info: map<nat, Info>, ordered: seq<nat>, stops: seq<Stop>) {
    |ordered| == |stops| && forall n :: 0 <= n < |ordered| ==> ordered[n] in info && IsAt(info[ordered[n]], stops[n])
  }

  /** Up to place `i` of the path every stop has its stage. */
  ghost predicate Stopped(path: seq<PathNode>, i: nat, p: Placing, stops: seq<Stop>)
    requires i <= |path|
  {
    AreAt(p.info, p.ordered, stops) && stops + Stops(path, i) == Stops(path, 0)
  }

  lemma AppendedIsAt(p: Placing, s: nat, x: Info, original: bool, stops: seq<Stop>, stop: Stop)
    requires AreAt(p.info, p.ordered, stops) && s !in p.ordered && IsAt(x, stop)
    ensures AreAt(Appended(p, s, x, original).info, Appended(p, s, x, original).ordered, stops + [stop])
  {
  }

  /** The next stop. */
  lemma ServedStops(path: seq<PathNode>, i: nat, sorted: seq<nat>, anchors: seq<nat>, firstFree: nat, p: Placing, stops: seq<Stop>)
    requires i < |path| && Lookable(sorted, p) && forall a :: a in anchors ==> a < |sorted|
    requires Consistent(path, i, sorted, firstFree, p) && Served(path, i, sorted, anchors, p).Some? && Stopped(path, i, p, stops)
    ensures var r := Served(path, i, sorted, anchors, p).value;
      Stops(path, i) != [] && Stopped(path, r.next, r.placing, stops + [Stops(path, i)[0]])
  {
    var node, r := path[i], Served(path, i, sorted, anchors, p).value;
    var stop := Stops(path, i)[0];
    assert (stops + [stop]) + Stops(path, i)[1..] == stops + Stops(path, i);
    match node.kind
    case Memory =>
      var found := StageFor(sorted, p, node.resource);
      if MovesRight(path, i) {
        AppendedIsAt(p, OrNew(found, p), Info(Some(node.resource), Some(path[i + 1].resource)), found.Some?, stops, stop);
      } else {
        AppendedIsAt(p, found.value, p.info[found.value], true, stops, stop);
      }
    case LoadStore =>
      if StoresRight(path, i) {
        var found := StageFor(sorted, p, path[i + 1].resource);
        AppendedIsAt(p, OrNew(found, p), Info(Some(path[i + 1].resource), Some(node.resource)), found.Some?, stops, stop);
      } else {
        AppendedIsAt(p, p.nextId, Info(None, Some(node.resource)), false, stops, stop);
      }
    case Compute =>
      var s := AnchorStage(sorted, anchors, p.cursor);
      AppendedIsAt(p, s, p.info[s].(unit := Some(node.resource)), true, stops, stop);
  }

  method HandleNode(path: seq<PathNode>, i: nat, sorted: seq<nat>, anchors: seq<nat>, ghost firstFree: nat, p: Placing)
    returns (r: Option<Placing>, next: nat)
    requires i < |path| && Consistent(path, i, sorted, firstFree, p) && forall a :: a in anchors ==> a < |sorted|
    ensures Served(path, i, sorted, anchors, p) == if r.Some? then Some(Reached(r.value, next)) else None
    ensures r.Some? ==> next <= |path| && Consistent(path, next, sorted, firstFree, r.value)
  {
    match path[i].kind
    case Memory => r, next := HandleMemoryNode(path, i, sorted, firstFree, p);
    case LoadStore =>
      var placed;
      placed, next := HandleLoadStoreNode(path, i, sorted, firstFree, p);
      r := Some(placed);
    case Compute => r, next := HandleComputeNode(path, i, sorted, anchors, firstFree, p);
  }

  /**
   * Walks the path from left to right, which ends without a result when a node cannot be served. If it
   * gets to the end, there is a stage at every stop of the path, every compute node has taken the first stage
   * of the chain on its unit, no stage is placed twice, new stages have new numbers, and the units of the
   * placed stages are exactly the units of the path, in the same order.
   */
  method BuildExpandedStageList(path: seq<PathNode>, sorted: seq<nat>, info: map<nat, Info>, firstFree: nat)
    returns (r: Option<Placing>)
    requires NoDup(sorted) && forall s :: s in sorted ==> s in info && s < firstFree && info[s].unit == None
    ensures var anchors := Anchors(path, sorted, info, |path|);
      && Lookable(sorted, Start(sorted, info, anchors, firstFree))
      && r == Walked(path, 0, sorted, anchors, Start(sorted, info, anchors, firstFree))
    ensures r.Some? ==> NoDup(r.value.ordered) && forall s :: s in r.value.ordered ==> s in r.value.info
    ensures r.Some? ==> forall e :: 0 <= e < |path| && path[e].kind == Compute ==> Takes(path, e, sorted, info, r.value)
    ensures r.Some? ==> AreAt(r.value.info, r.value.ordered, Stops(path, 0))
    ensures r.Some? ==> UnitsOf(r.value.info, r.value.ordered) == UnitsOnPath(path)
    ensures r.Some? ==> forall s :: s in r.value.ordered ==> s < r.value.nextId && (s in sorted <==> s < firstFree)
    ensures r.Some? ==> forall s :: s in r.value.visited <==> s in sorted && s in r.value.ordered
  {
    var anchors, _ := AnchorIndices(path, sorted, info);
    var p := Start(sorted, info, anchors, firstFree);
    var i := 0;
    assert path[..0] == [] && (anchors != [] ==> anchors[0] in anchors);
    ghost var all, stops: seq<Stop> := Walked(path, 0, sorted, anchors, p), [];
    while i < |path|
      invariant Consistent(path, i, sorted, firstFree, p) && AnchorsPlaced(path, i, sorted, anchors, p)
      invariant Stopped(path, i, p, stops)
      invariant AllTakenByAnchors(path, i, sorted, anchors, p) && Walked(path, i, sorted, anchors, p) == all
    {
      var placed, next := HandleNode(path, i, sorted, anchors, firstFree, p);
      if placed.None? {
        return None;
      }
      ServedAnchors(path, i, sorted, anchors, p);
      ServedTaken(path, i, sorted, anchors, firstFree, p);
      ServedStops(path, i, sorted, anchors, firstFree, p, stops);
      stops := stops + [Stops(path, i)[0]];
      p, i := placed.value, next;
    }
    assert path[..i] == path && stops + [] == stops;
    forall e | 0 <= e < |path| && path[e].kind == Compute ensures Takes(path, e, sorted, info, p) {
      AnchorsTake(path, sorted, info, firstFree, p, e);
    }
    return Some(p);
  }
}
