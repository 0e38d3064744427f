/**
 * A region in which it depends on the order of the search whether the anchor keeps its operands: the loop
 * around it is passed over at first, and kept when it is met again.
 */
module SearchOrder {
  import opened Sequences
  import opened RegionClonePrune
  import opened PrunedValues

  /**
   * The anchor, operation 7 in the region of operation 2, uses what the loop around it carries, and an
   * operation beside the anchor uses a value from outside. Something else in the loop uses the counter.
   */
  function Region(): seq<Node> {
    [ Node(None, Plain, 0, []),
      Node(Some(0), Plain, 1, []),
      Node(Some(0), Plain, 2, []),
      Node(Some(2), Loop, 3, [Free(0)]),
      Node(Some(3), Plain, 4, [Argument(3, 0)]),
      Node(Some(3), Plain, 5, []),
      Node(Some(3), Plain, 6, [Result(1, 0)]),
      Node(Some(3), Plain, 7, [Result(5, 0), Result(6, 0), Argument(3, 1)]),
      Node(Some(3), Terminator, 8, [Argument(3, 1)]) ]
  }

  /** Around the operations of the loop there are the loop, the root and operation 0. */
  lemma AroundInner(a: nat, d: nat)
    requires 4 <= d < 9
    ensures Encloses(Region(), a, d) <==> a in {d, 3, 2, 0}
    ensures Encloses(Region(), a, 3) <==> a in {3, 2, 0}
  {
    var nodes := Region();
    assert Encloses(nodes, a, 2) <==> a in {2, 0};
    assert Encloses(nodes, a, 3) <==> a == 3 || Encloses(nodes, a, 2);
    assert nodes[d].parent == Some(3);
  }

  lemma ResultsUsed(u: nat, d: nat)
    requires u < 9
    ensures UsedIn(Region()[u].uses, d) <==> (u == 6 && d == 1) || (u == 7 && d in {5, 6})
  {
    var nodes := Region();
    if u == 6 {
      assert nodes[6].uses[0] == Result(1, 0);
    } else if u == 7 {
      assert nodes[7].uses[0] == Result(5, 0) && nodes[7].uses[1] == Result(6, 0);
    }
  }

  lemma ArgumentsUsed(u: nat, k: nat)
    requires u < 9 && k < |Region()[u].uses| && Region()[u].uses[k].Argument?
    ensures u in {4, 7, 8} && Region()[u].uses[k].owner == 3
  {
  }

  lemma RegionIsScoped()
    ensures Scoped(Region()) && Inside(Region(), 2, 7) && Inside(Region(), 2, 3)
  {
    var nodes := Region();
    forall u: nat, k: nat | u < 9 && k < |nodes[u].uses| && nodes[u].uses[k].Argument?
      ensures nodes[u].uses[k].owner < 9 && nodes[u].uses[k].owner != u && Encloses(nodes, nodes[u].uses[k].owner, u)
    {
      ArgumentsUsed(u, k);
      AroundInner(3, u);
    }
    forall d: nat, u: nat | u < 9 && UsedIn(nodes[u].uses, d) ensures Visible(nodes, d, u) {
      ResultsUsed(u, d);
      AroundInner(d, u);
      AroundInner(3, u);
      AroundInner(0, u);
    }
    AroundInner(2, 7);
  }

  /** The counter of the loop is used in operation 4, and so in what lies around that. */
  lemma CounterUsed(k: nat)
    ensures CounterUsedIn(Region(), 3, k) <==> k in {4, 3, 2, 0}
  {
    var nodes := Region();
    AroundInner(k, 4);
    assert nodes[4].uses[0] == Argument(3, 0);
    assert UsesCounter(nodes, 3, 4);
    assert forall u :: 0 <= u < 9 && UsesCounter(nodes, 3, u) ==> u == 4;
  }

  // ---------------------------------------------------------------------------------------------
  // The search, from the inside out
  // ---------------------------------------------------------------------------------------------

  /** What the search sees of the region. */
  ghost predicate Shaped(nodes: seq<Node>) {
    && Nested(nodes) && |nodes| == 9
    && Plainly(nodes, 0, None, []) && Plainly(nodes, 1, Some(0), []) && Plainly(nodes, 5, Some(3), [])
    && Plainly(nodes, 6, Some(3), [Some(1)]) && Plainly(nodes, 7, Some(3), [Some(5), Some(6)])
    && nodes[3].kind == Loop && nodes[3].parent == Some(2) && DefinitionsOf(nodes[3].uses) == []
    && forall k: nat :: CounterUsedIn(nodes, 3, k) <==> k in {4, 3, 2, 0}
  }

  ghost predicate Plainly(nodes: seq<Node>, i: nat, parent: Option<nat>, definitions: seq<Option<nat>>) {
    i < |nodes| && nodes[i].kind == Plain && nodes[i].parent == parent && DefinitionsOf(nodes[i].uses) == definitions
  }

  lemma OneDefinition(u: Use)
    ensures DefinitionsOf([u]) == if u.Result? then [Some(u.op)] else []
  {
    assert [u][1..] == [];
  }

  lemma AnchorDefinitions()
    ensures DefinitionsOf(Region()[7].uses) == [Some(5), Some(6)]
  {
    assert Region()[7].uses[1..][1..] == [Argument(3, 1)];
    OneDefinition(Argument(3, 1));
  }

  lemma OtherDefinitions()
    ensures DefinitionsOf(Region()[3].uses) == [] && DefinitionsOf(Region()[6].uses) == [Some(1)]
  {
    OneDefinition(Free(0));
    OneDefinition(Result(1, 0));
  }

  lemma WithoutDefinitions()
    ensures Plainly(Region(), 0, None, []) && Plainly(Region(), 1, Some(0), []) && Plainly(Region(), 5, Some(3), [])
  {
  }

  lemma WithDefinitions()
    ensures Plainly(Region(), 6, Some(3), [Some(1)]) && Plainly(Region(), 7, Some(3), [Some(5), Some(6)])
  {
    OtherDefinitions();
    AnchorDefinitions();
  }

  lemma LoopInRegion()
    ensures Region()[3].kind == Loop && Region()[3].parent == Some(2) && DefinitionsOf(Region()[3].uses) == []
  {
    OtherDefinitions();
  }

  lemma RegionIsShaped()
    ensures Shaped(Region())
  {
    WithoutDefinitions();
    WithDefinitions();
    LoopInRegion();
    CounterUsedAnywhere();
  }

  lemma CounterUsedAnywhere()
    ensures forall k: nat :: CounterUsedIn(Region(), 3, k) <==> k in {4, 3, 2, 0}
  {
    forall k: nat ensures CounterUsedIn(Region(), 3, k) <==> k in {4, 3, 2, 0} {
      CounterUsed(k);
    }
  }

  /** A plain operation is kept after all that is around it. */
  lemma Keeps(nodes: seq<Node>, w: nat, parent: Option<nat>, definitions: seq<Option<nat>>, kept: set<nat>, around: set<nat>)
    requires Nested(nodes) && Plainly(nodes, w, parent, definitions) && w != 2 && w !in kept
    requires around == Visited(nodes, 2, kept + {w}, parent)
    ensures Visited(nodes, 2, kept, Some(w)) == VisitedAll(nodes, 2, around, definitions)
  {
  }

  /** As long as nothing around the user of the counter has been kept, the loop is passed over. */
  lemma Passes(nodes: seq<Node>, kept: set<nat>)
    requires Shaped(nodes) && kept !! {4, 3, 2, 0}
    ensures Visited(nodes, 2, kept, Some(3)) == kept
  {
    assert !CounterUsedByKept(nodes, 3, kept);
    assert Visited(nodes, 2, kept, Some(2)) == kept;
  }

  /** Afterwards it is kept. */
  lemma LoopAgain(nodes: seq<Node>, kept: set<nat>)
    requires Shaped(nodes) && 0 in kept && 3 !in kept
    ensures Visited(nodes, 2, kept, Some(3)) == kept + {3}
  {
    assert CounterUsedIn(nodes, 3, 0) && CounterUsedByKept(nodes, 3, kept);
    assert Visited(nodes, 2, kept + {3}, Some(2)) == kept + {3};
  }

  lemma OuterDefinition(nodes: seq<Node>, kept: set<nat>)
    requires Shaped(nodes) && 0 !in kept && 1 !in kept
    ensures Visited(nodes, 2, kept, Some(1)) == kept + {1} + {0}
  {
    Keeps(nodes, 0, None, [], kept + {1}, kept + {1} + {0});
    Keeps(nodes, 1, Some(0), [], kept, kept + {1} + {0});
  }

  lemma UserOfOuter(nodes: seq<Node>, kept: set<nat>)
    requires Shaped(nodes) && kept !! {6, 4, 3, 2, 1, 0}
    ensures Visited(nodes, 2, kept, Some(6)) == kept + {6} + {1} + {0}
  {
    Passes(nodes, kept + {6});
    Keeps(nodes, 6, Some(3), [Some(1)], kept, kept + {6});
    OuterDefinition(nodes, kept + {6});
    VisitedOne(nodes, 2, kept + {6}, Some(1));
  }

  lemma OtherDefinition(nodes: seq<Node>, kept: set<nat>)
    requires Shaped(nodes) && 0 in kept && 3 !in kept && 5 !in kept
    ensures Visited(nodes, 2, kept, Some(5)) == kept + {5} + {3}
  {
    LoopAgain(nodes, kept + {5});
    Keeps(nodes, 5, Some(3), [], kept, kept + {5} + {3});
  }

  /** The last definition first. */
  lemma BothDefinitions(nodes: seq<Node>, kept: set<nat>)
    requires Shaped(nodes) && kept !! {6, 5, 4, 3, 2, 1, 0}
    ensures VisitedAll(nodes, 2, kept, [Some(5), Some(6)]) == kept + {6} + {1} + {0} + {5} + {3}
  {
    UserOfOuter(nodes, kept);
    assert [Some(5), Some(6)][..1] == [Some(5)];
    OtherDefinition(nodes, kept + {6} + {1} + {0});
    VisitedOne(nodes, 2, kept + {6} + {1} + {0}, Some(5));
  }

  lemma LoopIsKept(nodes: seq<Node>)
    requires Shaped(nodes)
    ensures Searched(nodes, 2, 7) == {7, 6, 1, 0, 5, 3}
  {
    Passes(nodes, {} + {7});
    Keeps(nodes, 7, Some(3), [Some(5), Some(6)], {}, {} + {7});
    BothDefinitions(nodes, {} + {7});
  }

  // ---------------------------------------------------------------------------------------------
  // What is asked for is kept, although not all of it is followed
  // ---------------------------------------------------------------------------------------------

  lemma YieldedByLoop()
    ensures YieldsFrom(Original(Region()), 3, 0) == [Argument(3, 1)]
  {
    var p := Original(Region());
    assert YieldsFrom(p, 3, 9) == [] && YieldsFrom(p, 3, 8) == [Argument(3, 1)];
    assert YieldsFrom(p, 3, 7) == [Argument(3, 1)] && YieldsFrom(p, 3, 6) == [Argument(3, 1)] && YieldsFrom(p, 3, 5) == [Argument(3, 1)];
    assert YieldsFrom(p, 3, 4) == [Argument(3, 1)] && YieldsFrom(p, 3, 3) == [Argument(3, 1)] && YieldsFrom(p, 3, 2) == [Argument(3, 1)];
    assert YieldsFrom(p, 3, 1) == [Argument(3, 1)];
  }

  /** Nothing but the loop yields. */
  lemma {:induction false} OthersYieldNothing(d: nat, j: nat)
    requires d != 3 && j <= 9
    ensures YieldsFrom(Original(Region()), d, j) == []
    decreases 9 - j
  {
    if j < 9 {
      OthersYieldNothing(d, j + 1);
    }
  }

  lemma YieldedBy(d: nat, inner: seq<Use>)
    requires inner == YieldsFrom(Original(Region()), d, 0)
    ensures inner == [] || inner == [Argument(3, 1)]
  {
    if d == 3 {
      YieldedByLoop();
    } else {
      OthersYieldNothing(d, 0);
    }
  }

  /** The uses are of operations in the set, and of their arguments. */
  predicate UsesWithin(us: seq<Use>, all: set<nat>) {
    forall k :: 0 <= k < |us| ==> match us[k] {
      case Result(op, _) => op in all
      case Argument(owner, _) => owner in all
      case Free(_) => true
    }
  }

  /** The anchor's uses are within the set, and those of its members. */
  ghost predicate AllUsesWithin(nodes: seq<Node>, anchor: nat, all: set<nat>)
    requires anchor < |nodes|
  {
    && UsesWithin(nodes[anchor].uses, all)
    && forall d: nat :: d in all && d < |nodes| ==> UsesWithin(nodes[d].uses, all) && UsesWithin(YieldsFrom(Original(nodes), d, 0), all)
  }

  /** Then all that the anchor's operands depend on is in the set. */
  lemma {:induction false} DemandedStaysIn(nodes: seq<Node>, anchor: nat, all: set<nat>, d: Demand, steps: nat)
    requires Nested(nodes) && anchor < |nodes|
    ensures AllUsesWithin(nodes, anchor, all) && DemandedIn(nodes, anchor, d, steps) ==> d.op in all
    decreases steps
  {
    if AllUsesWithin(nodes, anchor, all) && DemandedIn(nodes, anchor, d, steps) && !Asks(nodes, nodes[anchor].uses, d) {
      var e: Demand :| e.op < |nodes| && DemandedIn(nodes, anchor, e, steps - 1) && Asks(nodes, UsesOf(nodes, e), d);
      DemandedStaysIn(nodes, anchor, all, e, steps - 1);
      AsksEither(nodes, nodes[e.op].uses, if e.yielded then YieldsFrom(Original(nodes), e.op, 0) else [], d);
    }
  }

  lemma UsesHere(all: set<nat>)
    requires all == {1, 3, 5, 6}
    ensures AllUsesWithin(Region(), 7, all)
  {
    assert UsesWithin(Region()[7].uses, all);
    forall d: nat | d in all ensures UsesWithin(Region()[d].uses, all) && UsesWithin(YieldsFrom(Original(Region()), d, 0), all) {
      UsesOfOne(d, all);
    }
  }

  lemma UsesOfOne(d: nat, all: set<nat>)
    requires all == {1, 3, 5, 6} && d in all
    ensures UsesWithin(Region()[d].uses, all) && UsesWithin(YieldsFrom(Original(Region()), d, 0), all)
  {
    OwnUses(d, all);
    var inner := YieldsFrom(Original(Region()), d, 0);
    YieldedBy(d, inner);
    YieldUses(inner, all);
  }

  lemma OwnUses(d: nat, all: set<nat>)
    requires all == {1, 3, 5, 6} && d in all
    ensures UsesWithin(Region()[d].uses, all)
  {
  }

  lemma YieldUses(inner: seq<Use>, all: set<nat>)
    requires 3 in all && (inner == [] || inner == [Argument(3, 1)])
    ensures UsesWithin(inner, all)
  {
  }

  lemma {:induction false} FollowedStaysIn(nodes: seq<Node>, root: nat, anchor: nat, all: set<nat>, i: nat, steps: nat)
    requires Nested(nodes) && root < |nodes| && anchor in all && FollowedIn(nodes, root, anchor, i, steps)
    requires forall k: nat, j: nat :: k in all && k < |nodes| && FollowsFrom(nodes, root, k, j) ==> j in all
    ensures i in all
    decreases steps
  {
    if i != anchor {
      var k: nat :| k < |nodes| && FollowedIn(nodes, root, anchor, k, steps - 1) && FollowsFrom(nodes, root, k, i);
      FollowedStaysIn(nodes, root, anchor, all, k, steps - 1);
    }
  }

  lemma FollowedHere(i: nat, steps: nat)
    requires FollowedIn(Region(), 2, 7, i, steps)
    ensures i in {7, 6, 5, 1, 0}
  {
    forall k: nat, j: nat | k in {7, 6, 5, 1, 0} && k < 9 && FollowsFrom(Region(), 2, k, j) ensures j in {7, 6, 5, 1, 0} {
      FollowsHere(k, j);
    }
    FollowedStaysIn(Region(), 2, 7, {7, 6, 5, 1, 0}, i, steps);
  }

  lemma FollowsHere(k: nat, i: nat)
    requires k in {7, 6, 5, 1, 0} && FollowsFrom(Region(), 2, k, i)
    ensures i in {7, 6, 5, 1, 0}
  {
    if UsedIn(Region()[k].uses, i) {
      ResultsUsed(k, i);
    } else {
      RequiredHere(i, k);
    }
  }

  lemma RequiredHere(a: nat, k: nat)
    requires a < 9 && k in {7, 6, 5, 1, 0}
    ensures RequiredFor(Region(), 2, a, k) ==> a == 0
  {
    assert Encloses(Region(), 2, 2) && Encloses(Region(), 0, 2);
    CounterUsed(k);
    if k >= 4 {
      AroundInner(2, k);
      AroundInner(a, k);
    }
  }

  /** The anchor keeps its operands, and the condition on what is followed fails: it has to be sought where no loop is met like that. */
  lemma KeptThoughNotClean()
    ensures Scoped(Region()) && Inside(Region(), 2, 7) && Region()[7].kind == Plain
    ensures AnchorKept(Region(), 2, 7, Searched(Region(), 2, 7)) && !Clean(Region(), 2, 7) && !NoSideLoop(Region(), 2, 7)
  {
    var nodes := Region();
    RegionIsScoped();
    RegionIsShaped();
    LoopIsKept(nodes);
    SearchedIsKeptFor(nodes, 2, 7);
    KeptIffDemandedKept(nodes, 2, 7, Searched(nodes, 2, 7));
    UsesHere({1, 3, 5, 6});
    forall d | Demanded(nodes, 7, d) ensures d.op in Searched(nodes, 2, 7) {
      var steps: nat :| DemandedIn(nodes, 7, d, steps);
      DemandedStaysIn(nodes, 7, {1, 3, 5, 6}, d, steps);
    }
    LoopIsDemanded();
    if Followed(nodes, 2, 7, 3) {
      var steps: nat :| FollowedIn(nodes, 2, 7, 3, steps);
      FollowedHere(3, steps);
    }
    PruningKeepsIff(nodes, 2, 7);
  }

  lemma LoopIsDemanded()
    ensures Demanded(Region(), 7, Demand(3, true))
  {
    assert AsksFor(Region(), Region()[7].uses[2], Demand(3, true));
    assert DemandedIn(Region(), 7, Demand(3, true), 0);
  }
}
