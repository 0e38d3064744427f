/**
 * What pruning does to the values that the anchor uses: what they depend on, through operands, through
 * what operations yield from inside and through what loops carry, and when all of that is left.
 */
module PrunedValues {
  import opened Sequences
  import opened RegionClonePrune

  // ---------------------------------------------------------------------------------------------
  // What a value depends on
  // ---------------------------------------------------------------------------------------------

  /** A program before or after pruning: which operations are there, and what each is nested in. */
  datatype Program = Program(nodes: seq<Node>, parents: seq<Option<nat>>, alive: set<nat>)

  ghost function Original(nodes: seq<Node>): (p: Program)
    ensures |p.parents| == |nodes| && forall i :: 0 <= i < |nodes| ==> p.parents[i] == nodes[i].parent
  {
    Program(nodes, seq(|nodes|, i requires 0 <= i < |nodes| => nodes[i].parent), Range(0, |nodes|))
  }

  ghost function Pruned(nodes: seq<Node>, root: nat, kept: set<nat>): (p: Program)
    requires Nested(nodes)
    ensures |p.parents| == |nodes| && Climbed(nodes, root, kept, 0, p.parents)
    ensures forall i: nat :: i in p.alive <==> i < |nodes| && Survives(nodes, root, kept, i)
  {
    Program(nodes, seq(|nodes|, j requires 0 <= j < |nodes| => Climb(nodes, root, kept, 0, nodes[j].parent)),
      set i | i in Range(0, |nodes|) && Survives(nodes, root, kept, i))
  }

  predicate Complete(p: Program) {
    |p.parents| == |p.nodes|
  }

  /** What the terminators in operation `d` yield, from place `j` of the listing on. */
  function YieldsFrom(p: Program, d: nat, j: nat): seq<Use>
    requires Complete(p)
    decreases |p.nodes| - j
  {
    if j >= |p.nodes| then []
    else (if IsYield(p, d, j) then p.nodes[j].uses else []) + YieldsFrom(p, d, j + 1)
  }

  predicate IsYield(p: Program, d: nat, j: nat)
    requires Complete(p) && j < |p.nodes|
  {
    j in p.alive && p.nodes[j].kind == Terminator && p.parents[j] == Some(d)
  }

  /** Beyond its inits, what a loop carries depends on what its body yields. */
  predicate Carried(nodes: seq<Node>, owner: nat, index: nat) {
    owner < |nodes| && nodes[owner].kind == Loop && index > 0
  }

  /** A value with everything it is computed from; `Gone` where that has been erased. */
  datatype Tree =
    | Gone
    | Cut
    | Name(name: nat)
    | Value(code: nat, index: nat, operands: seq<Tree>, yielded: seq<Tree>)
    | Arg(code: nat, index: nat, operands: seq<Tree>, yielded: seq<Tree>)

  /** The value `u`, followed back for `n` steps: an operation's operands, and what it yields from inside. */
  function Unfold(p: Program, u: Use, n: nat): Tree
    requires Complete(p)
    decreases n, 0
  {
    match u
    case Free(name) => Name(name)
    case Result(d, k) =>
      if d !in p.alive || d >= |p.nodes| then Gone
      else if n == 0 then Cut
      else Value(p.nodes[d].code, k, UnfoldAll(p, p.nodes[d].uses, n - 1), UnfoldAll(p, YieldsFrom(p, d, 0), n - 1))
    case Argument(o, k) =>
      if o !in p.alive || o >= |p.nodes| then Gone
      else if n == 0 then Cut
      else
        Arg(p.nodes[o].code, k, UnfoldAll(p, p.nodes[o].uses, n - 1),
          if Carried(p.nodes, o, k) then UnfoldAll(p, YieldsFrom(p, o, 0), n - 1) else [])
  }

  function UnfoldAll(p: Program, us: seq<Use>, n: nat): (r: seq<Tree>)
    requires Complete(p)
    ensures |r| == |us|
    decreases n, 1, |us|
  {
    if us == [] then [] else [Unfold(p, us[0], n)] + UnfoldAll(p, us[1..], n)
  }

  lemma {:induction false} UnfoldAllAt(p: Program, us: seq<Use>, n: nat, k: nat)
    requires Complete(p) && k < |us|
    ensures UnfoldAll(p, us, n)[k] == Unfold(p, us[k], n)
    decreases |us|
  {
    if k > 0 {
      UnfoldAllAt(p, us[1..], n, k - 1);
    }
  }

  lemma UnfoldAllSame(p: Program, q: Program, us: seq<Use>, n: nat)
    requires Complete(p) && Complete(q)
    ensures UnfoldAll(p, us, n) == UnfoldAll(q, us, n) <==> forall k :: 0 <= k < |us| ==> Unfold(p, us[k], n) == Unfold(q, us[k], n)
  {
    forall k | 0 <= k < |us|
      ensures UnfoldAll(p, us, n)[k] == Unfold(p, us[k], n) && UnfoldAll(q, us, n)[k] == Unfold(q, us[k], n)
    {
      UnfoldAllAt(p, us, n, k);
      UnfoldAllAt(q, us, n, k);
    }
  }

  /** However far it is followed back, the value is the one it was. */
  ghost predicate SameUse(p: Program, u: Use)
    requires Complete(p)
  {
    forall n: nat :: Unfold(p, u, n) == Unfold(Original(p.nodes), u, n)
  }

  ghost predicate SameUses(p: Program, us: seq<Use>)
    requires Complete(p)
  {
    forall k :: 0 <= k < |us| ==> SameUse(p, us[k])
  }

  /** A value asks for an operation, and for what that yields if its results or carried arguments are used. */
  datatype Demand = Demand(op: nat, yielded: bool)

  predicate AsksFor(nodes: seq<Node>, u: Use, d: Demand) {
    match u
    case Free(_) => false
    case Result(op, _) => d == Demand(op, true)
    case Argument(owner, index) => d == Demand(owner, Carried(nodes, owner, index))
  }

  ghost predicate Asks(nodes: seq<Node>, us: seq<Use>, d: Demand) {
    exists k :: 0 <= k < |us| && AsksFor(nodes, us[k], d)
  }

  ghost function UsesOf(nodes: seq<Node>, d: Demand): seq<Use>
    requires d.op < |nodes|
  {
    nodes[d.op].uses + if d.yielded then YieldsFrom(Original(nodes), d.op, 0) else []
  }

  ghost predicate DemandedIn(nodes: seq<Node>, anchor: nat, d: Demand, steps: nat)
    requires anchor < |nodes|
    decreases steps
  {
    || Asks(nodes, nodes[anchor].uses, d)
    || (steps > 0 && exists e: Demand :: e.op < |nodes| && DemandedIn(nodes, anchor, e, steps - 1) && Asks(nodes, UsesOf(nodes, e), d))
  }

  /** The anchor's operands depend on it. */
  ghost predicate Demanded(nodes: seq<Node>, anchor: nat, d: Demand)
    requires anchor < |nodes|
  {
    exists steps: nat :: DemandedIn(nodes, anchor, d, steps)
  }

  lemma DemandedNext(nodes: seq<Node>, anchor: nat, e: Demand, d: Demand)
    requires anchor < |nodes| && e.op < |nodes| && Demanded(nodes, anchor, e) && Asks(nodes, UsesOf(nodes, e), d)
    ensures Demanded(nodes, anchor, d)
  {
    var steps: nat :| DemandedIn(nodes, anchor, e, steps);
    assert DemandedIn(nodes, anchor, d, steps + 1);
  }

  /** What is used is an operation of the listing, and no terminator. */
  lemma AskedIsThere(nodes: seq<Node>, u: nat, d: Demand)
    requires Scoped(nodes) && u < |nodes| && Asks(nodes, nodes[u].uses, d)
    ensures d.op < |nodes| && nodes[d.op].kind != Terminator
  {
    var k :| 0 <= k < |nodes[u].uses| && AsksFor(nodes, nodes[u].uses[k], d);
    if nodes[u].uses[k].Result? {
      assert UsedIn(nodes[u].uses, d.op);
      assert Visible(nodes, d.op, u);
    } else {
      OwnerIsNoTerminator(nodes, d.op, u);
    }
  }

  lemma {:induction false} OwnerIsNoTerminator(nodes: seq<Node>, o: nat, u: nat)
    requires Scoped(nodes) && u < |nodes| && o != u && Encloses(nodes, o, u)
    ensures o < |nodes| && nodes[o].kind != Terminator
    decreases u
  {
    var p := nodes[u].parent.value;
    if p != o {
      OwnerIsNoTerminator(nodes, o, p);
    }
  }

  /** What an operation yields is used by its terminators. */
  lemma {:induction false} YieldedByTerminator(p: Program, d: nat, j: nat, k: nat) returns (t: nat, i: nat)
    requires Complete(p) && k < |YieldsFrom(p, d, j)|
    ensures j <= t < |p.nodes| && IsYield(p, d, t) && i < |p.nodes[t].uses| && p.nodes[t].uses[i] == YieldsFrom(p, d, j)[k]
    decreases |p.nodes| - j
  {
    var own := if IsYield(p, d, j) then p.nodes[j].uses else [];
    if k < |own| {
      t, i := j, k;
    } else {
      t, i := YieldedByTerminator(p, d, j + 1, k - |own|);
    }
  }

  lemma UsesAreThere(nodes: seq<Node>, e: Demand, d: Demand)
    requires Scoped(nodes) && e.op < |nodes| && Asks(nodes, UsesOf(nodes, e), d)
    ensures d.op < |nodes| && nodes[d.op].kind != Terminator
  {
    var own, inner := nodes[e.op].uses, YieldsFrom(Original(nodes), e.op, 0);
    AsksEither(nodes, own, if e.yielded then inner else [], d);
    if Asks(nodes, own, d) {
      AskedIsThere(nodes, e.op, d);
    } else {
      var k :| 0 <= k < |inner| && AsksFor(nodes, inner[k], d);
      YieldedIsThere(nodes, e.op, k, d);
    }
  }

  lemma AsksEither(nodes: seq<Node>, a: seq<Use>, b: seq<Use>, d: Demand)
    requires Asks(nodes, a + b, d)
    ensures Asks(nodes, a, d) || Asks(nodes, b, d)
  {
    var k :| 0 <= k < |a + b| && AsksFor(nodes, (a + b)[k], d);
    assert if k < |a| then AsksFor(nodes, a[k], d) else AsksFor(nodes, b[k - |a|], d);
  }

  lemma YieldedIsThere(nodes: seq<Node>, op: nat, k: nat, d: Demand)
    requires Scoped(nodes) && op < |nodes| && k < |YieldsFrom(Original(nodes), op, 0)| && AsksFor(nodes, YieldsFrom(Original(nodes), op, 0)[k], d)
    ensures d.op < |nodes| && nodes[d.op].kind != Terminator
  {
    var t, i := YieldedByTerminator(Original(nodes), op, 0, k);
    assert AsksFor(nodes, nodes[t].uses[i], d);
    AskedIsThere(nodes, t, d);
  }

  lemma DemandedIsThere(nodes: seq<Node>, anchor: nat, d: Demand)
    requires Scoped(nodes) && anchor < |nodes| && Demanded(nodes, anchor, d)
    ensures d.op < |nodes| && nodes[d.op].kind != Terminator
  {
    var steps: nat :| DemandedIn(nodes, anchor, d, steps);
    if Asks(nodes, nodes[anchor].uses, d) {
      AskedIsThere(nodes, anchor, d);
    } else {
      var e: Demand :| e.op < |nodes| && DemandedIn(nodes, anchor, e, steps - 1) && Asks(nodes, UsesOf(nodes, e), d);
      UsesAreThere(nodes, e, d);
    }
  }

  // ---------------------------------------------------------------------------------------------
  // The anchor keeps its values exactly when what they depend on survives
  // ---------------------------------------------------------------------------------------------

  /** Pruning takes no terminator away from an operation that is left, and gives it none. */
  ghost predicate YieldsKept(p: Program)
    requires Complete(p)
  {
    forall d: nat :: d in p.alive ==> YieldsFrom(p, d, 0) == YieldsFrom(Original(p.nodes), d, 0)
  }

  lemma {:induction false} SameYields(p: Program, q: Program, d: nat, j: nat)
    requires Complete(p) && Complete(q) && p.nodes == q.nodes
    requires forall i :: 0 <= i < |p.nodes| ==> (IsYield(p, d, i) <==> IsYield(q, d, i))
    ensures YieldsFrom(p, d, j) == YieldsFrom(q, d, j)
    decreases |p.nodes| - j
  {
    if j < |p.nodes| {
      SameYields(p, q, d, j + 1);
    }
  }

  lemma PrunedKeepsYields(nodes: seq<Node>, root: nat, kept: set<nat>)
    requires Scoped(nodes) && root < |nodes| && forall i :: i in kept ==> i < |nodes| && nodes[i].kind != Terminator
    ensures Complete(Pruned(nodes, root, kept)) && YieldsKept(Pruned(nodes, root, kept))
  {
    var p, q := Pruned(nodes, root, kept), Original(nodes);
    forall d: nat | d in p.alive ensures YieldsFrom(p, d, 0) == YieldsFrom(q, d, 0) {
      forall j | 0 <= j < |nodes| ensures IsYield(p, d, j) <==> IsYield(q, d, j) {
        if nodes[j].kind == Terminator && nodes[j].parent.Some? {
          TerminatorStaysPut(nodes, root, kept, d, j);
        }
      }
      SameYields(p, q, d, 0);
    }
  }

  lemma TerminatorStaysPut(nodes: seq<Node>, root: nat, kept: set<nat>, d: nat, j: nat)
    requires Scoped(nodes) && root < |nodes| && (forall i :: i in kept ==> i < |nodes| && nodes[i].kind != Terminator)
    requires j < |nodes| && nodes[j].kind == Terminator && nodes[j].parent.Some? && d < |nodes| && Survives(nodes, root, kept, d)
    ensures Survives(nodes, root, kept, j) && Climb(nodes, root, kept, 0, nodes[j].parent) == Some(d) <==> nodes[j].parent == Some(d)
  {
    var q := nodes[j].parent.value;
    assert Inside(nodes, root, q) ==> Inside(nodes, root, j) by {
      if Inside(nodes, root, q) && j == root {
        EnclosesIsEarlier(nodes, root, q);
      }
    }
    if Survives(nodes, root, kept, j) {
      assert Stays(nodes, root, kept, q);
    }
  }

  /** Everything that the anchor depends on is there. */
  ghost predicate AllThere(p: Program, anchor: nat)
    requires anchor < |p.nodes|
  {
    forall d :: Demanded(p.nodes, anchor, d) ==> d.op in p.alive && d.op < |p.nodes|
  }

  ghost predicate AsksDemanded(nodes: seq<Node>, anchor: nat, us: seq<Use>)
    requires anchor < |nodes|
  {
    forall d :: Asks(nodes, us, d) ==> Demanded(nodes, anchor, d)
  }

  /** As long as everything that is asked for is there, unfolding gives the same. */
  lemma {:induction false} UnfoldsSame(p: Program, anchor: nat, us: seq<Use>, n: nat)
    requires Complete(p) && anchor < |p.nodes|
    ensures YieldsKept(p) && AllThere(p, anchor) && AsksDemanded(p.nodes, anchor, us) ==>
      UnfoldAll(p, us, n) == UnfoldAll(Original(p.nodes), us, n)
    decreases n, 1
  {
    if YieldsKept(p) && AllThere(p, anchor) && AsksDemanded(p.nodes, anchor, us) {
      forall k | 0 <= k < |us| ensures Unfold(p, us[k], n) == Unfold(Original(p.nodes), us[k], n) {
        forall d | AsksFor(p.nodes, us[k], d) ensures Demanded(p.nodes, anchor, d) {
          assert Asks(p.nodes, us, d);
        }
        UnfoldsSameOne(p, anchor, us[k], n);
      }
      UnfoldAllSame(p, Original(p.nodes), us, n);
    }
  }

  lemma {:induction false} UnfoldsSameOne(p: Program, anchor: nat, u: Use, n: nat)
    requires Complete(p) && YieldsKept(p) && anchor < |p.nodes| && AllThere(p, anchor)
    requires forall d :: AsksFor(p.nodes, u, d) ==> Demanded(p.nodes, anchor, d)
    ensures Unfold(p, u, n) == Unfold(Original(p.nodes), u, n)
    decreases n, 0
  {
    if !u.Free? {
      var d := if u.Result? then Demand(u.op, true) else Demand(u.owner, Carried(p.nodes, u.owner, u.index));
      assert AsksFor(p.nodes, u, d);
      if n > 0 {
        UnfoldsSameBelow(p, anchor, d, n - 1);
        SameFromBelow(p, u, d, n);
      } else {
        SameAtOnce(p, u, d);
      }
    }
  }

  lemma SameAtOnce(p: Program, u: Use, d: Demand)
    requires Complete(p) && AsksFor(p.nodes, u, d) && d.op in p.alive && d.op < |p.nodes|
    ensures Unfold(p, u, 0) == Unfold(Original(p.nodes), u, 0)
  {
  }

  lemma SameFromBelow(p: Program, u: Use, d: Demand, n: nat)
    requires Complete(p) && AsksFor(p.nodes, u, d) && d.op in p.alive && d.op < |p.nodes| && n > 0
    requires UnfoldAll(p, p.nodes[d.op].uses, n - 1) == UnfoldAll(Original(p.nodes), p.nodes[d.op].uses, n - 1)
    requires d.yielded ==> UnfoldAll(p, YieldsFrom(p, d.op, 0), n - 1) == UnfoldAll(Original(p.nodes), YieldsFrom(Original(p.nodes), d.op, 0), n - 1)
    ensures Unfold(p, u, n) == Unfold(Original(p.nodes), u, n)
  {
    var q, uses := Original(p.nodes), p.nodes[d.op].uses;
    var own, inner := UnfoldAll(p, uses, n - 1), if d.yielded then UnfoldAll(p, YieldsFrom(p, d.op, 0), n - 1) else [];
    UnfoldsTo(p, u, d, n, own, inner);
    UnfoldsTo(q, u, d, n, own, inner);
  }

  lemma UnfoldsTo(p: Program, u: Use, d: Demand, n: nat, own: seq<Tree>, inner: seq<Tree>)
    requires Complete(p) && AsksFor(p.nodes, u, d) && n > 0 && d.op in p.alive && d.op < |p.nodes|
    requires own == UnfoldAll(p, p.nodes[d.op].uses, n - 1)
    requires inner == if d.yielded then UnfoldAll(p, YieldsFrom(p, d.op, 0), n - 1) else []
    ensures Unfold(p, u, n) == if u.Result? then Value(p.nodes[d.op].code, u.index, own, inner) else Arg(p.nodes[d.op].code, u.index, own, inner)
  {
  }

  lemma {:induction false} UnfoldsSameBelow(p: Program, anchor: nat, d: Demand, n: nat)
    requires Complete(p) && anchor < |p.nodes| && d.op < |p.nodes|
    ensures YieldsKept(p) && AllThere(p, anchor) && Demanded(p.nodes, anchor, d) ==>
      && UnfoldAll(p, p.nodes[d.op].uses, n) == UnfoldAll(Original(p.nodes), p.nodes[d.op].uses, n)
      && (d.yielded ==> UnfoldAll(p, YieldsFrom(p, d.op, 0), n) == UnfoldAll(Original(p.nodes), YieldsFrom(Original(p.nodes), d.op, 0), n))
    decreases n, 2
  {
    if Demanded(p.nodes, anchor, d) {
      var nodes := p.nodes;
      var own, inner := nodes[d.op].uses, YieldsFrom(Original(nodes), d.op, 0);
      forall e | Asks(nodes, own, e) ensures Demanded(nodes, anchor, e) {
        var k :| 0 <= k < |own| && AsksFor(nodes, own[k], e);
        assert UsesOf(nodes, d)[k] == own[k];
        DemandedNext(nodes, anchor, d, e);
      }
      UnfoldsSame(p, anchor, own, n);
      if d.yielded {
        forall e | Asks(nodes, inner, e) ensures Demanded(nodes, anchor, e) {
          var k :| 0 <= k < |inner| && AsksFor(nodes, inner[k], e);
          assert UsesOf(nodes, d)[|own| + k] == inner[k];
          DemandedNext(nodes, anchor, d, e);
        }
        UnfoldsSame(p, anchor, inner, n);
      }
    }
  }

  /** The other way round: a value that is the same has all it asks for, and that has the same values. */
  lemma SameHasAll(p: Program, us: seq<Use>, d: Demand)
    requires Complete(p) && YieldsKept(p) && SameUses(p, us) && Asks(p.nodes, us, d) && d.op < |p.nodes|
    ensures d.op in p.alive && SameUses(p, UsesOf(p.nodes, d))
  {
    var q := Original(p.nodes);
    var k :| 0 <= k < |us| && AsksFor(p.nodes, us[k], d);
    assert SameUse(p, us[k]);
    assert Unfold(p, us[k], 0) == Unfold(q, us[k], 0);
    var all := UsesOf(p.nodes, d);
    var own := p.nodes[d.op].uses;
    forall i | 0 <= i < |all| ensures SameUse(p, all[i]) {
      forall n: nat ensures Unfold(p, all[i], n) == Unfold(q, all[i], n) {
        assert Unfold(p, us[k], n + 1) == Unfold(q, us[k], n + 1);
        assert UnfoldAll(p, own, n) == UnfoldAll(q, own, n);
        if i < |own| {
          UnfoldAllSame(p, q, own, n);
          assert all[i] == own[i];
        } else {
          var inner := YieldsFrom(q, d.op, 0);
          assert UnfoldAll(p, inner, n) == UnfoldAll(q, inner, n);
          UnfoldAllSame(p, q, inner, n);
          assert all[i] == inner[i - |own|];
        }
      }
    }
  }

  lemma {:induction false} DemandedIsAlive(p: Program, anchor: nat, d: Demand, steps: nat)
    requires Scoped(p.nodes) && Complete(p) && YieldsKept(p) && anchor < |p.nodes| && SameUses(p, p.nodes[anchor].uses)
    requires DemandedIn(p.nodes, anchor, d, steps)
    ensures d.op < |p.nodes| && d.op in p.alive && SameUses(p, UsesOf(p.nodes, d))
    decreases steps
  {
    assert Demanded(p.nodes, anchor, d);
    DemandedIsThere(p.nodes, anchor, d);
    if Asks(p.nodes, p.nodes[anchor].uses, d) {
      SameHasAll(p, p.nodes[anchor].uses, d);
    } else {
      var e: Demand :| e.op < |p.nodes| && DemandedIn(p.nodes, anchor, e, steps - 1) && Asks(p.nodes, UsesOf(p.nodes, e), d);
      DemandedIsAlive(p, anchor, e, steps - 1);
      SameHasAll(p, UsesOf(p.nodes, e), d);
    }
  }

  /** The anchor's operands are what they were exactly when all that they depend on is left. */
  lemma SameIffDemandedAlive(p: Program, anchor: nat)
    requires Scoped(p.nodes) && Complete(p) && YieldsKept(p) && anchor < |p.nodes|
    ensures SameUses(p, p.nodes[anchor].uses) <==> forall d :: Demanded(p.nodes, anchor, d) ==> d.op in p.alive
  {
    var us := p.nodes[anchor].uses;
    if SameUses(p, us) {
      forall d | Demanded(p.nodes, anchor, d) ensures d.op in p.alive {
        var steps: nat :| DemandedIn(p.nodes, anchor, d, steps);
        DemandedIsAlive(p, anchor, d, steps);
      }
    }
    if forall d :: Demanded(p.nodes, anchor, d) ==> d.op in p.alive {
      forall d | Demanded(p.nodes, anchor, d) ensures d.op in p.alive && d.op < |p.nodes| {
        DemandedIsThere(p.nodes, anchor, d);
      }
      forall d | Asks(p.nodes, us, d) ensures Demanded(p.nodes, anchor, d) {
        assert DemandedIn(p.nodes, anchor, d, 0);
      }
      forall k | 0 <= k < |us| ensures SameUse(p, us[k]) {
        forall n: nat ensures Unfold(p, us[k], n) == Unfold(Original(p.nodes), us[k], n) {
          UnfoldsSame(p, anchor, us, n);
          UnfoldAllSame(p, Original(p.nodes), us, n);
        }
      }
    }
  }

  // ---------------------------------------------------------------------------------------------
  // What the search follows, on the input
  // ---------------------------------------------------------------------------------------------

  /** From `k` the search certainly goes on to `i`: a definition that is no loop, or what `k` requires around it. */
  ghost predicate FollowsFrom(nodes: seq<Node>, root: nat, k: nat, i: nat)
    requires Nested(nodes) && root < |nodes| && k < |nodes|
  {
    i < |nodes| && ((UsedIn(nodes[k].uses, i) && nodes[i].kind != Loop && i != root) || RequiredFor(nodes, root, i, k))
  }

  ghost predicate FollowedIn(nodes: seq<Node>, root: nat, anchor: nat, i: nat, steps: nat)
    requires Nested(nodes) && root < |nodes|
    decreases steps
  {
    || i == anchor
    || (steps > 0 && exists k: nat :: k < |nodes| && FollowedIn(nodes, root, anchor, k, steps - 1) && FollowsFrom(nodes, root, k, i))
  }

  /** The anchor, and all that the search goes on to from what it follows. */
  ghost predicate Followed(nodes: seq<Node>, root: nat, anchor: nat, i: nat)
    requires Nested(nodes) && root < |nodes|
  {
    exists steps: nat :: FollowedIn(nodes, root, anchor, i, steps)
  }

  lemma FollowedNext(nodes: seq<Node>, root: nat, anchor: nat, k: nat, i: nat)
    requires Nested(nodes) && root < |nodes| && k < |nodes| && Followed(nodes, root, anchor, k) && FollowsFrom(nodes, root, k, i)
    ensures Followed(nodes, root, anchor, i)
  {
    var steps: nat :| FollowedIn(nodes, root, anchor, k, steps);
    assert FollowedIn(nodes, root, anchor, i, steps + 1);
  }

  /** Whatever the search keeps, it keeps what it follows. */
  lemma {:induction false} FollowedIsKept(nodes: seq<Node>, root: nat, anchor: nat, kept: set<nat>, i: nat, steps: nat)
    requires Nested(nodes) && root < |nodes| && anchor < |nodes| && KeptFor(nodes, root, anchor, kept) && nodes[anchor].kind != Loop
    requires FollowedIn(nodes, root, anchor, i, steps)
    ensures i in kept
    decreases steps
  {
    if i != anchor {
      var k: nat :| k < |nodes| && FollowedIn(nodes, root, anchor, k, steps - 1) && FollowsFrom(nodes, root, k, i);
      FollowedIsKept(nodes, root, anchor, kept, k, steps - 1);
      if RequiredFor(nodes, root, i, k) {
        RequiredIsKept(nodes, root, anchor, kept, k, i);
      } else {
        DefinitionIsKept(nodes, root, anchor, kept, k, i);
      }
    }
  }

  /** Everything in the region that the anchor's operands depend on is followed. */
  ghost predicate Clean(nodes: seq<Node>, root: nat, anchor: nat)
    requires Nested(nodes) && root < |nodes| && anchor < |nodes|
  {
    forall d :: Demanded(nodes, anchor, d) && d.op < |nodes| && Inside(nodes, root, d.op) ==> Followed(nodes, root, anchor, d.op)
  }

  /** In the pruned clone the anchor's operands are what they were. */
  ghost predicate AnchorKept(nodes: seq<Node>, root: nat, anchor: nat, kept: set<nat>)
    requires Nested(nodes) && anchor < |nodes|
  {
    SameUses(Pruned(nodes, root, kept), nodes[anchor].uses)
  }

  lemma KeptIsNoTerminator(nodes: seq<Node>, root: nat, anchor: nat, kept: set<nat>)
    requires Scoped(nodes) && root < |nodes| && anchor < |nodes| && KeptFor(nodes, root, anchor, kept) && nodes[anchor].kind != Terminator
    ensures forall i :: i in kept ==> i < |nodes| && nodes[i].kind != Terminator
  {
    forall i | i in kept ensures i < |nodes| && nodes[i].kind != Terminator {
      assert Justified(nodes, anchor, kept, i);
      if Encloses(nodes, i, anchor) {
        if i != anchor {
          OwnerIsNoTerminator(nodes, i, anchor);
        }
      } else {
        var k :| k in kept && k < |nodes| && ((Encloses(nodes, i, k) && i != k) || UsedIn(nodes[k].uses, i));
        if UsedIn(nodes[k].uses, i) {
          assert Visible(nodes, i, k);
        } else {
          OwnerIsNoTerminator(nodes, i, k);
        }
      }
    }
  }

  /** The anchor keeps its operands exactly when everything in the region that they depend on is kept. */
  lemma KeptIffDemandedKept(nodes: seq<Node>, root: nat, anchor: nat, kept: set<nat>)
    requires Scoped(nodes) && root < |nodes| && anchor < |nodes| && KeptFor(nodes, root, anchor, kept) && nodes[anchor].kind != Terminator
    ensures AnchorKept(nodes, root, anchor, kept) <==>
      forall d :: Demanded(nodes, anchor, d) && d.op < |nodes| && Inside(nodes, root, d.op) ==> d.op in kept
  {
    var p := Pruned(nodes, root, kept);
    KeptIsNoTerminator(nodes, root, anchor, kept);
    PrunedKeepsYields(nodes, root, kept);
    SameIffDemandedAlive(p, anchor);
    forall d | Demanded(nodes, anchor, d)
      ensures d.op < |nodes| && (d.op in p.alive <==> Inside(nodes, root, d.op) ==> d.op in kept)
    {
      DemandedIsThere(nodes, anchor, d);
    }
  }

  /** A clean region keeps the anchor's operands, in whatever order the search goes. */
  lemma CleanIsKept(nodes: seq<Node>, root: nat, anchor: nat, kept: set<nat>)
    requires Scoped(nodes) && root < |nodes| && anchor < |nodes| && nodes[anchor].kind == Plain
    requires Clean(nodes, root, anchor) && KeptFor(nodes, root, anchor, kept)
    ensures AnchorKept(nodes, root, anchor, kept)
  {
    KeptIffDemandedKept(nodes, root, anchor, kept);
    forall d | Demanded(nodes, anchor, d) && d.op < |nodes| && Inside(nodes, root, d.op) ensures d.op in kept {
      var steps: nat :| FollowedIn(nodes, root, anchor, d.op, steps);
      FollowedIsKept(nodes, root, anchor, kept, d.op, steps);
    }
  }

  // ---------------------------------------------------------------------------------------------
  // When the search keeps no more than it follows
  // ---------------------------------------------------------------------------------------------

  lemma InsideFollows(nodes: seq<Node>, root: nat, a: nat, k: nat)
    requires Scoped(nodes) && root < |nodes| && a < |nodes| && k < |nodes| && Inside(nodes, root, a)
    requires (a != k && Encloses(nodes, a, k)) || UsedIn(nodes[k].uses, a)
    ensures Inside(nodes, root, k) && (a != k && Encloses(nodes, a, k) ==> Above(nodes, root, a, k))
  {
    if a != k && Encloses(nodes, a, k) {
      EnclosesTwice(nodes, root, a, k);
      EnclosesIsEarlier(nodes, root, a);
      EnclosesIsEarlier(nodes, a, k);
      if Encloses(nodes, a, root) {
        EnclosesIsEarlier(nodes, a, root);
      }
    } else {
      assert Visible(nodes, a, k);
      EnclosesTwice(nodes, root, nodes[a].parent.value, k);
      EnclosesIsEarlier(nodes, root, a);
    }
  }

  /** The search comes across `i`: it is the anchor, or something followed uses it or lies in it. */
  ghost predicate Met(nodes: seq<Node>, root: nat, anchor: nat, i: nat)
    requires Nested(nodes) && root < |nodes|
  {
    i == anchor || exists m: nat :: m < |nodes| && Followed(nodes, root, anchor, m) && MetFrom(nodes, m, i)
  }

  ghost predicate MetFrom(nodes: seq<Node>, m: nat, i: nat)
    requires Nested(nodes) && m < |nodes|
  {
    UsedIn(nodes[m].uses, i) || (i != m && Encloses(nodes, i, m))
  }

  /** Something that is followed uses a value from outside the region. */
  ghost predicate LooksOutside(nodes: seq<Node>, root: nat, anchor: nat)
    requires Nested(nodes) && root < |nodes|
  {
    exists m: nat, d: nat ::
      m < |nodes| && d < |nodes| && Followed(nodes, root, anchor, m) && UsedIn(nodes[m].uses, d) && !Inside(nodes, root, d)
  }

  /**
   * A loop that is come across but not followed has a counter that nothing followed uses, in itself or in
   * what is nested in it; when something outside is used, nobody at all uses that counter.
   */
  ghost predicate NoSideLoop(nodes: seq<Node>, root: nat, anchor: nat)
    requires Nested(nodes) && root < |nodes|
  {
    forall l: nat :: l < |nodes| && Inside(nodes, root, l) && nodes[l].kind == Loop && Met(nodes, root, anchor, l) ==>
      Followed(nodes, root, anchor, l) || Idle(nodes, root, anchor, l)
  }

  ghost predicate Idle(nodes: seq<Node>, root: nat, anchor: nat, l: nat)
    requires Nested(nodes) && root < |nodes| && l < |nodes|
  {
    && (forall k: nat :: k < |nodes| && Followed(nodes, root, anchor, k) ==> !CounterUsedIn(nodes, l, k))
    && (LooksOutside(nodes, root, anchor) ==> forall u :: 0 <= u < |nodes| ==> !UsesCounter(nodes, l, u))
  }

  /** What is kept of the region is followed; outside something is kept only when something outside is used. */
  ghost predicate Expected(nodes: seq<Node>, root: nat, anchor: nat, i: nat)
    requires Nested(nodes) && root < |nodes|
  {
    i < |nodes| && if Inside(nodes, root, i) then Followed(nodes, root, anchor, i) else LooksOutside(nodes, root, anchor)
  }

  /** What is looked at is come across, or the root, or likewise outside. */
  ghost predicate Awaited(nodes: seq<Node>, root: nat, anchor: nat, op: Option<nat>)
    requires Nested(nodes) && root < |nodes|
  {
    op == None || op == Some(root)
    || (op.value < |nodes|
      && if Inside(nodes, root, op.value) then Met(nodes, root, anchor, op.value) else LooksOutside(nodes, root, anchor))
  }

  /** What is kept of what was awaited is as expected. */
  lemma AwaitedIsExpected(nodes: seq<Node>, root: nat, anchor: nat, kept: set<nat>, w: nat)
    requires Scoped(nodes) && root < |nodes| && NoSideLoop(nodes, root, anchor) && Awaited(nodes, root, anchor, Some(w)) && w != root
    requires (forall i :: i in kept ==> Expected(nodes, root, anchor, i)) && (nodes[w].kind == Loop ==> CounterUsedByKept(nodes, w, kept))
    ensures Expected(nodes, root, anchor, w)
  {
    if Inside(nodes, root, w) {
      if nodes[w].kind == Loop {
        var k :| k in kept && CounterUsedIn(nodes, w, k);
        assert Expected(nodes, root, anchor, k);
      } else if w == anchor {
        assert FollowedIn(nodes, root, anchor, anchor, 0);
      } else {
        var m: nat :| m < |nodes| && Followed(nodes, root, anchor, m) && MetFrom(nodes, m, w);
        InsideFollows(nodes, root, w, m);
        FollowedNext(nodes, root, anchor, m, w);
      }
    }
  }

  /** What is around something awaited is awaited. */
  lemma AroundIsAwaited(nodes: seq<Node>, root: nat, anchor: nat, w: nat)
    requires Scoped(nodes) && root < |nodes| && anchor < |nodes| && Awaited(nodes, root, anchor, Some(w)) && w != root
    requires nodes[w].kind == Loop ==> w != anchor
    requires w == anchor ==> Followed(nodes, root, anchor, anchor)
    ensures Awaited(nodes, root, anchor, nodes[w].parent)
  {
    if nodes[w].parent.Some? && nodes[w].parent.value != root && Inside(nodes, root, w) {
      var p := nodes[w].parent.value;
      if w == anchor {
        assert MetFrom(nodes, anchor, p);
      } else {
        var m: nat :| m < |nodes| && Followed(nodes, root, anchor, m) && MetFrom(nodes, m, w);
        if UsedIn(nodes[m].uses, w) {
          assert Visible(nodes, w, m);
        } else {
          EnclosesIsEarlier(nodes, w, m);
          EnclosesTwice(nodes, p, w, m);
        }
        assert MetFrom(nodes, m, p);
      }
    }
  }

  /** So are the definitions of the operands of what is kept. */
  lemma DefinitionsAreAwaited(nodes: seq<Node>, root: nat, anchor: nat, w: nat)
    requires Scoped(nodes) && root < |nodes| && Expected(nodes, root, anchor, w) && w != root
    ensures forall op :: op in DefinitionsOf(nodes[w].uses) ==> Awaited(nodes, root, anchor, op)
  {
    forall d: nat | UsedIn(nodes[w].uses, d) ensures Awaited(nodes, root, anchor, Some(d)) {
      assert Visible(nodes, d, w);
      if Inside(nodes, root, w) {
        assert MetFrom(nodes, w, d);
      } else if Inside(nodes, root, d) {
        InsideFollows(nodes, root, d, w);
      }
    }
  }

  lemma {:induction false} VisitedIsExpected(nodes: seq<Node>, root: nat, anchor: nat, kept: set<nat>, op: Option<nat>)
    requires Scoped(nodes) && root < |nodes| && anchor < |nodes| && nodes[anchor].kind != Loop && NoSideLoop(nodes, root, anchor)
    requires (forall i :: i in kept ==> Expected(nodes, root, anchor, i)) && Awaited(nodes, root, anchor, op)
    ensures forall i :: i in Visited(nodes, root, kept, op) ==> Expected(nodes, root, anchor, i)
    decreases |Range(0, |nodes|) - kept|, 0, if op.Some? then op.value + 1 else 0
  {
    if op.Some? && op != Some(root) {
      var w := op.value;
      assert FollowedIn(nodes, root, anchor, anchor, 0);
      AroundIsAwaited(nodes, root, anchor, w);
      if nodes[w].kind == Loop && !CounterUsedByKept(nodes, w, kept) {
        VisitedIsExpected(nodes, root, anchor, kept, nodes[w].parent);
      } else if w !in kept {
        AwaitedIsExpected(nodes, root, anchor, kept, w);
        DefinitionsAreAwaited(nodes, root, anchor, w);
        FewerLeft(nodes, kept, w);
        VisitedIsExpected(nodes, root, anchor, kept + {w}, nodes[w].parent);
        var around := Visited(nodes, root, kept + {w}, nodes[w].parent);
        NoMoreLeft(nodes, kept + {w}, around);
        VisitedAllIsExpected(nodes, root, anchor, around, DefinitionsOf(nodes[w].uses));
      }
    }
  }

  lemma {:induction false} VisitedAllIsExpected(nodes: seq<Node>, root: nat, anchor: nat, kept: set<nat>, ops: seq<Option<nat>>)
    requires Scoped(nodes) && root < |nodes| && anchor < |nodes| && nodes[anchor].kind != Loop && NoSideLoop(nodes, root, anchor)
    requires forall i :: i in kept ==> Expected(nodes, root, anchor, i)
    requires forall op :: op in ops ==> Awaited(nodes, root, anchor, op)
    ensures forall i :: i in VisitedAll(nodes, root, kept, ops) ==> Expected(nodes, root, anchor, i)
    decreases |Range(0, |nodes|) - kept|, 1, |ops|
  {
    if ops != [] {
      var last := |ops| - 1;
      var after := Visited(nodes, root, kept, ops[last]);
      VisitedIsExpected(nodes, root, anchor, kept, ops[last]);
      NoMoreLeft(nodes, kept, after);
      VisitedAllIsExpected(nodes, root, anchor, after, ops[..last]);
    }
  }

  /** Without such a loop the search keeps of the region exactly what is followed. */
  lemma FollowedIsSearched(nodes: seq<Node>, root: nat, anchor: nat, i: nat)
    requires Scoped(nodes) && root < |nodes| && anchor < |nodes| && Inside(nodes, root, anchor) && nodes[anchor].kind == Plain
    requires i < |nodes| && Inside(nodes, root, i)
    ensures Followed(nodes, root, anchor, i) ==> i in Searched(nodes, root, anchor)
    ensures NoSideLoop(nodes, root, anchor) && i in Searched(nodes, root, anchor) ==> Followed(nodes, root, anchor, i)
  {
    if Followed(nodes, root, anchor, i) {
      var steps: nat :| FollowedIn(nodes, root, anchor, i, steps);
      SearchedIsKeptFor(nodes, root, anchor);
      FollowedIsKept(nodes, root, anchor, Searched(nodes, root, anchor), i, steps);
    }
    if NoSideLoop(nodes, root, anchor) {
      VisitedIsExpected(nodes, root, anchor, {}, Some(anchor));
    }
  }

  /**
   * The anchor keeps its operands when everything in the region that they depend on is followed; and, where
   * no loop is come across that order decides about, only then. Followed is what the operands depend on when
   * that is no result of a loop, nothing that an operation yields from inside, and no argument of a loop
   * whose counter nothing followed uses.
   */
  lemma PruningKeepsIff(nodes: seq<Node>, root: nat, anchor: nat)
    requires Scoped(nodes) && root < |nodes| && anchor < |nodes| && Inside(nodes, root, anchor) && nodes[anchor].kind == Plain
    ensures var kept := AnchorKept(nodes, root, anchor, Searched(nodes, root, anchor));
      && (Clean(nodes, root, anchor) ==> kept)
      && (NoSideLoop(nodes, root, anchor) ==> (kept <==> Clean(nodes, root, anchor)))
  {
    var kept := Searched(nodes, root, anchor);
    SearchedIsKeptFor(nodes, root, anchor);
    KeptIffDemandedKept(nodes, root, anchor, kept);
    if Clean(nodes, root, anchor) {
      CleanIsKept(nodes, root, anchor, kept);
    }
    if NoSideLoop(nodes, root, anchor) && AnchorKept(nodes, root, anchor, kept) {
      forall d | Demanded(nodes, anchor, d) && d.op < |nodes| && Inside(nodes, root, d.op)
        ensures Followed(nodes, root, anchor, d.op)
      {
        FollowedIsSearched(nodes, root, anchor, d.op);
      }
    }
  }

  /** What is kept of the region stands beside the anchor or around it, never inside something else. */
  lemma {:induction false} KeptIsBesideAnchor(nodes: seq<Node>, root: nat, anchor: nat, kept: set<nat>, i: nat)
    requires Scoped(nodes) && root < |nodes| && anchor < |nodes| && KeptFor(nodes, root, anchor, kept)
    requires i in kept && i < |nodes| && Inside(nodes, root, i)
    ensures Encloses(nodes, nodes[i].parent.value, anchor)
    decreases anchor - i
  {
    var p := nodes[i].parent.value;
    assert Justified(nodes, anchor, kept, i);
    if Encloses(nodes, i, anchor) {
      EnclosesTwice(nodes, p, i, anchor);
    } else {
      var k :| k in kept && k < |nodes| && ((Encloses(nodes, i, k) && i != k) || UsedIn(nodes[k].uses, i));
      InsideFollows(nodes, root, i, k);
      var q := nodes[k].parent.value;
      if UsedIn(nodes[k].uses, i) {
        assert Visible(nodes, i, k);
      } else {
        EnclosesIsEarlier(nodes, i, k);
        EnclosesTwice(nodes, p, i, k);
      }
      KeptIsBesideAnchor(nodes, root, anchor, kept, k);
      assert Encloses(nodes, p, q);
      EnclosesTwice(nodes, p, q, anchor);
    }
  }

  /** What an operation yields from inside is lost: whatever the search ends with, the anchor's operands change. */
  lemma InnerDemandIsLost(nodes: seq<Node>, root: nat, anchor: nat, kept: set<nat>, d: Demand)
    requires Scoped(nodes) && root < |nodes| && anchor < |nodes| && nodes[anchor].kind == Plain && KeptFor(nodes, root, anchor, kept)
    requires Demanded(nodes, anchor, d) && d.op < |nodes| && Inside(nodes, root, d.op)
    requires !Encloses(nodes, nodes[d.op].parent.value, anchor)
    ensures !AnchorKept(nodes, root, anchor, kept)
  {
    KeptIffDemandedKept(nodes, root, anchor, kept);
    if d.op in kept {
      KeptIsBesideAnchor(nodes, root, anchor, kept, d.op);
    }
  }

  /** And so is a loop whose counter nobody uses, for its results as well as for what it carries. */
  lemma IdleLoopIsLost(nodes: seq<Node>, root: nat, anchor: nat, kept: set<nat>, d: Demand)
    requires Scoped(nodes) && root < |nodes| && anchor < |nodes| && nodes[anchor].kind == Plain && KeptFor(nodes, root, anchor, kept)
    requires Demanded(nodes, anchor, d) && d.op < |nodes| && Inside(nodes, root, d.op)
    requires nodes[d.op].kind == Loop && forall u :: 0 <= u < |nodes| ==> !UsesCounter(nodes, d.op, u)
    ensures !AnchorKept(nodes, root, anchor, kept)
  {
    KeptIffDemandedKept(nodes, root, anchor, kept);
  }

  /**
   * Enough for a clean region: results that are used come from operations that are no loops and yield
   * nothing from inside, and of the arguments of loops only counters are used.
   */
  lemma {:induction false} PlainIsClean(nodes: seq<Node>, root: nat, anchor: nat, d: Demand, steps: nat)
    requires Scoped(nodes) && root < |nodes| && anchor < |nodes|
    requires forall e: Demand :: Demanded(nodes, anchor, e) && e.op < |nodes| && Encloses(nodes, root, e.op) && e.yielded ==>
      nodes[e.op].kind != Loop && YieldsFrom(Original(nodes), e.op, 0) == []
    requires DemandedIn(nodes, anchor, d, steps) && d.op < |nodes| && Inside(nodes, root, d.op)
    ensures Followed(nodes, root, anchor, d.op)
    decreases steps
  {
    assert Demanded(nodes, anchor, d);
    assert FollowedIn(nodes, root, anchor, anchor, 0);
    if Asks(nodes, nodes[anchor].uses, d) {
      AskedIsFollowed(nodes, root, anchor, anchor, d);
    } else {
      var e: Demand :| e.op < |nodes| && DemandedIn(nodes, anchor, e, steps - 1) && Asks(nodes, UsesOf(nodes, e), d);
      assert Demanded(nodes, anchor, e);
      if Inside(nodes, root, e.op) {
        PlainIsClean(nodes, root, anchor, e, steps - 1);
        assert UsesOf(nodes, e) == nodes[e.op].uses;
        AskedIsFollowed(nodes, root, anchor, e.op, d);
      } else {
        assert e.op == root ==> Encloses(nodes, root, root);
        OutsideAsksOutside(nodes, root, e, d);
      }
    }
  }

  lemma AskedIsFollowed(nodes: seq<Node>, root: nat, anchor: nat, k: nat, d: Demand)
    requires Scoped(nodes) && root < |nodes| && k < |nodes| && Followed(nodes, root, anchor, k)
    requires Asks(nodes, nodes[k].uses, d) && d.op < |nodes| && Inside(nodes, root, d.op) && (d.yielded ==> nodes[d.op].kind != Loop)
    ensures Followed(nodes, root, anchor, d.op)
  {
    var i :| 0 <= i < |nodes[k].uses| && AsksFor(nodes, nodes[k].uses[i], d);
    if nodes[k].uses[i].Result? {
      assert UsedIn(nodes[k].uses, d.op);
      FollowedNext(nodes, root, anchor, k, d.op);
    } else {
      InsideFollows(nodes, root, d.op, k);
      if nodes[d.op].kind == Loop {
        assert UsesCounter(nodes, d.op, k);
        assert CounterUsedIn(nodes, d.op, k);
      }
      assert RequiredFor(nodes, root, d.op, k);
      FollowedNext(nodes, root, anchor, k, d.op);
    }
  }

  /** Operations outside the region, and what they yield, use nothing from inside. */
  lemma OutsideAsksOutside(nodes: seq<Node>, root: nat, e: Demand, d: Demand)
    requires Scoped(nodes) && root < |nodes| && e.op < |nodes| && d.op < |nodes| && !Inside(nodes, root, e.op)
    requires Asks(nodes, UsesOf(nodes, e), d) && (e.op == root ==> UsesOf(nodes, e) == nodes[root].uses)
    ensures !Inside(nodes, root, d.op)
  {
    var us := UsesOf(nodes, e);
    var k :| 0 <= k < |us| && AsksFor(nodes, us[k], d);
    var own := nodes[e.op].uses;
    var u, i := e.op, k;
    if k >= |own| {
      u, i := YieldedByTerminator(Original(nodes), e.op, 0, k - |own|);
    }
    assert nodes[u].uses[i] == us[k];
    assert us[k].Result? ==> UsedIn(nodes[u].uses, d.op);
    if Inside(nodes, root, d.op) {
      InsideFollows(nodes, root, d.op, u);
      InsideParent(nodes, root, u);
    }
  }

  lemma InsideParent(nodes: seq<Node>, root: nat, u: nat)
    requires Nested(nodes) && u < |nodes| && Inside(nodes, root, u)
    ensures nodes[u].parent.Some? && (nodes[u].parent.value == root || Inside(nodes, root, nodes[u].parent.value))
  {
  }

  /**
   * The clone, pruned. The anchor survives, and with its operands exactly when what they depend on in the
   * region is kept: when the region is clean, and only then where no loop is come across that order decides about.
   */
  method CloneRegionAndPruneToAnchor(nodes: seq<Node>, root: nat, anchor: nat)
    returns (parents: seq<Option<nat>>, survivors: set<nat>, ghost kept: set<nat>)
    requires Scoped(nodes) && root < |nodes| && anchor < |nodes| && Inside(nodes, root, anchor) && nodes[anchor].kind == Plain
    ensures kept == Searched(nodes, root, anchor) && KeptFor(nodes, root, anchor, kept) && anchor in survivors
    ensures Program(nodes, parents, survivors) == Pruned(nodes, root, kept)
    ensures SameUses(Program(nodes, parents, survivors), nodes[anchor].uses) <==>
      forall d :: Demanded(nodes, anchor, d) && d.op < |nodes| && Inside(nodes, root, d.op) ==> d.op in kept
    ensures Clean(nodes, root, anchor) ==> SameUses(Program(nodes, parents, survivors), nodes[anchor].uses)
    ensures NoSideLoop(nodes, root, anchor) ==>
      (SameUses(Program(nodes, parents, survivors), nodes[anchor].uses) <==> Clean(nodes, root, anchor))
  {
    var keep := ComputeKeptSet(nodes, root, anchor);
    kept := keep;
    parents, survivors := PruneRegion(nodes, root, keep);
    assert parents == Pruned(nodes, root, kept).parents;
    assert survivors == Pruned(nodes, root, kept).alive;
    assert Stays(nodes, root, kept, anchor);
    KeptIffDemandedKept(nodes, root, anchor, kept);
    PruningKeepsIff(nodes, root, anchor);
  }

  // ---------------------------------------------------------------------------------------------
  // Regions that lose the anchor's operands
  // ---------------------------------------------------------------------------------------------

  /** The anchor uses the result of an operation that yields what is computed inside it. */
  function YieldFromInside(): seq<Node> {
    [ Node(None, Plain, 0, []),
      Node(Some(0), Plain, 1, []),
      Node(Some(1), Plain, 2, []),
      Node(Some(1), Terminator, 3, [Result(2, 0)]),
      Node(Some(0), Plain, 4, [Result(1, 0)]) ]
  }

  /** The anchor uses what the loop around it carries, and nobody uses the counter. */
  function CarriedByIdleLoop(): seq<Node> {
    [ Node(None, Plain, 0, []),
      Node(Some(0), Loop, 1, [Free(0)]),
      Node(Some(1), Plain, 2, [Argument(1, 1)]),
      Node(Some(1), Terminator, 3, [Argument(1, 1)]) ]
  }

  /** The anchor uses the result of a loop beside it, and nobody uses the counter. */
  function ResultOfIdleLoop(): seq<Node> {
    [ Node(None, Plain, 0, []),
      Node(Some(0), Loop, 1, [Free(0)]),
      Node(Some(1), Terminator, 2, [Argument(1, 1)]),
      Node(Some(0), Plain, 3, [Result(1, 0)]) ]
  }

  lemma YieldFromInsideIsLost(kept: set<nat>)
    ensures Scoped(YieldFromInside()) && Inside(YieldFromInside(), 0, 4)
    ensures KeptFor(YieldFromInside(), 0, 4, kept) ==> !AnchorKept(YieldFromInside(), 0, 4, kept)
  {
    var nodes := YieldFromInside();
    YieldFromInsideIsScoped();
    if KeptFor(nodes, 0, 4, kept) {
      assert AsksFor(nodes, nodes[4].uses[0], Demand(1, true));
      assert DemandedIn(nodes, 4, Demand(1, true), 0);
      var p := Original(nodes);
      assert YieldsFrom(p, 1, 4) == [] && YieldsFrom(p, 1, 3) == [Result(2, 0)];
      assert YieldsFrom(p, 1, 2) == [Result(2, 0)] && YieldsFrom(p, 1, 1) == [Result(2, 0)];
      assert UsesOf(nodes, Demand(1, true)) == [Result(2, 0)];
      assert AsksFor(nodes, UsesOf(nodes, Demand(1, true))[0], Demand(2, true));
      DemandedNext(nodes, 4, Demand(1, true), Demand(2, true));
      InnerDemandIsLost(nodes, 0, 4, kept, Demand(2, true));
    }
  }

  lemma YieldFromInsideIsScoped()
    ensures Scoped(YieldFromInside()) && Inside(YieldFromInside(), 0, 4) && Inside(YieldFromInside(), 0, 2)
    ensures !Encloses(YieldFromInside(), 1, 4)
  {
    var nodes := YieldFromInside();
    assert Encloses(nodes, 0, 1) && Encloses(nodes, 0, 2) && Encloses(nodes, 0, 3) && Encloses(nodes, 0, 4);
    assert Encloses(nodes, 1, 3) && !Encloses(nodes, 1, 4) && !Encloses(nodes, 2, 3);
    assert forall d: nat :: UsedIn(nodes[3].uses, d) ==> d == 2;
    assert forall d: nat :: UsedIn(nodes[4].uses, d) ==> d == 1;
  }

  lemma CarriedByIdleLoopIsScoped()
    ensures Scoped(CarriedByIdleLoop()) && Inside(CarriedByIdleLoop(), 0, 2)
  {
    var nodes := CarriedByIdleLoop();
    assert Encloses(nodes, 0, 1) && Encloses(nodes, 0, 2) && Encloses(nodes, 1, 2) && Encloses(nodes, 1, 3);
  }

  lemma CarriedByIdleLoopIsLost(kept: set<nat>)
    ensures Scoped(CarriedByIdleLoop()) && Inside(CarriedByIdleLoop(), 0, 2)
    ensures KeptFor(CarriedByIdleLoop(), 0, 2, kept) ==> !AnchorKept(CarriedByIdleLoop(), 0, 2, kept)
  {
    var nodes := CarriedByIdleLoop();
    CarriedByIdleLoopIsScoped();
    if KeptFor(nodes, 0, 2, kept) {
      assert AsksFor(nodes, nodes[2].uses[0], Demand(1, true));
      assert DemandedIn(nodes, 2, Demand(1, true), 0);
      IdleLoopIsLost(nodes, 0, 2, kept, Demand(1, true));
    }
  }

  lemma ResultOfIdleLoopIsScoped()
    ensures Scoped(ResultOfIdleLoop()) && Inside(ResultOfIdleLoop(), 0, 3)
  {
    var nodes := ResultOfIdleLoop();
    assert Encloses(nodes, 0, 1) && Encloses(nodes, 0, 3) && Encloses(nodes, 1, 2) && !Encloses(nodes, 1, 3);
    assert forall d: nat :: UsedIn(nodes[3].uses, d) ==> d == 1;
  }

  lemma ResultOfIdleLoopIsLost(kept: set<nat>)
    ensures Scoped(ResultOfIdleLoop()) && Inside(ResultOfIdleLoop(), 0, 3)
    ensures KeptFor(ResultOfIdleLoop(), 0, 3, kept) ==> !AnchorKept(ResultOfIdleLoop(), 0, 3, kept)
  {
    var nodes := ResultOfIdleLoop();
    ResultOfIdleLoopIsScoped();
    if KeptFor(nodes, 0, 3, kept) {
      assert AsksFor(nodes, nodes[3].uses[0], Demand(1, true));
      assert DemandedIn(nodes, 3, Demand(1, true), 0);
      IdleLoopIsLost(nodes, 0, 3, kept, Demand(1, true));
    }
  }
}
