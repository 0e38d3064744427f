/**
 * Pruning a cloned region to what one operation, the anchor, still needs: the worklist that decides
 * which operations are kept, and the removal of the others.
 */
module RegionClonePrune {
  import opened Sequences

  /**
   * An operand: the result of an operation of the listing, an argument of the body of one (argument 0 of
   * a loop is its counter, the others are what it carries), or a value that is not defined in the listing.
   */
  datatype Use = Result(op: nat, index: nat) | Argument(owner: nat, index: nat) | Free(name: nat)

  datatype Kind = Plain | Loop | Terminator

  /** An operation, nested in `parent`. Terminators say what the operation around them yields. */
  datatype Node = Node(parent: Option<nat>, kind: Kind, code: nat, uses: seq<Use>)

  /** A listing in which every operation comes after the one it is nested in. */
  ghost predicate Nested(nodes: seq<Node>) {
    forall i :: 0 <= i < |nodes| && nodes[i].parent.Some? ==> nodes[i].parent.value < i
  }

  /** `a` is `d`, or an operation around it. */
  ghost predicate Encloses(nodes: seq<Node>, a: nat, d: nat)
    requires Nested(nodes) && d < |nodes|
    decreases d
  {
    a == d || (nodes[d].parent.Some? && Encloses(nodes, a, nodes[d].parent.value))
  }

  lemma {:induction false} EnclosesTwice(nodes: seq<Node>, a: nat, b: nat, d: nat)
    requires Nested(nodes) && b < |nodes| && d < |nodes| && Encloses(nodes, a, b) && Encloses(nodes, b, d)
    ensures Encloses(nodes, a, d)
    decreases d
  {
    if b != d {
      EnclosesTwice(nodes, a, b, nodes[d].parent.value);
    }
  }

  lemma {:induction false} EnclosesIsEarlier(nodes: seq<Node>, a: nat, d: nat)
    requires Nested(nodes) && d < |nodes| && Encloses(nodes, a, d)
    ensures a <= d
    decreases d
  {
    if a != d {
      EnclosesIsEarlier(nodes, a, nodes[d].parent.value);
    }
  }

  predicate UsedIn(uses: seq<Use>, d: nat) {
    exists k :: 0 <= k < |uses| && uses[k].Result? && uses[k].op == d
  }

  /** A use comes after the definition and not in it, inside the operation that the definition is nested in. */
  ghost predicate Visible(nodes: seq<Node>, d: nat, u: nat)
    requires Nested(nodes) && u < |nodes|
  {
    && d < u && nodes[d].kind != Terminator && !Encloses(nodes, d, u)
    && (nodes[d].parent.Some? ==> Encloses(nodes, nodes[d].parent.value, u))
  }

  /** Arguments are used inside the operation whose arguments they are. */
  ghost predicate ArgumentsInside(nodes: seq<Node>)
    requires Nested(nodes)
  {
    forall u: nat, k: nat :: u < |nodes| && k < |nodes[u].uses| && nodes[u].uses[k].Argument? ==>
      nodes[u].uses[k].owner < |nodes| && nodes[u].uses[k].owner != u && Encloses(nodes, nodes[u].uses[k].owner, u)
  }

  ghost predicate Scoped(nodes: seq<Node>) {
    && Nested(nodes) && ArgumentsInside(nodes)
    && (forall d: nat, u: nat :: u < |nodes| && UsedIn(nodes[u].uses, d) ==> Visible(nodes, d, u))
    && forall i :: 0 <= i < |nodes| && nodes[i].parent.Some? ==> nodes[nodes[i].parent.value].kind != Terminator
  }

  predicate UsesCounter(nodes: seq<Node>, l: nat, u: nat)
    requires l < |nodes| && u < |nodes|
  {
    nodes[l].kind == Loop && Argument(l, 0) in nodes[u].uses
  }

  // ---------------------------------------------------------------------------------------------
  // Is a counter used by what is kept
  // ---------------------------------------------------------------------------------------------

  /** The counter of `l` is used in `k`. */
  ghost predicate CounterUsedIn(nodes: seq<Node>, l: nat, k: nat)
    requires Nested(nodes) && l < |nodes|
  {
    exists u :: 0 <= u < |nodes| && UsesCounter(nodes, l, u) && Encloses(nodes, k, u)
  }

  ghost predicate CounterUsedByKept(nodes: seq<Node>, l: nat, kept: set<nat>)
    requires Nested(nodes) && l < |nodes|
  {
    exists k :: k in kept && CounterUsedIn(nodes, l, k)
  }

  /** One of the operations around `user`, itself included, is kept. */
  method AncestorIsKept(nodes: seq<Node>, user: nat, kept: set<nat>) returns (found: bool)
    requires Nested(nodes) && user < |nodes|
    ensures found <==> exists k :: k in kept && Encloses(nodes, k, user)
  {
    var cur: Option<nat> := Some(user);
    while cur.Some?
      invariant cur.Some? ==> cur.value < |nodes|
      invariant forall k :: k in kept && Encloses(nodes, k, user) ==> cur.Some? && Encloses(nodes, k, cur.value)
      invariant cur.Some? ==> Encloses(nodes, cur.value, user)
      decreases if cur.Some? then cur.value + 1 else 0
    {
      if cur.value in kept {
        return true;
      }
      if nodes[cur.value].parent.Some? {
        EnclosesTwice(nodes, nodes[cur.value].parent.value, cur.value, user);
      }
      cur := nodes[cur.value].parent;
    }
    return false;
  }

  method IvUsedByKept(nodes: seq<Node>, l: nat, kept: set<nat>) returns (found: bool)
    requires Nested(nodes) && l < |nodes|
    ensures found <==> CounterUsedByKept(nodes, l, kept)
  {
    var u := 0;
    while u < |nodes|
      invariant u <= |nodes|
      invariant forall v, k :: 0 <= v < u && UsesCounter(nodes, l, v) && k in kept ==> !Encloses(nodes, k, v)
    {
      if UsesCounter(nodes, l, u) {
        var under := AncestorIsKept(nodes, u, kept);
        if under {
          ghost var k :| k in kept && Encloses(nodes, k, u);
          assert CounterUsedIn(nodes, l, k);
          return true;
        }
      }
      u := u + 1;
    }
    return false;
  }

  // ---------------------------------------------------------------------------------------------
  // The kept set
  // ---------------------------------------------------------------------------------------------

  /** `a` lies around `k`, and neither is it `root` nor does `root` lie between them. */
  ghost predicate Above(nodes: seq<Node>, root: nat, a: nat, k: nat)
    requires Nested(nodes) && root < |nodes| && k < |nodes|
  {
    a != k && Encloses(nodes, a, k) && !(Encloses(nodes, a, root) && Encloses(nodes, root, k))
  }

  /** When `k` is kept, `a` has to be: it lies around `k`, and if it is a loop, `k` uses its counter. */
  ghost predicate RequiredFor(nodes: seq<Node>, root: nat, a: nat, k: nat)
    requires Nested(nodes) && root < |nodes| && k < |nodes| && a < |nodes|
  {
    Above(nodes, root, a, k) && (nodes[a].kind == Loop ==> CounterUsedIn(nodes, a, k))
  }

  /** An operation that has to be looked at lies between `a` and `k`, or is `a`. */
  ghost predicate OnTheWay(nodes: seq<Node>, worklist: seq<Option<nat>>, a: nat, k: nat)
    requires Nested(nodes) && k < |nodes|
  {
    exists w: nat :: w < |nodes| && Some(w) in worklist && w != k && Encloses(nodes, a, w) && Encloses(nodes, w, k)
  }

  ghost predicate WayIsOpen(nodes: seq<Node>, root: nat, kept: set<nat>, worklist: seq<Option<nat>>)
    requires Nested(nodes) && root < |nodes|
  {
    forall a: nat, k: nat :: k in kept && k < |nodes| && a < |nodes| && RequiredFor(nodes, root, a, k) ==>
      a in kept || OnTheWay(nodes, worklist, a, k)
  }

  /** What defines an operand of a kept operation is kept, a loop, the root, or still to be looked at. */
  ghost predicate DefinitionsFollowed(nodes: seq<Node>, root: nat, kept: set<nat>, worklist: seq<Option<nat>>) {
    forall d: nat, k: nat :: k in kept && k < |nodes| && d < |nodes| && UsedIn(nodes[k].uses, d) ==>
      d in kept || nodes[d].kind == Loop || d == root || Some(d) in worklist
  }

  /** A reason to keep `i`. */
  ghost predicate Justified(nodes: seq<Node>, anchor: nat, kept: set<nat>, i: nat)
    requires Nested(nodes) && anchor < |nodes|
  {
    || Encloses(nodes, i, anchor)
    || exists k :: k in kept && k < |nodes| && ((Encloses(nodes, i, k) && i != k) || UsedIn(nodes[k].uses, i))
  }

  /** How the search meets the anchor: it comes first, and everything else lies before it. */
  ghost predicate AnchorFirst(nodes: seq<Node>, anchor: nat, kept: set<nat>, worklist: seq<Option<nat>>)
    requires anchor < |nodes|
  {
    || (worklist == [Some(anchor)] && kept == {})
    || ((anchor in kept <==> nodes[anchor].kind != Loop)
      && (forall i :: i in kept ==> i <= anchor)
      && forall w :: Some(w) in worklist ==> w < anchor)
  }

  ghost predicate Reasons(nodes: seq<Node>, root: nat, anchor: nat, kept: set<nat>, worklist: seq<Option<nat>>)
    requires Nested(nodes) && root < |nodes| && anchor < |nodes|
  {
    && (forall i :: i in kept ==> i < |nodes| && i != root && Justified(nodes, anchor, kept, i))
    && (forall i :: i in kept && i < |nodes| && nodes[i].kind == Loop ==> CounterUsedByKept(nodes, i, kept))
    && forall w :: Some(w) in worklist ==> w < |nodes| && Justified(nodes, anchor, kept, w)
  }

  ghost predicate Tracing(nodes: seq<Node>, root: nat, anchor: nat, kept: set<nat>, worklist: seq<Option<nat>>)
    requires Nested(nodes) && root < |nodes| && anchor < |nodes|
  {
    && Reasons(nodes, root, anchor, kept, worklist)
    && AnchorFirst(nodes, anchor, kept, worklist)
    && DefinitionsFollowed(nodes, root, kept, worklist)
    && WayIsOpen(nodes, root, kept, worklist)
  }

  function Rest<T>(worklist: seq<T>): (r: seq<T>)
    requires |worklist| > 0
    ensures forall x :: x in worklist ==> x in r || x == worklist[|worklist| - 1]
    ensures forall x :: x in r ==> x in worklist
  {
    assert worklist == worklist[..|worklist| - 1] + [worklist[|worklist| - 1]];
    worklist[..|worklist| - 1]
  }

  function ParentOf(node: Node): (r: seq<Option<nat>>) {
    if node.parent.Some? then [node.parent] else []
  }

  /** The operations that define the operands, in operand order. */
  function DefinitionsOf(vs: seq<Use>): (r: seq<Option<nat>>)
    ensures forall d: nat :: Some(d) in r <==> UsedIn(vs, d)
    ensures None !in r
  {
    if vs == [] then []
    else
      assert forall d: nat :: UsedIn(vs, d) <==> (vs[0].Result? && vs[0].op == d) || UsedIn(vs[1..], d) by {
        assert vs == [vs[0]] + vs[1..];
        forall d: nat | UsedIn(vs[1..], d) ensures UsedIn(vs, d) {
          var k :| 0 <= k < |vs[1..]| && vs[1..][k].Result? && vs[1..][k].op == d;
          assert vs[k + 1].op == d;
        }
        forall d: nat | UsedIn(vs, d) && !(vs[0].Result? && vs[0].op == d) ensures UsedIn(vs[1..], d) {
          var k :| 0 <= k < |vs| && vs[k].Result? && vs[k].op == d;
          assert vs[1..][k - 1].op == d;
        }
      }
      (if vs[0].Result? then [Some(vs[0].op)] else []) + DefinitionsOf(vs[1..])
  }

  // The way from a kept operation up to one that it requires stays open at every step.

  lemma WayWithoutRoot(nodes: seq<Node>, root: nat, kept: set<nat>, worklist: seq<Option<nat>>)
    requires Nested(nodes) && root < |nodes| && |worklist| > 0 && WayIsOpen(nodes, root, kept, worklist)
    requires worklist[|worklist| - 1] == None || worklist[|worklist| - 1] == Some(root)
    ensures WayIsOpen(nodes, root, kept, Rest(worklist))
  {
    forall a: nat, k: nat | k in kept && k < |nodes| && a < |nodes| && RequiredFor(nodes, root, a, k) && a !in kept
      ensures OnTheWay(nodes, Rest(worklist), a, k)
    {
      assert OnTheWay(nodes, worklist, a, k);
      var w: nat :| w < |nodes| && Some(w) in worklist && w != k && Encloses(nodes, a, w) && Encloses(nodes, w, k);
      assert w != root;
    }
  }

  /** One step up: what lay at `w` lies at its parent. */
  lemma WayStepsUp(nodes: seq<Node>, root: nat, a: nat, w: nat, k: nat)
    requires Nested(nodes) && w < |nodes| && k < |nodes| && a != w && Encloses(nodes, a, w) && Encloses(nodes, w, k)
    ensures nodes[w].parent.Some? && nodes[w].parent.value < |nodes| && nodes[w].parent.value != k
    ensures Encloses(nodes, a, nodes[w].parent.value) && Encloses(nodes, nodes[w].parent.value, k)
  {
    EnclosesIsEarlier(nodes, w, k);
    EnclosesTwice(nodes, nodes[w].parent.value, w, k);
  }

  lemma CounterUsedHigher(nodes: seq<Node>, l: nat, w: nat, k: nat)
    requires Nested(nodes) && l < |nodes| && w < |nodes| && k < |nodes| && Encloses(nodes, w, k) && CounterUsedIn(nodes, l, k)
    ensures CounterUsedIn(nodes, l, w)
  {
    var u :| 0 <= u < |nodes| && UsesCounter(nodes, l, u) && Encloses(nodes, k, u);
    EnclosesTwice(nodes, w, k, u);
  }

  lemma WayPassesLoop(nodes: seq<Node>, root: nat, kept: set<nat>, worklist: seq<Option<nat>>, w: nat)
    requires Nested(nodes) && root < |nodes| && |worklist| > 0 && WayIsOpen(nodes, root, kept, worklist)
    requires w < |nodes| && worklist[|worklist| - 1] == Some(w) && nodes[w].kind == Loop && !CounterUsedByKept(nodes, w, kept)
    ensures WayIsOpen(nodes, root, kept, Rest(worklist) + [nodes[w].parent])
  {
    var after := Rest(worklist) + [nodes[w].parent];
    forall a: nat, k: nat | k in kept && k < |nodes| && a < |nodes| && RequiredFor(nodes, root, a, k) && a !in kept
      ensures OnTheWay(nodes, after, a, k)
    {
      assert OnTheWay(nodes, worklist, a, k);
      var v: nat :| v < |nodes| && Some(v) in worklist && v != k && Encloses(nodes, a, v) && Encloses(nodes, v, k);
      if v == w {
        assert a != w;
        WayStepsUp(nodes, root, a, w, k);
      } else {
        assert Some(v) in after;
      }
    }
  }

  lemma WayPassesKept(nodes: seq<Node>, root: nat, kept: set<nat>, worklist: seq<Option<nat>>, w: nat)
    requires Nested(nodes) && root < |nodes| && |worklist| > 0 && WayIsOpen(nodes, root, kept, worklist)
    requires w < |nodes| && worklist[|worklist| - 1] == Some(w) && w in kept
    ensures WayIsOpen(nodes, root, kept, Rest(worklist))
  {
    forall a: nat, k: nat | k in kept && k < |nodes| && a < |nodes| && RequiredFor(nodes, root, a, k) && a !in kept
      ensures OnTheWay(nodes, Rest(worklist), a, k)
    {
      assert OnTheWay(nodes, worklist, a, k);
      var v: nat :| v < |nodes| && Some(v) in worklist && v != k && Encloses(nodes, a, v) && Encloses(nodes, v, k);
      if v == w {
        RequiredHigher(nodes, root, a, w, k);
        var x: nat :| x < |nodes| && Some(x) in worklist && x != w && Encloses(nodes, a, x) && Encloses(nodes, x, w);
        EnclosesTwice(nodes, x, w, k);
        EnclosesIsEarlier(nodes, x, w);
        EnclosesIsEarlier(nodes, w, k);
      }
    }
  }

  lemma RequiredHigher(nodes: seq<Node>, root: nat, a: nat, w: nat, k: nat)
    requires Nested(nodes) && root < |nodes| && w < |nodes| && k < |nodes| && a < |nodes|
    requires RequiredFor(nodes, root, a, k) && a != w && Encloses(nodes, a, w) && Encloses(nodes, w, k)
    ensures RequiredFor(nodes, root, a, w)
  {
    if Encloses(nodes, root, w) {
      EnclosesTwice(nodes, root, w, k);
    }
    if nodes[a].kind == Loop {
      CounterUsedHigher(nodes, a, w, k);
    }
  }

  lemma WayAtInsertion(nodes: seq<Node>, root: nat, kept: set<nat>, worklist: seq<Option<nat>>, w: nat)
    requires Nested(nodes) && root < |nodes| && |worklist| > 0 && WayIsOpen(nodes, root, kept, worklist)
    requires w < |nodes| && worklist[|worklist| - 1] == Some(w)
    ensures WayIsOpen(nodes, root, kept + {w}, Rest(worklist) + DefinitionsOf(nodes[w].uses) + ParentOf(nodes[w]))
  {
    var after := Rest(worklist) + DefinitionsOf(nodes[w].uses) + ParentOf(nodes[w]);
    forall a: nat, k: nat | k in kept + {w} && k < |nodes| && a < |nodes| && RequiredFor(nodes, root, a, k) && a !in kept + {w}
      ensures OnTheWay(nodes, after, a, k)
    {
      if k == w {
        WayStepsUp(nodes, root, a, w, w);
        assert nodes[w].parent in after;
      } else {
        assert OnTheWay(nodes, worklist, a, k);
        var v: nat :| v < |nodes| && Some(v) in worklist && v != k && Encloses(nodes, a, v) && Encloses(nodes, v, k);
        if v == w {
          WayStepsUp(nodes, root, a, w, k);
          assert nodes[w].parent in after;
        } else {
          assert Some(v) in after;
        }
      }
    }
  }

  // The other parts of the invariant, step by step.

  lemma StepDrops(nodes: seq<Node>, root: nat, anchor: nat, kept: set<nat>, worklist: seq<Option<nat>>)
    requires Nested(nodes) && root < |nodes| && anchor < |nodes| && anchor != root
    requires |worklist| > 0
    requires worklist[|worklist| - 1] == None || worklist[|worklist| - 1] == Some(root)
    ensures Tracing(nodes, root, anchor, kept, worklist) ==>
      Tracing(nodes, root, anchor, kept, Rest(worklist))
  {
    if Tracing(nodes, root, anchor, kept, worklist) {
      WayWithoutRoot(nodes, root, kept, worklist);
    }
  }

  lemma StepMeetsKept(nodes: seq<Node>, root: nat, anchor: nat, kept: set<nat>, worklist: seq<Option<nat>>, w: nat)
    requires Nested(nodes) && root < |nodes| && anchor < |nodes|
    requires |worklist| > 0
    requires worklist[|worklist| - 1] == Some(w) && w in kept
    ensures Tracing(nodes, root, anchor, kept, worklist) ==>
      Tracing(nodes, root, anchor, kept, Rest(worklist))
  {
    if Tracing(nodes, root, anchor, kept, worklist) {
      WayPassesKept(nodes, root, kept, worklist, w);
    }
  }

  /** What justified `w` justifies the operation around it. */
  lemma JustifiedAbove(nodes: seq<Node>, anchor: nat, kept: set<nat>, w: nat)
    requires Scoped(nodes) && anchor < |nodes| && w < |nodes| && Justified(nodes, anchor, kept, w)
    requires nodes[w].parent.Some?
    ensures Justified(nodes, anchor, kept, nodes[w].parent.value)
  {
    var p := nodes[w].parent.value;
    if Encloses(nodes, w, anchor) {
      EnclosesTwice(nodes, p, w, anchor);
    } else {
      var k :| k in kept && k < |nodes| && ((Encloses(nodes, w, k) && w != k) || UsedIn(nodes[k].uses, w));
      if UsedIn(nodes[k].uses, w) {
        assert Visible(nodes, w, k);
      } else {
        EnclosesTwice(nodes, p, w, k);
        EnclosesIsEarlier(nodes, w, k);
      }
    }
  }

  lemma StepSkipsLoop(nodes: seq<Node>, root: nat, anchor: nat, kept: set<nat>, worklist: seq<Option<nat>>, w: nat)
    requires Scoped(nodes) && root < |nodes| && anchor < |nodes|
    requires |worklist| > 0
    requires w < |nodes| && worklist[|worklist| - 1] == Some(w) && nodes[w].kind == Loop && !CounterUsedByKept(nodes, w, kept)
    ensures Tracing(nodes, root, anchor, kept, worklist) ==>
      Tracing(nodes, root, anchor, kept, Rest(worklist) + [nodes[w].parent])
  {
    if Tracing(nodes, root, anchor, kept, worklist) {
      WayPassesLoop(nodes, root, kept, worklist, w);
      var after := Rest(worklist) + [nodes[w].parent];
      if nodes[w].parent.Some? {
        JustifiedAbove(nodes, anchor, kept, w);
      }
      assert Reasons(nodes, root, anchor, kept, after);
      assert AnchorFirst(nodes, anchor, kept, after);
    }
  }

  /** The reasons after `w` has been kept. */
  lemma ReasonsAtInsertion(nodes: seq<Node>, root: nat, anchor: nat, kept: set<nat>, worklist: seq<Option<nat>>, w: nat)
    requires Scoped(nodes) && root < |nodes| && anchor < |nodes|
    requires |worklist| > 0 && Reasons(nodes, root, anchor, kept, worklist)
    requires w < |nodes| && w != root && worklist[|worklist| - 1] == Some(w)
    requires nodes[w].kind == Loop ==> CounterUsedByKept(nodes, w, kept)
    ensures Reasons(nodes, root, anchor, kept + {w}, Rest(worklist) + DefinitionsOf(nodes[w].uses) + ParentOf(nodes[w]))
  {
    var after := Rest(worklist) + DefinitionsOf(nodes[w].uses) + ParentOf(nodes[w]);
    var more := kept + {w};
    forall i | i in more && nodes[i].kind == Loop ensures CounterUsedByKept(nodes, i, more) {
      assert CounterUsedByKept(nodes, i, kept);
    }
    forall i | Some(i) in after ensures i < |nodes| && Justified(nodes, anchor, more, i) {
      if Some(i) in worklist {
        assert Justified(nodes, anchor, kept, i);
      } else if UsedIn(nodes[w].uses, i) {
        assert Visible(nodes, i, w);
      } else {
        assert nodes[w].parent == Some(i);
        assert Encloses(nodes, i, w);
      }
    }
  }

  lemma StepInserts(nodes: seq<Node>, root: nat, anchor: nat, kept: set<nat>, worklist: seq<Option<nat>>, w: nat)
    requires Scoped(nodes) && root < |nodes| && anchor < |nodes|
    requires |worklist| > 0
    requires w < |nodes| && w != root && worklist[|worklist| - 1] == Some(w)
    requires nodes[w].kind == Loop ==> CounterUsedByKept(nodes, w, kept)
    ensures Tracing(nodes, root, anchor, kept, worklist) ==>
      Tracing(nodes, root, anchor, kept + {w}, Rest(worklist) + DefinitionsOf(nodes[w].uses) + ParentOf(nodes[w]))
  {
    if Tracing(nodes, root, anchor, kept, worklist) {
      var after := Rest(worklist) + DefinitionsOf(nodes[w].uses) + ParentOf(nodes[w]);
      ReasonsAtInsertion(nodes, root, anchor, kept, worklist, w);
      WayAtInsertion(nodes, root, kept, worklist, w);
      DefinitionsAtInsertion(nodes, root, kept, worklist, w);
      forall i | Some(i) in after ensures i < anchor {
        if Some(i) in Rest(worklist) {
          assert Some(i) in worklist && !(worklist == [Some(anchor)]);
        } else if UsedIn(nodes[w].uses, i) {
          assert Visible(nodes, i, w);
        } else {
          assert nodes[w].parent == Some(i);
        }
      }
      assert AnchorFirst(nodes, anchor, kept + {w}, after);
    }
  }

  lemma DefinitionsAtInsertion(nodes: seq<Node>, root: nat, kept: set<nat>, worklist: seq<Option<nat>>, w: nat)
    requires |worklist| > 0 && DefinitionsFollowed(nodes, root, kept, worklist)
    requires w < |nodes| && worklist[|worklist| - 1] == Some(w)
    ensures DefinitionsFollowed(nodes, root, kept + {w}, Rest(worklist) + DefinitionsOf(nodes[w].uses) + ParentOf(nodes[w]))
  {
  }

  /** A bound on the steps until something new is kept. */
  ghost function Weight(worklist: seq<Option<nat>>): nat {
    if worklist == [] then 0
    else
      var last := worklist[|worklist| - 1];
      Weight(worklist[..|worklist| - 1]) + (if last.Some? then last.value + 2 else 1)
  }

  lemma WeightOfSkip(nodes: seq<Node>, worklist: seq<Option<nat>>, w: nat)
    requires Nested(nodes) && |worklist| > 0 && w < |nodes| && worklist[|worklist| - 1] == Some(w)
    ensures Weight(Rest(worklist) + [nodes[w].parent]) < Weight(worklist)
  {
    assert (Rest(worklist) + [nodes[w].parent])[..|worklist| - 1] == Rest(worklist);
  }

  /** What the kept set is good for, and no more than that. */
  ghost predicate KeptFor(nodes: seq<Node>, root: nat, anchor: nat, kept: set<nat>)
    requires Nested(nodes) && root < |nodes| && anchor < |nodes|
  {
    && (anchor in kept <==> nodes[anchor].kind != Loop)
    && (forall i :: i in kept ==> i <= anchor && i != root && Justified(nodes, anchor, kept, i))
    && (forall i :: i in kept && i < |nodes| && nodes[i].kind == Loop ==> CounterUsedByKept(nodes, i, kept))
    && DefinitionsFollowed(nodes, root, kept, [])
    && forall a: nat, k: nat :: k in kept && k < |nodes| && a < |nodes| && RequiredFor(nodes, root, a, k) ==> a in kept
  }

  lemma FewerLeft(nodes: seq<Node>, kept: set<nat>, w: nat)
    requires w < |nodes| && w !in kept
    ensures |Range(0, |nodes|) - (kept + {w})| < |Range(0, |nodes|) - kept|
  {
    assert Range(0, |nodes|) - (kept + {w}) == Range(0, |nodes|) - kept - {w};
  }

  // ---------------------------------------------------------------------------------------------
  // The search, operation by operation
  // ---------------------------------------------------------------------------------------------

  /**
   * What is kept once `op` has been looked at, `kept` having been kept before: of an operation that is
   * kept first all that is around it, then the definitions of its operands, the last one first.
   */
  ghost function Visited(nodes: seq<Node>, root: nat, kept: set<nat>, op: Option<nat>): (r: set<nat>)
    requires Nested(nodes)
    ensures kept <= r
    decreases |Range(0, |nodes|) - kept|, 0, if op.Some? then op.value + 1 else 0
  {
    if op == None || op == Some(root) || op.value >= |nodes| then kept
    else
      var w := op.value;
      if nodes[w].kind == Loop && !CounterUsedByKept(nodes, w, kept) then Visited(nodes, root, kept, nodes[w].parent)
      else if w in kept then kept
      else
        FewerLeft(nodes, kept, w);
        var around := Visited(nodes, root, kept + {w}, nodes[w].parent);
        NoMoreLeft(nodes, kept + {w}, around);
        VisitedAll(nodes, root, around, DefinitionsOf(nodes[w].uses))
  }

  /** The same for several operations, the last one first. */
  ghost function VisitedAll(nodes: seq<Node>, root: nat, kept: set<nat>, ops: seq<Option<nat>>): (r: set<nat>)
    requires Nested(nodes)
    ensures kept <= r
    decreases |Range(0, |nodes|) - kept|, 1, |ops|
  {
    if ops == [] then kept
    else
      var after := Visited(nodes, root, kept, ops[|ops| - 1]);
      NoMoreLeft(nodes, kept, after);
      VisitedAll(nodes, root, after, ops[..|ops| - 1])
  }

  /** The set that the search from the anchor ends with. */
  ghost function Searched(nodes: seq<Node>, root: nat, anchor: nat): set<nat>
    requires Nested(nodes)
  {
    Visited(nodes, root, {}, Some(anchor))
  }

  lemma NoMoreLeft(nodes: seq<Node>, kept: set<nat>, more: set<nat>)
    requires kept <= more
    ensures |Range(0, |nodes|) - more| <= |Range(0, |nodes|) - kept|
  {
    SubsetBound(Range(0, |nodes|) - more, Range(0, |nodes|) - kept);
  }

  lemma {:induction false} VisitedJoin(nodes: seq<Node>, root: nat, kept: set<nat>, a: seq<Option<nat>>, b: seq<Option<nat>>)
    requires Nested(nodes)
    ensures VisitedAll(nodes, root, kept, a + b) == VisitedAll(nodes, root, VisitedAll(nodes, root, kept, b), a)
    decreases |b|
  {
    if b == [] {
      assert a + b == a;
    } else {
      var last := |b| - 1;
      assert (a + b)[..|a + b| - 1] == a + b[..last] && (a + b)[|a + b| - 1] == b[last];
      VisitedJoin(nodes, root, Visited(nodes, root, kept, b[last]), a, b[..last]);
    }
  }

  /** What a worklist stands for when its last entry is taken off and others are put on. */
  lemma VisitedLast(nodes: seq<Node>, root: nat, kept: set<nat>, worklist: seq<Option<nat>>, kept': set<nat>, more: seq<Option<nat>>)
    requires Nested(nodes) && worklist != []
    requires Visited(nodes, root, kept, worklist[|worklist| - 1]) == VisitedAll(nodes, root, kept', more)
    ensures VisitedAll(nodes, root, kept, worklist) == VisitedAll(nodes, root, kept', Rest(worklist) + more)
  {
    VisitedJoin(nodes, root, kept', Rest(worklist), more);
  }

  lemma VisitedOne(nodes: seq<Node>, root: nat, kept: set<nat>, op: Option<nat>)
    requires Nested(nodes)
    ensures VisitedAll(nodes, root, kept, [op]) == Visited(nodes, root, kept, op)
  {
    assert [op][..0] == [];
  }

  /** Keeping an operation leaves the definitions of its operands and what is around it to be looked at. */
  lemma VisitedInserts(nodes: seq<Node>, root: nat, kept: set<nat>, w: nat)
    requires Nested(nodes) && w < |nodes| && w != root && w !in kept && (nodes[w].kind == Loop ==> CounterUsedByKept(nodes, w, kept))
    ensures Visited(nodes, root, kept, Some(w)) == VisitedAll(nodes, root, kept + {w}, DefinitionsOf(nodes[w].uses) + ParentOf(nodes[w]))
  {
    VisitedJoin(nodes, root, kept + {w}, DefinitionsOf(nodes[w].uses), ParentOf(nodes[w]));
    VisitedOne(nodes, root, kept + {w}, nodes[w].parent);
  }

  /** How far the search has got. */
  datatype Search = Search(kept: set<nat>, worklist: seq<Option<nat>>)

  /** One step of the search: the last entry of the worklist is looked at. */
  ghost function Next(nodes: seq<Node>, root: nat, s: Search): Search
    requires Nested(nodes) && s.worklist != [] && InListing(nodes, s.worklist)
  {
    var op, rest := s.worklist[|s.worklist| - 1], Rest(s.worklist);
    if op == Some(root) || op == None then Search(s.kept, rest)
    else
      var w := op.value;
      if nodes[w].kind == Loop && !CounterUsedByKept(nodes, w, s.kept) then Search(s.kept, rest + [nodes[w].parent])
      else if w in s.kept then Search(s.kept, rest)
      else Search(s.kept + {w}, rest + DefinitionsOf(nodes[w].uses) + ParentOf(nodes[w]))
  }

  /** Every entry of the worklist is an operation of the listing, or none. */
  ghost predicate InListing(nodes: seq<Node>, worklist: seq<Option<nat>>) {
    forall w: nat :: Some(w) in worklist ==> w < |nodes|
  }

  lemma NextInListing(nodes: seq<Node>, root: nat, s: Search)
    requires Scoped(nodes) && s.worklist != [] && InListing(nodes, s.worklist)
    ensures InListing(nodes, Next(nodes, root, s).worklist)
  {
    forall d: nat, w: nat | w < |nodes| && UsedIn(nodes[w].uses, d) ensures d < |nodes| {
      assert Visible(nodes, d, w);
    }
  }

  /** It ends, because something new is kept or the worklist gets lighter. */
  lemma {:induction false} NextIsLess(nodes: seq<Node>, root: nat, s: Search)
    requires Nested(nodes) && s.worklist != [] && InListing(nodes, s.worklist)
    ensures var next := Next(nodes, root, s);
      |Range(0, |nodes|) - next.kept| < |Range(0, |nodes|) - s.kept| || (next.kept == s.kept && Weight(next.worklist) < Weight(s.worklist))
  {
    var op := s.worklist[|s.worklist| - 1];
    var next := Next(nodes, root, s);
    if op.Some? && next.kept != s.kept {
      FewerLeft(nodes, s.kept, op.value);
    } else if op.Some? && next.worklist != Rest(s.worklist) {
      WeightOfSkip(nodes, s.worklist, op.value);
    }
  }

  /** What is still to be kept stays the same. */
  lemma {:induction false} NextVisits(nodes: seq<Node>, root: nat, s: Search)
    requires Nested(nodes) && s.worklist != [] && InListing(nodes, s.worklist)
    ensures var next := Next(nodes, root, s);
      VisitedAll(nodes, root, next.kept, next.worklist) == VisitedAll(nodes, root, s.kept, s.worklist)
  {
    var op, rest := s.worklist[|s.worklist| - 1], Rest(s.worklist);
    if op.Some? && op != Some(root) {
      var w := op.value;
      if nodes[w].kind == Loop && !CounterUsedByKept(nodes, w, s.kept) {
        VisitedOne(nodes, root, s.kept, nodes[w].parent);
        VisitedLast(nodes, root, s.kept, s.worklist, s.kept, [nodes[w].parent]);
      } else if w !in s.kept {
        VisitedInserts(nodes, root, s.kept, w);
        VisitedLast(nodes, root, s.kept, s.worklist, s.kept + {w}, DefinitionsOf(nodes[w].uses) + ParentOf(nodes[w]));
        JoinThree(rest, DefinitionsOf(nodes[w].uses), ParentOf(nodes[w]));
      }
    }
  }

  lemma JoinThree<T>(a: seq<T>, b: seq<T>, c: seq<T>)
    ensures a + (b + c) == a + b + c
  {
  }

  lemma {:induction false} NextTraces(nodes: seq<Node>, root: nat, anchor: nat, s: Search)
    requires Scoped(nodes) && root < |nodes| && anchor < |nodes| && anchor != root && s.worklist != [] && InListing(nodes, s.worklist)
    ensures var next := Next(nodes, root, s);
      Tracing(nodes, root, anchor, s.kept, s.worklist) ==> Tracing(nodes, root, anchor, next.kept, next.worklist)
  {
    var op := s.worklist[|s.worklist| - 1];
    if op == Some(root) || op == None {
      StepDrops(nodes, root, anchor, s.kept, s.worklist);
    } else {
      NextTracesAt(nodes, root, anchor, s, op.value);
    }
  }

  lemma {:induction false} NextTracesAt(nodes: seq<Node>, root: nat, anchor: nat, s: Search, w: nat)
    requires Scoped(nodes) && root < |nodes| && anchor < |nodes| && anchor != root && s.worklist != [] && InListing(nodes, s.worklist)
    requires w < |nodes| && w != root && s.worklist[|s.worklist| - 1] == Some(w)
    ensures var next := Next(nodes, root, s);
      Tracing(nodes, root, anchor, s.kept, s.worklist) ==> Tracing(nodes, root, anchor, next.kept, next.worklist)
  {
    if nodes[w].kind == Loop && !CounterUsedByKept(nodes, w, s.kept) {
      StepSkipsLoop(nodes, root, anchor, s.kept, s.worklist, w);
    } else if w in s.kept {
      StepMeetsKept(nodes, root, anchor, s.kept, s.worklist, w);
    } else {
      StepInserts(nodes, root, anchor, s.kept, s.worklist, w);
    }
  }

  /** The search keeps what the anchor needs, and nothing without a reason. */
  lemma SearchedIsKeptFor(nodes: seq<Node>, root: nat, anchor: nat)
    requires Scoped(nodes) && root < |nodes| && anchor < |nodes| && anchor != root && Encloses(nodes, root, anchor)
    ensures KeptFor(nodes, root, anchor, Searched(nodes, root, anchor))
  {
    var s := Search({}, [Some(anchor)]);
    VisitedOne(nodes, root, {}, Some(anchor));
    while s.worklist != []
      invariant InListing(nodes, s.worklist) && Tracing(nodes, root, anchor, s.kept, s.worklist)
      invariant VisitedAll(nodes, root, s.kept, s.worklist) == Searched(nodes, root, anchor)
      decreases |Range(0, |nodes|) - s.kept|, Weight(s.worklist)
    {
      NextInListing(nodes, root, s);
      NextIsLess(nodes, root, s);
      NextVisits(nodes, root, s);
      NextTraces(nodes, root, anchor, s);
      s := Next(nodes, root, s);
    }
  }

  method ComputeKeptSet(nodes: seq<Node>, root: nat, anchor: nat) returns (kept: set<nat>)
    requires Scoped(nodes) && root < |nodes| && anchor < |nodes| && anchor != root && Encloses(nodes, root, anchor)
    ensures kept == Searched(nodes, root, anchor) && KeptFor(nodes, root, anchor, kept)
  {
    kept := {};
    var worklist: seq<Option<nat>> := [Some(anchor)];
    VisitedOne(nodes, root, kept, Some(anchor));
    SearchedIsKeptFor(nodes, root, anchor);
    while worklist != []
      invariant InListing(nodes, worklist) && VisitedAll(nodes, root, kept, worklist) == Searched(nodes, root, anchor)
      decreases |Range(0, |nodes|) - kept|, Weight(worklist)
    {
      NextInListing(nodes, root, Search(kept, worklist));
      NextIsLess(nodes, root, Search(kept, worklist));
      NextVisits(nodes, root, Search(kept, worklist));
      var op := worklist[|worklist| - 1];
      if op == Some(root) || op == None {
        worklist := Rest(worklist);
        continue;
      }
      var w: nat := op.value;
      if nodes[w].kind == Loop {
        var used := IvUsedByKept(nodes, w, kept);
        if !used {
          worklist := Rest(worklist) + [nodes[w].parent];
          continue;
        }
      }
      if w in kept {
        worklist := Rest(worklist);
        continue;
      }
      kept := kept + {w};
      worklist := Rest(worklist) + DefinitionsOf(nodes[w].uses) + ParentOf(nodes[w]);
    }
  }

  // ---------------------------------------------------------------------------------------------
  // What is left when the rest is removed
  // ---------------------------------------------------------------------------------------------

  ghost predicate Inside(nodes: seq<Node>, root: nat, i: nat)
    requires Nested(nodes) && i < |nodes|
  {
    i != root && Encloses(nodes, root, i)
  }

  /** Nothing outside the region is removed, and nothing that is kept. */
  ghost predicate Stays(nodes: seq<Node>, root: nat, kept: set<nat>, i: nat)
    requires Nested(nodes) && i < |nodes|
  {
    i in kept || !Inside(nodes, root, i)
  }

  /** A terminator goes only with the operation around it. */
  ghost predicate Survives(nodes: seq<Node>, root: nat, kept: set<nat>, i: nat)
    requires Nested(nodes) && i < |nodes|
  {
    || Stays(nodes, root, kept, i)
    || (nodes[i].kind == Terminator && nodes[i].parent.Some? && Stays(nodes, root, kept, nodes[i].parent.value))
  }

  /** A loop of the region, from place `i` on, that is not kept: its body moves up. */
  ghost predicate Dissolved(nodes: seq<Node>, root: nat, kept: set<nat>, i: nat, l: nat)
    requires Nested(nodes)
  {
    i <= l < |nodes| && Inside(nodes, root, l) && l !in kept && nodes[l].kind == Loop
  }

  /** Where something nested in `p` ends up once the loops from place `i` on are dissolved. */
  ghost function Climb(nodes: seq<Node>, root: nat, kept: set<nat>, i: nat, p: Option<nat>): Option<nat>
    requires Nested(nodes)
    decreases if p.Some? then p.value + 1 else 0
  {
    if p.Some? && Dissolved(nodes, root, kept, i, p.value) then Climb(nodes, root, kept, i, nodes[p.value].parent) else p
  }

  lemma {:induction false} ClimbStep(nodes: seq<Node>, root: nat, kept: set<nat>, i: nat, p: Option<nat>)
    requires Nested(nodes) && i < |nodes|
    ensures Climb(nodes, root, kept, i, p) ==
      var q := Climb(nodes, root, kept, i + 1, p);
      if q == Some(i) && Dissolved(nodes, root, kept, i, i) then nodes[i].parent else q
    decreases if p.Some? then p.value + 1 else 0
  {
    if p.Some? && Dissolved(nodes, root, kept, i, p.value) {
      ClimbStep(nodes, root, kept, i, nodes[p.value].parent);
    }
  }

  /** All that is nested in `i` moves to `p`. */
  function Spliced(parents: seq<Option<nat>>, i: nat, p: Option<nat>): (r: seq<Option<nat>>)
    ensures |r| == |parents| && forall j :: 0 <= j < |r| ==> r[j] == if parents[j] == Some(i) then p else parents[j]
  {
    seq(|parents|, j requires 0 <= j < |parents| => if parents[j] == Some(i) then p else parents[j])
  }

  ghost predicate Climbed(nodes: seq<Node>, root: nat, kept: set<nat>, i: nat, parents: seq<Option<nat>>)
    requires Nested(nodes)
  {
    |parents| == |nodes| && forall j :: 0 <= j < |nodes| ==> parents[j] == Climb(nodes, root, kept, i, nodes[j].parent)
  }

  lemma ClimbedStep(nodes: seq<Node>, root: nat, kept: set<nat>, i: nat, parents: seq<Option<nat>>)
    requires Nested(nodes) && i < |nodes| && Climbed(nodes, root, kept, i + 1, parents)
    ensures Climbed(nodes, root, kept, i,
      if Dissolved(nodes, root, kept, i, i) then Spliced(parents, i, parents[i]) else parents)
  {
    assert parents[i] == nodes[i].parent;
    forall j | 0 <= j < |nodes|
      ensures Climb(nodes, root, kept, i, nodes[j].parent) ==
        if parents[j] == Some(i) && Dissolved(nodes, root, kept, i, i) then parents[i] else parents[j]
    {
      ClimbStep(nodes, root, kept, i, nodes[j].parent);
    }
  }

  method IsInside(nodes: seq<Node>, root: nat, i: nat) returns (inside: bool)
    requires Nested(nodes) && i < |nodes|
    ensures inside <==> Inside(nodes, root, i)
  {
    var cur: Option<nat> := nodes[i].parent;
    if cur.Some? && Encloses(nodes, root, cur.value) {
      EnclosesIsEarlier(nodes, root, cur.value);
    }
    while cur.Some?
      invariant cur.Some? ==> cur.value < i
      invariant Inside(nodes, root, i) <==> cur.Some? && Encloses(nodes, root, cur.value)
      decreases if cur.Some? then cur.value + 1 else 0
    {
      if cur.value == root {
        return true;
      }
      cur := nodes[cur.value].parent;
    }
    return false;
  }

  method StaysAfter(nodes: seq<Node>, root: nat, kept: set<nat>, i: nat) returns (stays: bool)
    requires Nested(nodes) && i < |nodes|
    ensures stays <==> Survives(nodes, root, kept, i)
  {
    var inside := IsInside(nodes, root, i);
    if i in kept || !inside {
      return true;
    }
    if nodes[i].kind == Terminator && nodes[i].parent.Some? {
      var p := nodes[i].parent.value;
      var parentInside := IsInside(nodes, root, p);
      return p in kept || !parentInside;
    }
    return false;
  }

  /**
   * Inner operations before outer ones: a loop that is not kept gives its body to the operation around
   * it, and everything of the region that is not kept is erased.
   */
  method PruneRegion(nodes: seq<Node>, root: nat, kept: set<nat>)
    returns (parents: seq<Option<nat>>, survivors: set<nat>)
    requires Nested(nodes)
    ensures Climbed(nodes, root, kept, 0, parents)
    ensures forall i: nat :: i in survivors <==> i < |nodes| && Survives(nodes, root, kept, i)
  {
    parents := seq(|nodes|, j requires 0 <= j < |nodes| => nodes[j].parent);
    survivors := {};
    var i: nat := |nodes|;
    while i != 0
      invariant i <= |nodes|
      invariant Climbed(nodes, root, kept, i, parents)
      invariant forall j: nat :: j in survivors <==> i <= j < |nodes| && Survives(nodes, root, kept, j)
    {
      i := i - 1;
      ClimbedStep(nodes, root, kept, i, parents);
      var stays := StaysAfter(nodes, root, kept, i);
      if stays {
        survivors := survivors + {i};
      } else if nodes[i].kind == Loop {
        parents := Spliced(parents, i, parents[i]);
      }
    }
    assert i == 0;
  }

  // ---------------------------------------------------------------------------------------------
  // What pruning keeps
  // ---------------------------------------------------------------------------------------------

  lemma {:induction false} ClimbFinds(nodes: seq<Node>, root: nat, kept: set<nat>, p: nat)
    requires Nested(nodes) && root < |nodes| && p < |nodes| && Encloses(nodes, root, p)
    requires forall a: nat :: a < |nodes| && Inside(nodes, root, a) && Encloses(nodes, a, p) && nodes[a].kind != Loop ==> a in kept
    ensures var q := Climb(nodes, root, kept, 0, Some(p));
      && q.Some? && q.value < |nodes| && Stays(nodes, root, kept, q.value) && Encloses(nodes, q.value, p)
      && forall a: nat :: a < |nodes| && Stays(nodes, root, kept, a) && Encloses(nodes, a, p) ==> Encloses(nodes, a, q.value)
    decreases p
  {
    if Dissolved(nodes, root, kept, 0, p) {
      var up := nodes[p].parent.value;
      ClimbFinds(nodes, root, kept, up);
    } else {
      assert Inside(nodes, root, p) && nodes[p].kind != Loop ==> p in kept;
    }
  }

  /**
   * Nothing that is kept is erased together with what it was nested in: it ends up in the nearest
   * operation around it that survives.
   */
  lemma KeptMovesToNearest(nodes: seq<Node>, root: nat, anchor: nat, kept: set<nat>, parents: seq<Option<nat>>, k: nat)
    requires Nested(nodes) && root < |nodes| && anchor < |nodes| && KeptFor(nodes, root, anchor, kept)
    requires Climbed(nodes, root, kept, 0, parents)
    requires k in kept && k < |nodes| && Inside(nodes, root, k)
    ensures parents[k].Some? && parents[k].value < |nodes| && parents[k].value != k
    ensures Stays(nodes, root, kept, parents[k].value) && Encloses(nodes, parents[k].value, k)
    ensures forall a: nat :: a < |nodes| && a != k && Stays(nodes, root, kept, a) && Encloses(nodes, a, k) ==>
      Encloses(nodes, a, parents[k].value)
  {
    var p := nodes[k].parent.value;
    forall a: nat | a < |nodes| && Inside(nodes, root, a) && Encloses(nodes, a, p) && nodes[a].kind != Loop
      ensures a in kept
    {
      EnclosesIsEarlier(nodes, a, p);
      if Encloses(nodes, a, root) {
        EnclosesIsEarlier(nodes, a, root);
        EnclosesIsEarlier(nodes, root, a);
      }
      assert RequiredFor(nodes, root, a, k);
    }
    ClimbFinds(nodes, root, kept, p);
    EnclosesIsEarlier(nodes, parents[k].value, p);
  }

  /** A counter that a kept operation uses still has its loop around it. */
  lemma CounterStaysBound(nodes: seq<Node>, root: nat, anchor: nat, kept: set<nat>, l: nat, u: nat)
    requires Scoped(nodes) && root < |nodes| && anchor < |nodes| && KeptFor(nodes, root, anchor, kept)
    requires l < |nodes| && u < |nodes| && u in kept && Inside(nodes, root, l) && UsesCounter(nodes, l, u)
    ensures l in kept && l != u && Encloses(nodes, l, u)
  {
    if Encloses(nodes, l, root) {
      EnclosesIsEarlier(nodes, l, root);
      EnclosesIsEarlier(nodes, root, l);
    }
    assert RequiredFor(nodes, root, l, u);
  }

  lemma DefinitionIsKept(nodes: seq<Node>, root: nat, anchor: nat, kept: set<nat>, k: nat, d: nat)
    requires Nested(nodes) && root < |nodes| && anchor < |nodes| && KeptFor(nodes, root, anchor, kept)
    requires k in kept && k < |nodes| && d < |nodes| && UsedIn(nodes[k].uses, d) && d != root && nodes[d].kind != Loop
    ensures d in kept
  {
  }

  lemma RequiredIsKept(nodes: seq<Node>, root: nat, anchor: nat, kept: set<nat>, k: nat, a: nat)
    requires Nested(nodes) && root < |nodes| && anchor < |nodes| && KeptFor(nodes, root, anchor, kept)
    requires k in kept && k < |nodes| && a < |nodes| && RequiredFor(nodes, root, a, k)
    ensures a in kept
  {
  }

  /**
   * A kept operation that uses a value from outside the region brings in what that value is nested in:
   * the search does stop at the root, but not around it.
   */
  lemma OutsideIsKeptToo(nodes: seq<Node>, root: nat, anchor: nat, kept: set<nat>, k: nat, d: nat, a: nat)
    requires Nested(nodes) && root < |nodes| && anchor < |nodes| && KeptFor(nodes, root, anchor, kept)
    requires k in kept && k < |nodes| && d < |nodes| && a < |nodes| && UsedIn(nodes[k].uses, d) && d != root
    requires !Inside(nodes, root, d) && nodes[d].kind != Loop && a != d && Encloses(nodes, a, d) && nodes[a].kind != Loop
    ensures d in kept && a in kept
  {
    DefinitionIsKept(nodes, root, anchor, kept, k, d);
    RequiredIsKept(nodes, root, anchor, kept, d, a);
  }
}
