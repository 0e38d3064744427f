/**
 * Forests as maps from nodes to child lists, without links: ranks that show there is no cycle,
 * the pre-order walk, and how these change when a node is put in or taken out.
 */
module TreeShape {
  import opened Sequences
  import opened OperationTree

  /** Children are nodes of the forest, listed once, under one parent. */
  ghost predicate Shape(kids: Children) {
    && (forall n, c :: n in kids && c in kids[n] ==> c in kids)
    && (forall n :: n in kids ==> NoDup(kids[n]))
    && (forall m, n, c :: m in kids && n in kids && c in kids[m] && c in kids[n] ==> m == n)
  }

  lemma LinksGiveShape(l: Links, kids: Children)
    requires Represents(l, kids)
    ensures Shape(kids)
  {
    forall n | n in kids
      ensures SpellsOut(l, kids.Keys, n, kids[n])
    {
    }
  }

  /** Every child ranks below its parent. */
  ghost predicate Ranked(kids: Children, rank: map<Node, nat>) {
    && rank.Keys == kids.Keys
    && forall n, c :: n in kids && c in kids[n] ==> c in kids && rank[c] < rank[n]
  }

  /** Every node but the root is somebody's child. */
  ghost predicate Rooted(kids: Children, root: Node) {
    && root in kids
    && forall c {:trigger HasParent(kids, c)} :: c in kids && c != root ==> HasParent(kids, c)
  }

  ghost predicate HasParent(kids: Children, c: Node) {
    exists n :: n in kids && c in kids[n]
  }

  ghost function PreOrder(kids: Children, rank: map<Node, nat>, n: Node): seq<Node>
    requires Ranked(kids, rank) && n in kids
    decreases rank[n], 1, 0
  {
    [n] + PreOrderAll(kids, rank, rank[n], kids[n])
  }

  /** The walks of the listed nodes, all of rank below `bound`, one after the other. */
  ghost function PreOrderAll(kids: Children, rank: map<Node, nat>, bound: nat, s: seq<Node>): seq<Node>
    requires Ranked(kids, rank) && forall c :: c in s ==> c in kids && rank[c] < bound
    decreases bound, 0, |s|
  {
    if s == [] then [] else PreOrder(kids, rank, s[0]) + PreOrderAll(kids, rank, bound, s[1..])
  }

  lemma {:induction false} PreOrderAllMember(kids: Children, rank: map<Node, nat>, bound: nat, s: seq<Node>, c: Node)
    requires Ranked(kids, rank) && forall c :: c in s ==> c in kids && rank[c] < bound
    requires c in s
    ensures forall x :: x in PreOrder(kids, rank, c) ==> x in PreOrderAll(kids, rank, bound, s)
    decreases |s|
  {
    if s[0] != c {
      PreOrderAllMember(kids, rank, bound, s[1..], c);
    }
  }

  lemma {:induction false} PreOrderClosed(kids: Children, rank: map<Node, nat>, n: Node, m: Node, c: Node)
    requires Ranked(kids, rank) && n in kids && m in kids && c in kids[m]
    requires m in PreOrder(kids, rank, n)
    ensures c in PreOrder(kids, rank, n)
    decreases rank[n], 1, 0
  {
    if m == n {
      PreOrderAllMember(kids, rank, rank[n], kids[n], c);
      assert c in PreOrder(kids, rank, c);
    } else {
      PreOrderAllClosed(kids, rank, rank[n], kids[n], m, c);
    }
  }

  lemma {:induction false} PreOrderAllClosed(kids: Children, rank: map<Node, nat>, bound: nat, s: seq<Node>, m: Node, c: Node)
    requires Ranked(kids, rank) && forall c :: c in s ==> c in kids && rank[c] < bound
    requires m in kids && c in kids[m] && m in PreOrderAll(kids, rank, bound, s)
    ensures c in PreOrderAll(kids, rank, bound, s)
    decreases bound, 0, |s|
  {
    if m in PreOrder(kids, rank, s[0]) {
      PreOrderClosed(kids, rank, s[0], m, c);
    } else {
      PreOrderAllClosed(kids, rank, bound, s[1..], m, c);
    }
  }

  ghost function MaxRank(rank: map<Node, nat>, nodes: set<Node>): (r: nat)
    requires nodes <= rank.Keys
    ensures forall n :: n in nodes ==> rank[n] <= r
  {
    if nodes == {} then 0
    else
      var n :| n in nodes;
      var rest := MaxRank(rank, nodes - {n});
      if rank[n] > rest then rank[n] else rest
  }

  /** In a rooted forest the walk from the root meets every node. */
  lemma {:induction false} WalkReachesAll(kids: Children, rank: map<Node, nat>, root: Node, c: Node)
    requires Ranked(kids, rank) && Rooted(kids, root) && c in kids
    ensures c in PreOrder(kids, rank, root)
    decreases MaxRank(rank, kids.Keys) - rank[c]
  {
    if c != root {
      assert HasParent(kids, c);
      var n :| n in kids && c in kids[n];
      WalkReachesAll(kids, rank, root, n);
      PreOrderClosed(kids, rank, root, n, c);
    }
  }

  /** The walk of `n` meets a parent of `x`. */
  ghost predicate ParentWithin(kids: Children, rank: map<Node, nat>, n: Node, x: Node)
    requires Ranked(kids, rank) && n in kids
  {
    exists m :: m in PreOrder(kids, rank, n) && m in kids && x in kids[m]
  }

  /** Below a node the walk meets only lower ranks, and with a node its parent. */
  lemma {:induction false} PreOrderDown(kids: Children, rank: map<Node, nat>, n: Node, x: Node)
    requires Ranked(kids, rank) && n in kids && x in PreOrder(kids, rank, n)
    ensures x in kids && rank[x] <= rank[n]
    ensures x != n ==> ParentWithin(kids, rank, n, x)
    decreases rank[n], 1, 0
  {
    if x != n {
      PreOrderAllDown(kids, rank, rank[n], kids[n], x);
      var c :| c in kids[n] && x in PreOrder(kids, rank, c) && (x == c || ParentWithin(kids, rank, c, x));
      if x != c {
        PreOrderAllMember(kids, rank, rank[n], kids[n], c);
      } else {
        assert n in PreOrder(kids, rank, n);
      }
    }
  }

  lemma {:induction false} PreOrderAllDown(kids: Children, rank: map<Node, nat>, bound: nat, s: seq<Node>, x: Node)
    requires Ranked(kids, rank) && forall c :: c in s ==> c in kids && rank[c] < bound
    requires x in PreOrderAll(kids, rank, bound, s)
    ensures x in kids && rank[x] < bound
    ensures exists c :: c in s && x in PreOrder(kids, rank, c) && (x == c || ParentWithin(kids, rank, c, x))
    decreases bound, 0, |s|
  {
    if x in PreOrder(kids, rank, s[0]) {
      PreOrderDown(kids, rank, s[0], x);
    } else {
      PreOrderAllDown(kids, rank, bound, s[1..], x);
    }
  }

  /** The walks of two different children of one node have nothing in common. */
  lemma {:induction false} SiblingsApart(kids: Children, rank: map<Node, nat>, n: Node, a: Node, b: Node, x: Node)
    requires Shape(kids) && Ranked(kids, rank) && n in kids && a in kids[n] && b in kids[n] && a != b
    requires x in kids && x in PreOrder(kids, rank, a)
    ensures x !in PreOrder(kids, rank, b)
    decreases (rank[n] as int) - (rank[x] as int)
  {
    PreOrderDown(kids, rank, a, x);
    if x in PreOrder(kids, rank, b) {
      PreOrderDown(kids, rank, b, x);
      if x == a {
        var m :| m in PreOrder(kids, rank, b) && m in kids && x in kids[m];
        PreOrderDown(kids, rank, b, m);
      } else {
        var m :| m in PreOrder(kids, rank, a) && m in kids && x in kids[m];
        if x == b {
          PreOrderDown(kids, rank, a, m);
        } else {
          SiblingsApart(kids, rank, n, a, b, m);
        }
      }
    }
  }

  lemma JoinNoDup(s: seq<Node>, t: seq<Node>)
    requires NoDup(s) && NoDup(t) && forall x :: x in s ==> x !in t
    ensures NoDup(s + t)
  {
    forall i, j | 0 <= i < j < |s + t|
      ensures (s + t)[i] != (s + t)[j]
    {
      if i < |s| <= j {
        assert s[i] in s && t[j - |s|] in t;
      }
    }
  }

  /** The walk meets no node twice. */
  lemma {:induction false} PreOrderNoDup(kids: Children, rank: map<Node, nat>, n: Node)
    requires Shape(kids) && Ranked(kids, rank) && n in kids
    ensures NoDup(PreOrder(kids, rank, n))
    decreases rank[n], 1, 0
  {
    PreOrderAllNoDup(kids, rank, n, kids[n]);
    forall x | x in PreOrderAll(kids, rank, rank[n], kids[n])
      ensures x != n
    {
      PreOrderAllDown(kids, rank, rank[n], kids[n], x);
    }
    JoinNoDup([n], PreOrderAll(kids, rank, rank[n], kids[n]));
  }

  lemma {:induction false} PreOrderAllNoDup(kids: Children, rank: map<Node, nat>, n: Node, s: seq<Node>)
    requires Shape(kids) && Ranked(kids, rank) && n in kids
    requires NoDup(s) && forall c :: c in s ==> c in kids[n]
    ensures NoDup(PreOrderAll(kids, rank, rank[n], s))
    decreases rank[n], 0, |s|
  {
    if s != [] {
      var first, rest := PreOrder(kids, rank, s[0]), PreOrderAll(kids, rank, rank[n], s[1..]);
      PreOrderNoDup(kids, rank, s[0]);
      PreOrderAllNoDup(kids, rank, n, s[1..]);
      forall x | x in first
        ensures x !in rest
      {
        if x in rest {
          PreOrderAllDown(kids, rank, rank[n], s[1..], x);
          var c :| c in s[1..] && x in PreOrder(kids, rank, c);
          PreOrderDown(kids, rank, c, x);
          SiblingsApart(kids, rank, n, s[0], c, x);
        }
      }
      JoinNoDup(first, rest);
    }
  }

  lemma {:induction false} PreOrderAllJoin(kids: Children, rank: map<Node, nat>, bound: nat, s: seq<Node>, t: seq<Node>)
    requires Ranked(kids, rank) && (forall c :: c in s ==> c in kids && rank[c] < bound)
    requires forall c :: c in t ==> c in kids && rank[c] < bound
    ensures PreOrderAll(kids, rank, bound, s + t) == PreOrderAll(kids, rank, bound, s) + PreOrderAll(kids, rank, bound, t)
  {
    if s == [] {
      assert s + t == t;
    } else {
      assert (s + t)[1..] == s[1..] + t;
      PreOrderAllJoin(kids, rank, bound, s[1..], t);
    }
  }

  /** What the walk of `n` has met after `i` children. */
  ghost function WalkSoFar(kids: Children, rank: map<Node, nat>, n: Node, i: nat): seq<Node>
    requires Ranked(kids, rank) && n in kids && i <= |kids[n]|
  {
    [n] + PreOrderAll(kids, rank, rank[n], kids[n][..i])
  }

  lemma WalkEnds(kids: Children, rank: map<Node, nat>, n: Node)
    requires Ranked(kids, rank) && n in kids
    ensures WalkSoFar(kids, rank, n, 0) == [n] && WalkSoFar(kids, rank, n, |kids[n]|) == PreOrder(kids, rank, n)
  {
    assert kids[n][..|kids[n]|] == kids[n];
  }

  lemma WalkNext(kids: Children, rank: map<Node, nat>, n: Node, i: nat)
    requires Ranked(kids, rank) && n in kids && i < |kids[n]|
    ensures kids[n][i] in kids && rank[kids[n][i]] < rank[n]
    ensures WalkSoFar(kids, rank, n, i + 1) == WalkSoFar(kids, rank, n, i) + PreOrder(kids, rank, kids[n][i])
  {
    var s, c := kids[n], kids[n][i];
    assert s[..i + 1] == s[..i] + [c];
    PreOrderAllJoin(kids, rank, rank[n], s[..i], [c]);
    assert PreOrderAll(kids, rank, rank[n], [c]) == PreOrder(kids, rank, c);
  }

  lemma WalkIsAll(kids: Children, rank: map<Node, nat>, root: Node)
    requires Ranked(kids, rank) && Rooted(kids, root)
    ensures forall n :: n in PreOrder(kids, rank, root) <==> n in kids
  {
    forall n | n in PreOrder(kids, rank, root)
      ensures n in kids
    {
      PreOrderDown(kids, rank, root, n);
    }
    forall n | n in kids
      ensures n in PreOrder(kids, rank, root)
    {
      WalkReachesAll(kids, rank, root, n);
    }
  }
}
