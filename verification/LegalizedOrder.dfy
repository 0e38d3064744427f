/**
 * What a finished run of the legalizer has done to the order of the original nodes, and when it has
 * left that order alone.
 */
module LegalizedOrder {
  import opened Sequences
  import opened OperationTree
  import opened TreeShape
  import opened LegalizerRules
  import opened Legalizer

  /** Wherever stages sit outside a pipeline they are neighbours, with something before them or nothing after them. */
  ghost predicate AllTidy(kids: Children) {
    forall n :: n in kids && n.kind != Pipeline && Stages(kids[n]) != [] ==> Tidy(kids[n])
  }

  lemma TidyIsArranged(kids: Children)
    ensures AllTidy(kids) <==> AllArranged(kids)
  {
    forall n | n in kids && n.kind != Pipeline && Stages(kids[n]) != []
      ensures Arranged(n, kids[n]) == kids[n] <==> Tidy(kids[n])
    {
      ArrangedIsSameIff(n, kids[n]);
    }
  }

  /** Walks of the stages and of the other nodes are together as long as the walk of all. */
  lemma {:induction false} WalkLengthSplits(kids: Children, rank: map<Node, nat>, bound: nat, s: seq<Node>)
    requires Ranked(kids, rank) && forall c :: c in s ==> c in kids && rank[c] < bound
    ensures forall c :: c in Stages(s) ==> c in s
    ensures forall c :: c in Others(s) ==> c in s
    ensures |PreOrderAll(kids, rank, bound, s)| ==
      |PreOrderAll(kids, rank, bound, Stages(s))| + |PreOrderAll(kids, rank, bound, Others(s))|
  {
    SplitFacts(s);
    if s != [] {
      WalkLengthSplits(kids, rank, bound, s[1..]);
      if s[0].kind == Stage {
        assert Stages(s)[1..] == Stages(s[1..]) && Others(s) == Others(s[1..]);
      } else {
        assert Others(s)[1..] == Others(s[1..]) && Stages(s) == Stages(s[1..]);
      }
    }
  }

  lemma ArrangedWalkLength(kids: Children, rank: map<Node, nat>, n: Node)
    requires Ranked(kids, rank) && n in kids
    ensures |PreOrderAll(kids, rank, rank[n], ArrangedChildren(kids, rank, n))| == |PreOrderAll(kids, rank, rank[n], kids[n])|
  {
    var s := kids[n];
    if n.kind != Pipeline && Stages(s) != [] {
      var t, k := Others(s), NestPlace(s);
      WalkLengthSplits(kids, rank, rank[n], s);
      assert t == t[..k] + t[k..];
      PreOrderAllJoin(kids, rank, rank[n], t[..k], t[k..]);
      PreOrderAllJoin(kids, rank, rank[n], t[..k], Stages(s));
      PreOrderAllJoin(kids, rank, rank[n], t[..k] + Stages(s), t[k..]);
    }
  }

  lemma {:induction false} OrderLength(kids: Children, rank: map<Node, nat>, n: Node)
    requires Ranked(kids, rank) && n in kids
    ensures |Order(kids, rank, kids.Keys, n)| == |PreOrder(kids, rank, n)|
    decreases rank[n], 1, 0
  {
    OrderAllLength(kids, rank, rank[n], ArrangedChildren(kids, rank, n));
    ArrangedWalkLength(kids, rank, n);
  }

  lemma {:induction false} OrderAllLength(kids: Children, rank: map<Node, nat>, bound: nat, s: seq<Node>)
    requires Ranked(kids, rank) && forall c :: c in s ==> c in kids && rank[c] < bound
    ensures |OrderAll(kids, rank, kids.Keys, bound, s)| == |PreOrderAll(kids, rank, bound, s)|
    decreases bound, 0, |s|
  {
    if s != [] {
      OrderLength(kids, rank, s[0]);
      OrderAllLength(kids, rank, bound, s[1..]);
    }
  }

  /** Equal walks come from equal lists of nodes, each of which has the same order as before. */
  lemma {:induction false} SameWalkSameList(kids: Children, rank: map<Node, nat>, bound: nat, t: seq<Node>, s: seq<Node>)
    requires Ranked(kids, rank) && forall c :: c in s ==> c in kids && rank[c] < bound
    requires forall c :: c in t ==> c in kids && rank[c] < bound
    requires OrderAll(kids, rank, kids.Keys, bound, t) == PreOrderAll(kids, rank, bound, s)
    ensures t == s && forall c :: c in s ==> Order(kids, rank, kids.Keys, c) == PreOrder(kids, rank, c)
    decreases |t|
  {
    if t == [] || s == [] {
      assert t == [] && s == [];
    } else {
      var a, b := Order(kids, rank, kids.Keys, t[0]), OrderAll(kids, rank, kids.Keys, bound, t[1..]);
      var x, y := PreOrder(kids, rank, s[0]), PreOrderAll(kids, rank, bound, s[1..]);
      assert a + b == x + y;
      assert a[0] == (a + b)[0] == (x + y)[0] == x[0];
      OrderLength(kids, rank, s[0]);
      assert a == (a + b)[..|a|] && x == (x + y)[..|a|] && b == (a + b)[|a|..] && y == (x + y)[|a|..];
      SameWalkSameList(kids, rank, bound, t[1..], s[1..]);
      assert t == [t[0]] + t[1..] && s == [s[0]] + s[1..];
    }
  }

  lemma SameOrderBelow(kids: Children, rank: map<Node, nat>, n: Node)
    requires Ranked(kids, rank) && n in kids
    requires Order(kids, rank, kids.Keys, n) == PreOrder(kids, rank, n)
    ensures Arranged(n, kids[n]) == kids[n]
    ensures forall c :: c in kids[n] ==> Order(kids, rank, kids.Keys, c) == PreOrder(kids, rank, c)
  {
    OrderTails(kids, rank, n);
    ChildrenBelow(kids, rank, n);
    SameWalkSameList(kids, rank, rank[n], ArrangedChildren(kids, rank, n), kids[n]);
  }

  lemma ChildrenBelow(kids: Children, rank: map<Node, nat>, n: Node)
    requires Ranked(kids, rank) && n in kids
    ensures forall c :: c in kids[n] ==> c in kids && rank[c] < rank[n]
  {
  }

  lemma OrderTails(kids: Children, rank: map<Node, nat>, n: Node)
    requires Ranked(kids, rank) && n in kids
    requires Order(kids, rank, kids.Keys, n) == PreOrder(kids, rank, n)
    ensures OrderAll(kids, rank, kids.Keys, rank[n], ArrangedChildren(kids, rank, n)) == PreOrderAll(kids, rank, rank[n], kids[n])
  {
    OrderTail(kids, rank, n);
    PreOrderTail(kids, rank, n);
  }

  lemma OrderTail(kids: Children, rank: map<Node, nat>, n: Node)
    requires Ranked(kids, rank) && n in kids
    ensures Order(kids, rank, kids.Keys, n) != []
    ensures Order(kids, rank, kids.Keys, n)[1..] == OrderAll(kids, rank, kids.Keys, rank[n], ArrangedChildren(kids, rank, n))
  {
  }

  lemma PreOrderTail(kids: Children, rank: map<Node, nat>, n: Node)
    requires Ranked(kids, rank) && n in kids
    ensures PreOrder(kids, rank, n) != [] && PreOrder(kids, rank, n)[1..] == PreOrderAll(kids, rank, rank[n], kids[n])
  {
  }

  lemma {:induction false} SameOrderArranged(kids: Children, rank: map<Node, nat>, n: Node, m: Node)
    requires Ranked(kids, rank) && n in kids && m in PreOrder(kids, rank, n) && m in kids
    requires Order(kids, rank, kids.Keys, n) == PreOrder(kids, rank, n)
    ensures Arranged(m, kids[m]) == kids[m]
    decreases rank[n]
  {
    SameOrderBelow(kids, rank, n);
    if m != n {
      PreOrderAllDown(kids, rank, rank[n], kids[n], m);
      var c :| c in kids[n] && m in PreOrder(kids, rank, c);
      SameOrderArranged(kids, rank, c, m);
    }
  }

  /** The surviving order is the original pre-order exactly when all lists are tidy. */
  lemma OrderIsPreOrderIff(kids: Children, rank: map<Node, nat>, root: Node)
    requires Ranked(kids, rank) && Rooted(kids, root)
    ensures Order(kids, rank, kids.Keys, root) == PreOrder(kids, rank, root) <==> AllTidy(kids)
  {
    TidyIsArranged(kids);
    WalkIsAll(kids, rank, root);
    if AllArranged(kids) {
      ArrangedOrder(kids, rank, kids.Keys, root);
      forall c | c in PreOrder(kids, rank, root)
        ensures c in kids.Keys
      {
        PreOrderDown(kids, rank, root, c);
      }
      KeepAll(PreOrder(kids, rank, root), kids.Keys);
    }
    if Order(kids, rank, kids.Keys, root) == PreOrder(kids, rank, root) {
      forall m | m in kids
        ensures Arranged(m, kids[m]) == kids[m]
      {
        SameOrderArranged(kids, rank, root, m);
      }
    }
  }

  /**
   * The tree a finished run leaves behind: it meets every node exactly once, original nodes in the
   * arranged order of the original tree, and in the original pre-order exactly when that tree was tidy.
   */
  lemma LegalizedTree(
      kids0: Children, rank0: map<Node, nat>, kids: Children, rank: map<Node, nat>, root: Node, withDeps: set<Node>,
      iterations: nat, first: int, next: int)
    requires Repairable(kids0, rank0, root, withDeps)
    requires UnderRepair(kids0, rank0, kids, rank, root, withDeps, iterations, first, next) && NoViolation(kids, withDeps)
    ensures var walk := PreOrder(kids, rank, root);
      && NoDup(walk) && (forall n :: n in walk <==> n in kids) && kids0.Keys <= kids.Keys
      && Keep(walk, kids0.Keys) == Order(kids0, rank0, kids0.Keys, root)
      && (Keep(walk, kids0.Keys) == PreOrder(kids0, rank0, root) <==> AllTidy(kids0))
    ensures iterations <= TotalWeight(kids0, withDeps, kids0.Keys)
  {
    PreOrderNoDup(kids, rank, root);
    WalkIsAll(kids, rank, root);
    NoViolationIsArranged(kids, withDeps);
    ArrangedOrder(kids, rank, kids0.Keys, root);
    OrderIsPreOrderIff(kids0, rank0, root);
  }
}
