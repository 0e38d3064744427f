/**
 * The legalizer: collects the violations of the three shape rules, repairs the first one, and starts
 * over until there is none.
 */
module Legalizer {
  import opened Sequences
  import opened OperationTree
  import opened TreeShape
  import opened LegalizerRules
  import opened IllegalGroups
  import opened PipelineTreeLegalizer

  datatype Rule = PipelineChildren | StageParent | PrivateMustExist

  datatype Violation = Violation(rule: Rule, node: Node)

  ghost predicate Violates(kids: Children, withDeps: set<Node>, rule: Rule, n: Node)
    requires n in kids
  {
    match rule
    case PipelineChildren => n.kind == Pipeline && IllegalCount(kids[n]) > 0
    case StageParent => n.kind == Stage && exists q :: q in kids && q.kind != Pipeline && n in kids[q]
    case PrivateMustExist => n.kind == Pipeline && PrivateScan(kids[n], withDeps) == Violated
  }

  /** Without violations nothing weighs anything. */
  lemma NothingViolated(kids: Children, withDeps: set<Node>)
    requires Shape(kids)
    requires forall n, r :: n in kids ==> !Violates(kids, withDeps, r, n)
    ensures NoViolation(kids, withDeps)
  {
    forall n | n in kids
      ensures ListWeight(n, kids[n], withDeps) == 0
    {
      if n.kind == Pipeline {
        assert !Violates(kids, withDeps, PipelineChildren, n);
        assert !Violates(kids, withDeps, PrivateMustExist, n);
      } else if Stages(kids[n]) != [] {
        var c := Stages(kids[n])[0];
        SplitFacts(kids[n]);
        assert c in kids[n];
        assert Violates(kids, withDeps, StageParent, c);
      }
    }
  }

  /** `withDeps` are the nodes on which some stage depends. */
  ghost predicate Dependents(kids: Children, withDeps: set<Node>)
    reads kids.Keys`dependencies
  {
    forall n :: n in kids ==> (n in withDeps <==> n.dependencies != [])
  }

  // ---------------------------------------------------------------------------------------------
  // Finding violations
  // ---------------------------------------------------------------------------------------------

  method PipelineChildrenViolated(n: Node, ghost kids: Children) returns (violated: bool)
    requires Linked(kids) && n in kids
    ensures violated <==> n.kind == Pipeline && IllegalCount(kids[n]) > 0
  {
    if n.kind != Pipeline {
      return false;
    }
    ghost var s, i := kids[n], 0;
    var child := FirstOf(n, kids);
    while child != null
      invariant 0 <= i <= |s| && child == if i < |s| then s[i] else null
      invariant forall j :: 0 <= j < i ==> LegalInPipeline(s[j])
      decreases |s| - i
    {
      if !LegalInPipeline(child) {
        SomeIllegal(s, i);
        return true;
      }
      child := NextOf(child, n, i, kids);
      i := i + 1;
    }
    AllLegal(s);
    return false;
  }

  lemma {:induction false} SomeIllegal(s: seq<Node>, i: nat)
    requires i < |s| && !LegalInPipeline(s[i])
    ensures IllegalCount(s) > 0
  {
    if i > 0 {
      SomeIllegal(s[1..], i - 1);
    }
  }

  method StageParentViolated(n: Node, ghost kids: Children) returns (violated: bool)
    requires Linked(kids) && n in kids && (n.kind == Stage ==> n.parent != null)
    ensures violated <==> n.kind == Stage && exists q :: q in kids && q.kind != Pipeline && n in kids[q]
  {
    if n.kind != Stage {
      return false;
    }
    ParentIsOnly(LinksOf(kids.Keys), kids, n);
    return n.parent.kind != Pipeline;
  }

  lemma ParentIsOnly(l: Links, kids: Children, n: Node)
    requires Represents(l, kids) && n in kids && l.parent[n] != null
    ensures l.parent[n] in kids && n in kids[l.parent[n]]
    ensures forall q :: q in kids && n in kids[q] ==> q == l.parent[n]
  {
    assert Anchored(l, kids, n);
    forall q | q in kids && n in kids[q]
      ensures q == l.parent[n]
    {
      ParentOf(l, kids, q, n);
    }
  }

  /** The scan as the source writes it: a child that is no stage is tested again and again. */
  method PrivateMustExistViolated(n: Node, ghost kids: Children, ghost withDeps: set<Node>) returns (violated: bool)
    requires Linked(kids) && n in kids && Dependents(kids, withDeps)
    requires n.kind == Pipeline ==> PrivateScan(kids[n], withDeps) != Hangs
    ensures violated <==> n.kind == Pipeline && PrivateScan(kids[n], withDeps) == Violated
  {
    if n.kind != Pipeline {
      return false;
    }
    ghost var s, i := kids[n], 0;
    var child := FirstOf(n, kids);
    if child != null && child.kind == Private {
      return false;
    }
    assert s[0..] == s;
    while child != null
      invariant 0 <= i <= |s| && child == if i < |s| then s[i] else null
      invariant ScanStages(s[i..], withDeps) == PrivateScan(s, withDeps)
      decreases |s| - i
    {
      ScanNext(s, i, withDeps);
      ListedNodes(LinksOf(kids.Keys), kids, n);
      if child.kind != Stage {
        continue;
      }
      if child.dependencies != [] {
        return true;
      }
      child := NextOf(child, n, i, kids);
      i := i + 1;
    }
    return false;
  }

  lemma ScanNext(s: seq<Node>, i: nat, withDeps: set<Node>)
    requires i < |s| && ScanStages(s[i..], withDeps) != Hangs
    ensures s[i].kind == Stage && s[i] in s
    ensures ScanStages(s[i..], withDeps) == if s[i] in withDeps then Violated else ScanStages(s[i + 1..], withDeps)
  {
    assert s[i..][0] == s[i] && s[i..][1..] == s[i + 1..];
  }

  /** All nodes below `n`, parents first. */
  method PreOrderWalk(n: Node, ghost kids: Children, ghost rank: map<Node, nat>) returns (visited: seq<Node>)
    requires Linked(kids) && Ranked(kids, rank) && n in kids
    ensures visited == PreOrder(kids, rank, n)
    decreases rank[n]
  {
    ghost var i := 0;
    WalkEnds(kids, rank, n);
    visited := [n];
    var child := FirstOf(n, kids);
    while child != null
      invariant 0 <= i <= |kids[n]| && child == if i < |kids[n]| then kids[n][i] else null
      invariant visited == WalkSoFar(kids, rank, n, i)
      decreases |kids[n]| - i
    {
      WalkNext(kids, rank, n, i);
      var below := PreOrderWalk(child, kids, rank);
      visited := visited + below;
      child := NextOf(child, n, i, kids);
      i := i + 1;
    }
  }

  /** The order in which the rules are tested. */
  function RuleNumber(rule: Rule): nat {
    match rule
    case PipelineChildren => 0
    case StageParent => 1
    case PrivateMustExist => 2
  }

  /** In walking order, and at one node in the order of the rules. */
  ghost predicate Earlier(visited: seq<Node>, x: Violation, y: Violation) {
    && x.node in visited && y.node in visited
    && (Place(visited, x.node) < Place(visited, y.node) || (x.node == y.node && RuleNumber(x.rule) < RuleNumber(y.rule)))
  }

  ghost predicate InOrder(visited: seq<Node>, violations: seq<Violation>) {
    forall i, j :: 0 <= i < j < |violations| ==> Earlier(visited, violations[i], violations[j])
  }

  lemma InOrderJoin(visited: seq<Node>, a: seq<Violation>, b: seq<Violation>, k: nat)
    requires NoDup(visited) && k < |visited| && InOrder(visited, a)
    requires forall x :: x in a ==> x.node in visited[..k]
    requires forall x :: x in b ==> x.node == visited[k]
    requires forall i, j :: 0 <= i < j < |b| ==> RuleNumber(b[i].rule) < RuleNumber(b[j].rule)
    ensures InOrder(visited, a + b)
  {
    NoDupPlace(visited, k);
    forall i, j | 0 <= i < j < |a + b| ensures Earlier(visited, (a + b)[i], (a + b)[j]) {
      if j < |a| {
        assert Earlier(visited, a[i], a[j]);
      } else {
        assert b[j - |a|] in b;
        if i < |a| {
          assert a[i] in a;
          var p :| 0 <= p < k && visited[p] == a[i].node;
          NoDupPlace(visited, p);
        } else {
          assert b[i - |a|] in b;
        }
      }
    }
  }

  /** The rules broken at `n`, in the order in which they are tested. */
  method RulesBrokenAt(n: Node, ghost kids: Children, ghost withDeps: set<Node>) returns (broken: seq<Violation>)
    requires Linked(kids) && n in kids && (n.kind == Stage ==> n.parent != null) && Dependents(kids, withDeps)
    requires n.kind == Pipeline ==> PrivateScan(kids[n], withDeps) != Hangs
    ensures forall x :: x in broken <==> x.node == n && Violates(kids, withDeps, x.rule, n)
    ensures forall i, j :: 0 <= i < j < |broken| ==> RuleNumber(broken[i].rule) < RuleNumber(broken[j].rule)
  {
    broken := [];
    var b := PipelineChildrenViolated(n, kids);
    if b {
      broken := broken + [Violation(PipelineChildren, n)];
    }
    b := StageParentViolated(n, kids);
    if b {
      broken := broken + [Violation(StageParent, n)];
    }
    b := PrivateMustExistViolated(n, kids, withDeps);
    if b {
      broken := broken + [Violation(PrivateMustExist, n)];
    }
  }

  /** The violations at the listed nodes, in the order of the list. */
  method ViolationsAmong(visited: seq<Node>, ghost kids: Children, ghost withDeps: set<Node>)
    returns (violations: seq<Violation>)
    requires Linked(kids) && Dependents(kids, withDeps) && forall n :: n in visited ==> Checkable(n, kids, withDeps)
    requires NoDup(visited)
    ensures forall x :: x in violations <==> x.node in visited && x.node in kids && Violates(kids, withDeps, x.rule, x.node)
    ensures InOrder(visited, violations)
  {
    violations := [];
    var i := 0;
    while i < |visited|
      invariant i <= |visited|
      invariant forall x :: x in violations <==>
        x.node in visited[..i] && x.node in kids && Violates(kids, withDeps, x.rule, x.node)
      invariant InOrder(visited, violations)
    {
      assert visited[i] in visited;
      var broken := RulesBrokenAt(visited[i], kids, withDeps);
      InOrderJoin(visited, violations, broken, i);
      violations := violations + broken;
      assert visited[..i + 1] == visited[..i] + [visited[i]];
      i := i + 1;
    }
    assert visited[..i] == visited;
  }

  /** All rules can be tested at `n`. */
  ghost predicate Checkable(n: Node, kids: Children, withDeps: set<Node>)
    reads n`parent
  {
    && n in kids && (n.kind == Stage ==> n.parent != null)
    && (n.kind == Pipeline ==> PrivateScan(kids[n], withDeps) != Hangs)
  }

  /** All violations of the tree and nothing else, in pre-order. */
  ghost predicate Listed(kids: Children, rank: map<Node, nat>, root: Node, withDeps: set<Node>, violations: seq<Violation>) {
    && Ranked(kids, rank) && root in kids && InOrder(PreOrder(kids, rank, root), violations)
    && (forall x :: x in violations ==> x.node in kids && Violates(kids, withDeps, x.rule, x.node))
    && forall n, rule :: n in kids && Violates(kids, withDeps, rule, n) ==> Violation(rule, n) in violations
  }

  /** Lists exactly the violations of the tree, in pre-order. */
  method CollectViolations(root: Node, ghost kids: Children, ghost rank: map<Node, nat>, ghost withDeps: set<Node>)
    returns (violations: seq<Violation>)
    requires Linked(kids) && Repairable(kids, rank, root, withDeps) && root.kind == Root && Dependents(kids, withDeps)
    ensures Listed(kids, rank, root, withDeps, violations)
  {
    StagesAttached(LinksOf(kids.Keys), kids, root);
    var visited := PreOrderWalk(root, kids, rank);
    WalkIsAll(kids, rank, root);
    PreOrderNoDup(kids, rank, root);
    violations := ViolationsAmong(visited, kids, withDeps);
  }

  lemma StagesAttached(l: Links, kids: Children, root: Node)
    requires Represents(l, kids) && Rooted(kids, root) && root.kind == Root
    ensures forall n :: n in kids && n.kind == Stage ==> l.parent[n] != null
  {
    forall n | n in kids && n.kind == Stage
      ensures l.parent[n] != null
    {
      assert HasParent(kids, n);
      var q :| q in kids && n in kids[q];
      ParentOf(l, kids, q, n);
    }
  }

  // ---------------------------------------------------------------------------------------------
  // Repairing violations
  // ---------------------------------------------------------------------------------------------

  /** The stages among `nodes` have different ids from `lo` up to `hi`. */
  ghost predicate StageIdsWithin(nodes: set<Node>, lo: int, hi: int) {
    && lo <= hi
    && (forall n :: n in nodes && n.kind == Stage ==> lo <= n.stageId < hi)
    && forall m, n :: m in nodes && n in nodes && m.kind == Stage && n.kind == Stage && m.stageId == n.stageId ==> m == n
  }

  /** `kids'` is `kids` after the repair of `x`, which adds the nodes `fs`. */
  ghost predicate Repaired(x: Violation, kids: Children, kids': Children, fs: seq<Node>)
    requires x.node in kids
  {
    match x.rule
    case PipelineChildren =>
      |fs| == |Groups(kids[x.node])| && NewStages(kids, fs) && kids' == WrapSome(kids, x.node, fs)
    case StageParent =>
      && |fs| == 1 && fs[0] !in kids && fs[0].kind == Pipeline
      && exists q :: q in kids && x.node in kids[q] && Stages(kids[q]) != [] && kids' == Nest(kids, q, fs[0])
    case PrivateMustExist =>
      |fs| == 1 && fs[0] !in kids && fs[0].kind == Private && kids' == AddPrivate(kids, x.node, fs[0])
  }

  lemma WrapAllImproves(
      kids: Children, rank: map<Node, nat>, root: Node, withDeps: set<Node>, orig: set<Node>, p: Node, fs: seq<Node>)
    returns (rank': map<Node, nat>)
    requires Repairable(kids, rank, root, withDeps) && orig <= kids.Keys && p in kids && p.kind == Pipeline
    requires IllegalCount(kids[p]) > 0 && |fs| == |Groups(kids[p])| && NewStages(kids, fs)
    ensures Improves(kids, rank, WrapSome(kids, p, fs), rank', root, withDeps, orig, 1)
  {
    if Groups(kids[p]) == [] {
      NoGroups(kids[p]);
    }
    rank' := WrapSomeImproves(kids, rank, root, withDeps, orig, p, fs);
  }

  lemma NestOneImproves(
      kids: Children, rank: map<Node, nat>, root: Node, withDeps: set<Node>, orig: set<Node>, x: Node, kids': Children, f: Node)
    returns (rank': map<Node, nat>)
    requires Repairable(kids, rank, root, withDeps) && orig <= kids.Keys && x in kids
    requires Violates(kids, withDeps, StageParent, x) && Repaired(Violation(StageParent, x), kids, kids', [f])
    ensures Improves(kids, rank, kids', rank', root, withDeps, orig, 1)
  {
    var q :| q in kids && x in kids[q] && Stages(kids[q]) != [] && kids' == Nest(kids, q, f);
    NestImproves(kids, rank, root, withDeps, orig, q, f);
    rank' := Spread(rank, q, f);
  }

  /** Any repair mends something and keeps the order. */
  lemma RepairedImproves(x: Violation, kids: Children, kids': Children, fs: seq<Node>,
      rank: map<Node, nat>, root: Node, withDeps: set<Node>, orig: set<Node>)
    returns (rank': map<Node, nat>)
    requires Repairable(kids, rank, root, withDeps) && orig <= kids.Keys && x.node in kids
    requires Violates(kids, withDeps, x.rule, x.node) && Repaired(x, kids, kids', fs)
    ensures Improves(kids, rank, kids', rank', root, withDeps, orig, 1)
  {
    if x.rule == PipelineChildren {
      rank' := WrapAllImproves(kids, rank, root, withDeps, orig, x.node, fs);
    } else if x.rule == StageParent {
      assert fs == [fs[0]];
      rank' := NestOneImproves(kids, rank, root, withDeps, orig, x.node, kids', fs[0]);
    } else {
      AddPrivateImproves(kids, rank, root, withDeps, orig, x.node, fs[0]);
      rank' := Spread(rank, x.node, fs[0]);
    }
  }

  lemma RepairedKeys(x: Violation, kids: Children, kids': Children, fs: seq<Node>)
    requires x.node in kids && Repaired(x, kids, kids', fs)
    ensures kids'.Keys == kids.Keys + Elems(fs) && forall f :: f in fs ==> f !in kids
  {
    if x.rule != PipelineChildren {
      assert fs == [fs[0]];
    }
  }

  /** The nodes `fs` have no dependents, and the stages among them the ids from `lo` up to `hi`. */
  ghost predicate Numbers(fs: seq<Node>, lo: int, hi: int)
    reads fs`dependencies
  {
    StageIdsWithin(Elems(fs), lo, hi) && forall f :: f in fs ==> f.dependencies == []
  }

  lemma NumberedNumbers(fs: seq<Node>, lo: int)
    requires Numbered(fs, lo)
    ensures NoDup(fs) && Numbers(fs, lo, lo + |fs|) && forall f :: f in fs ==> f.kind == Stage
  {
    forall f | f in fs
      ensures f.dependencies == [] && f.kind == Stage && f.stageId == lo + Place(fs, f)
    {
      assert f == fs[Place(fs, f)];
    }
  }

  /** Only stages that wrap children take stage numbers: the next ones, one after the other. */
  predicate InTurn(rule: Rule, fs: seq<Node>, lo: int, hi: int) {
    if rule == PipelineChildren then
      hi == lo + |fs| && forall k {:trigger fs[k]} :: 0 <= k < |fs| ==> fs[k].kind == Stage && fs[k].stageId == lo + k
    else hi == lo
  }

  method FixChildren(n: Node, nextStageId: int, ghost kids: Children, ghost withDeps: set<Node>)
    returns (nextStageId': int, ghost kids': Children, ghost fs: seq<Node>)
    requires Linked(kids) && n in kids && Violates(kids, withDeps, PipelineChildren, n) && Scannable(kids, withDeps)
    modifies kids.Keys`parent, kids.Keys`firstChild, kids.Keys`nextSibling
    ensures Linked(kids') && Repaired(Violation(PipelineChildren, n), kids, kids', fs)
    ensures InTurn(PipelineChildren, fs, nextStageId, nextStageId')
    ensures Numbers(fs, nextStageId, nextStageId') && forall f :: f in fs ==> fresh(f)
  {
    LegalComesFirst(kids[n], withDeps);
    nextStageId', kids', fs := FixPipelineChildren(n, nextStageId, kids);
    NumberedNumbers(fs, nextStageId);
  }

  method FixParent(n: Node, ghost kids: Children, ghost withDeps: set<Node>) returns (ghost kids': Children, ghost f: Node)
    requires Linked(kids) && n in kids && Violates(kids, withDeps, StageParent, n)
    modifies kids.Keys`parent, kids.Keys`firstChild, kids.Keys`nextSibling
    ensures Linked(kids') && Repaired(Violation(StageParent, n), kids, kids', [f])
    ensures fresh(f) && f.kind != Stage && f.dependencies == []
  {
    var q := Above(n, kids, withDeps);
    f, kids' := FixStageParent(n, kids);
  }

  /** Repairs one violation. */
  method FixViolation(x: Violation, nextStageId: int, ghost kids: Children, ghost withDeps: set<Node>)
    returns (nextStageId': int, ghost kids': Children, ghost fs: seq<Node>)
    requires Linked(kids) && x.node in kids && Violates(kids, withDeps, x.rule, x.node) && Scannable(kids, withDeps)
    modifies kids.Keys`parent, kids.Keys`firstChild, kids.Keys`nextSibling
    ensures Linked(kids') && Repaired(x, kids, kids', fs) && InTurn(x.rule, fs, nextStageId, nextStageId')
    ensures Numbers(fs, nextStageId, nextStageId') && forall f :: f in fs ==> fresh(f)
  {
    ghost var f;
    match x.rule {
      case PipelineChildren =>
        nextStageId', kids', fs := FixChildren(x.node, nextStageId, kids, withDeps);
      case StageParent =>
        kids', f := FixParent(x.node, kids, withDeps);
        nextStageId', fs := nextStageId, [f];
      case PrivateMustExist =>
        f, kids' := FixPrivateMustExist(x.node, kids);
        nextStageId', fs := nextStageId, [f];
    }
  }

  /** The parent of a stage that violates the rule for stages. */
  method Above(stage: Node, ghost kids: Children, ghost withDeps: set<Node>) returns (q: Node)
    requires Linked(kids) && stage in kids && Violates(kids, withDeps, StageParent, stage)
    ensures stage.parent == q && q in kids && stage in kids[q]
  {
    ghost var p :| p in kids && p.kind != Pipeline && stage in kids[p];
    ParentOf(LinksOf(kids.Keys), kids, p, stage);
    q := stage.parent;
  }

  // ---------------------------------------------------------------------------------------------
  // The whole run
  // ---------------------------------------------------------------------------------------------

  /** One past the largest stage id, and at least zero. */
  method NextStageId(root: Node, ghost kids: Children, ghost rank: map<Node, nat>) returns (next: int)
    requires Linked(kids) && Ranked(kids, rank) && Rooted(kids, root)
    ensures next >= 0 && forall n :: n in kids && n.kind == Stage ==> n.stageId < next
    ensures next > 0 ==> exists n :: n in kids && n.kind == Stage && n.stageId == next - 1
  {
    var visited := PreOrderWalk(root, kids, rank);
    WalkIsAll(kids, rank, root);
    next := 0;
    var i := 0;
    while i < |visited|
      invariant 0 <= i <= |visited| && next >= 0
      invariant forall n :: n in visited[..i] && n.kind == Stage ==> n.stageId < next
      invariant next > 0 ==> exists n :: n in kids && n.kind == Stage && n.stageId == next - 1
    {
      assert visited[i] in visited && visited[..i + 1] == visited[..i] + [visited[i]];
      if visited[i].kind == Stage && visited[i].stageId >= next {
        next := visited[i].stageId + 1;
      }
      i := i + 1;
    }
    assert visited[..i] == visited;
  }

  lemma IdsJoin(before: set<Node>, fs: seq<Node>, lo: int, mid: int, hi: int)
    requires StageIdsWithin(before, lo, mid) && StageIdsWithin(Elems(fs), mid, hi)
    ensures StageIdsWithin(before + Elems(fs), lo, hi)
  {
  }

  /** What holds after some repairs of `kids0`: the tree is well formed, no more damaged, and keeps its order. */
  ghost predicate UnderRepair(
      kids0: Children, rank0: map<Node, nat>, kids: Children, rank: map<Node, nat>, root: Node, withDeps: set<Node>,
      iterations: nat, first: int, next: int)
    requires Ranked(kids0, rank0) && root in kids0
    reads kids.Keys`dependencies
  {
    && Improves(kids0, rank0, kids, rank, root, withDeps, kids0.Keys, iterations)
    && Dependents(kids, withDeps) && StageIdsWithin(kids.Keys - kids0.Keys, first, next)
  }

  /** One more repair. */
  lemma RepairedOnce(
      kids0: Children, rank0: map<Node, nat>, kids: Children, rank: map<Node, nat>, root: Node, withDeps: set<Node>,
      iterations: nat, first: int, next: int, x: Violation, kids': Children, fs: seq<Node>, next': int)
    returns (rank': map<Node, nat>)
    requires Ranked(kids0, rank0) && root in kids0
    requires UnderRepair(kids0, rank0, kids, rank, root, withDeps, iterations, first, next) && withDeps <= kids0.Keys
    requires x.node in kids && Violates(kids, withDeps, x.rule, x.node)
    requires Repaired(x, kids, kids', fs) && Numbers(fs, next, next')
    ensures UnderRepair(kids0, rank0, kids', rank', root, withDeps, iterations + 1, first, next')
    ensures kids'.Keys == kids.Keys + Elems(fs)
    ensures TotalWeight(kids', withDeps, kids'.Keys) < TotalWeight(kids, withDeps, kids.Keys)
  {
    rank' := RepairedImproves(x, kids, kids', fs, rank, root, withDeps, kids0.Keys);
    RepairedKeys(x, kids, kids', fs);
    ImprovesTwice(kids0, rank0, kids, rank, kids', rank', root, withDeps, kids0.Keys, iterations, 1);
    IdsJoin(kids.Keys - kids0.Keys, fs, first, next, next');
    assert kids'.Keys - kids0.Keys == (kids.Keys - kids0.Keys) + Elems(fs);
  }

  /** A tree, the violation in it that is repaired, the nodes that the repair adds, and the stage number that is next. */
  datatype Repair = Repair(kids: Children, rank: map<Node, nat>, violation: Violation, added: seq<Node>, next: int)

  /** No other violation is met before this one. */
  ghost predicate First(kids: Children, rank: map<Node, nat>, root: Node, withDeps: set<Node>, x: Violation)
    requires Ranked(kids, rank) && root in kids
  {
    && x.node in kids && Violates(kids, withDeps, x.rule, x.node)
    && forall n, rule :: n in kids && Violation(rule, n) != x && Violates(kids, withDeps, rule, n) ==>
      Earlier(PreOrder(kids, rank, root), x, Violation(rule, n))
  }

  /** The first violation is repaired, with the stage numbers that are next. */
  ghost predicate Repairs(r: Repair, root: Node, withDeps: set<Node>, kids': Children, next': int) {
    && Ranked(r.kids, r.rank) && root in r.kids && First(r.kids, r.rank, root, withDeps, r.violation)
    && Repaired(r.violation, r.kids, kids', r.added) && InTurn(r.violation.rule, r.added, r.next, next')
  }

  /** One repair after the other, from the first tree to the last. */
  ghost predicate Traced(trace: seq<Repair>, root: Node, withDeps: set<Node>, kids0: Children, first: int, kids: Children, next: int) {
    if trace == [] then kids == kids0 && next == first
    else
      var n := |trace| - 1;
      Repairs(trace[n], root, withDeps, kids, next) && Traced(trace[..n], root, withDeps, kids0, first, trace[n].kids, trace[n].next)
  }

  lemma TracedNext(trace: seq<Repair>, root: Node, withDeps: set<Node>, kids0: Children, first: int, r: Repair, kids': Children, next': int)
    requires Traced(trace, root, withDeps, kids0, first, r.kids, r.next) && Repairs(r, root, withDeps, kids', next')
    ensures Traced(trace + [r], root, withDeps, kids0, first, kids', next')
  {
    assert (trace + [r])[..|trace|] == trace;
  }

  lemma ListedIsFirst(kids: Children, rank: map<Node, nat>, root: Node, withDeps: set<Node>, violations: seq<Violation>)
    requires violations != [] && Listed(kids, rank, root, withDeps, violations)
    ensures First(kids, rank, root, withDeps, violations[0])
  {
    forall n, rule | n in kids && Violation(rule, n) != violations[0] && Violates(kids, withDeps, rule, n)
      ensures Earlier(PreOrder(kids, rank, root), violations[0], Violation(rule, n))
    {
      assert Violation(rule, n) in violations;
      var j :| 0 <= j < |violations| && violations[j] == Violation(rule, n);
    }
  }

  /** Repairs one violation and collects what is left. */
  method RepairAndCollect(x: Violation, next: int, root: Node, ghost kids0: Children, ghost rank0: map<Node, nat>,
    ghost kids: Children, ghost rank: map<Node, nat>, ghost withDeps: set<Node>, ghost iterations: nat, ghost first: int)
    returns (violations: seq<Violation>, next': int, ghost kids': Children, ghost rank': map<Node, nat>, ghost fs: seq<Node>)
    requires Ranked(kids0, rank0) && root in kids0 && root.kind == Root && withDeps <= kids0.Keys
    requires Linked(kids) && UnderRepair(kids0, rank0, kids, rank, root, withDeps, iterations, first, next)
    requires x.node in kids && Violates(kids, withDeps, x.rule, x.node)
    modifies kids.Keys`parent, kids.Keys`firstChild, kids.Keys`nextSibling
    ensures Linked(kids') && UnderRepair(kids0, rank0, kids', rank', root, withDeps, iterations + 1, first, next')
    ensures kids.Keys <= kids'.Keys && forall n :: n in kids' && n !in kids ==> fresh(n)
    ensures TotalWeight(kids', withDeps, kids'.Keys) < TotalWeight(kids, withDeps, kids.Keys)
    ensures Listed(kids', rank', root, withDeps, violations) && Repaired(x, kids, kids', fs) && InTurn(x.rule, fs, next, next')
  {
    next', kids', fs := FixViolation(x, next, kids, withDeps);
    rank' := RepairedOnce(kids0, rank0, kids, rank, root, withDeps, iterations, first, next, x, kids', fs, next');
    violations := CollectViolations(root, kids', rank', withDeps);
  }

  /** What holds after the repairs traced, with the violations listed left. */
  ghost predicate Running(kids0: Children, rank0: map<Node, nat>, kids: Children, rank: map<Node, nat>, root: Node, withDeps: set<Node>,
    first: int, next: int, trace: seq<Repair>, violations: seq<Violation>)
    requires Ranked(kids0, rank0) && root in kids0
    reads kids.Keys`dependencies
  {
    && UnderRepair(kids0, rank0, kids, rank, root, withDeps, |trace|, first, next)
    && Listed(kids, rank, root, withDeps, violations) && Traced(trace, root, withDeps, kids0, first, kids, next)
  }

  method RepairFirst(listed: seq<Violation>, next: int, root: Node, ghost kids0: Children, ghost rank0: map<Node, nat>,
    ghost kids: Children, ghost rank: map<Node, nat>, ghost withDeps: set<Node>, ghost first: int, ghost trace: seq<Repair>)
    returns (violations: seq<Violation>, next': int, ghost kids': Children, ghost rank': map<Node, nat>, ghost trace': seq<Repair>)
    requires Ranked(kids0, rank0) && root in kids0 && root.kind == Root && withDeps <= kids0.Keys && listed != []
    requires Linked(kids) && Running(kids0, rank0, kids, rank, root, withDeps, first, next, trace, listed)
    modifies kids.Keys`parent, kids.Keys`firstChild, kids.Keys`nextSibling
    ensures |trace'| == |trace| + 1
    ensures Linked(kids') && Running(kids0, rank0, kids', rank', root, withDeps, first, next', trace', violations)
    ensures kids.Keys <= kids'.Keys && forall n :: n in kids' && n !in kids ==> fresh(n)
    ensures TotalWeight(kids', withDeps, kids'.Keys) < TotalWeight(kids, withDeps, kids.Keys)
  {
    ghost var fs;
    ListedIsFirst(kids, rank, root, withDeps, listed);
    violations, next', kids', rank', fs := RepairAndCollect(
      listed[0], next, root, kids0, rank0, kids, rank, withDeps, |trace|, first);
    trace' := trace + [Repair(kids, rank, listed[0], fs, next)];
    TracedNext(trace, root, withDeps, kids0, first, Repair(kids, rank, listed[0], fs, next), kids', next');
  }

  /** Repairs the first violation again and again. */
  method RepairAll(listed: seq<Violation>, firstNext: int, root: Node, ghost kids0: Children, ghost rank0: map<Node, nat>, ghost withDeps: set<Node>)
    returns (iterations: nat, ghost kids: Children, ghost rank: map<Node, nat>, ghost next': int, ghost trace: seq<Repair>)
    requires Ranked(kids0, rank0) && root in kids0 && root.kind == Root && withDeps <= kids0.Keys
    requires Linked(kids0) && Running(kids0, rank0, kids0, rank0, root, withDeps, firstNext, firstNext, [], listed)
    modifies kids0.Keys`parent, kids0.Keys`firstChild, kids0.Keys`nextSibling
    ensures Linked(kids) && |trace| == iterations && Running(kids0, rank0, kids, rank, root, withDeps, firstNext, next', trace, [])
    ensures forall n :: n in kids && n !in kids0 ==> fresh(n)
  {
    kids, rank, iterations, trace := kids0, rank0, 0, [];
    var next, violations := firstNext, listed;
    while violations != []
      invariant Linked(kids) && |trace| == iterations
      invariant Running(kids0, rank0, kids, rank, root, withDeps, firstNext, next, trace, violations)
      invariant forall n :: n in kids && n !in kids0 ==> fresh(n)
      decreases TotalWeight(kids, withDeps, kids.Keys)
    {
      violations, next, kids, rank, trace := RepairFirst(violations, next, root, kids0, rank0, kids, rank, withDeps, firstNext, trace);
      iterations := iterations + 1;
    }
    next' := next;
  }

  /**
   * Repairs the first violation again and again until none is left. `trace` are the repairs in their order:
   * each is that of the first violation in pre-order, at one node of the first rule, and new stages take
   * their numbers in turn.
   */
  method FindAndFixViolations(root: Node, ghost kids0: Children, ghost rank0: map<Node, nat>, ghost withDeps: set<Node>)
    returns (iterations: nat, ghost kids: Children, ghost rank: map<Node, nat>, ghost first: int, ghost next': int, ghost trace: seq<Repair>)
    requires Linked(kids0) && Repairable(kids0, rank0, root, withDeps) && root.kind == Root
    requires Dependents(kids0, withDeps) && withDeps <= kids0.Keys
    modifies kids0.Keys`parent, kids0.Keys`firstChild, kids0.Keys`nextSibling
    ensures Linked(kids) && UnderRepair(kids0, rank0, kids, rank, root, withDeps, iterations, first, next')
    ensures NoViolation(kids, withDeps) && RulesHold(kids, withDeps)
    ensures |trace| == iterations && Traced(trace, root, withDeps, kids0, first, kids, next')
    ensures forall n :: n in kids0 && n.kind == Stage ==> n.stageId < first
    ensures first == 0 || exists n :: n in kids0 && n.kind == Stage && n.stageId == first - 1
    ensures forall n :: n in kids && n !in kids0 ==> fresh(n)
  {
    var next := NextStageId(root, kids0, rank0);
    first := next;
    var violations := CollectViolations(root, kids0, rank0, withDeps);
    iterations, kids, rank, next', trace := RepairAll(violations, next, root, kids0, rank0, withDeps);
    NoneListed(kids, rank, root, withDeps);
    NoViolationIsLegal(kids, withDeps);
  }

  lemma NoViolationIsLegal(kids: Children, withDeps: set<Node>)
    requires Scannable(kids, withDeps) && NoViolation(kids, withDeps)
    ensures RulesHold(kids, withDeps)
  {
    forall n | n in kids ensures RulesHoldAt(n, kids[n], withDeps) {
      NoWeightIffRules(n, kids[n], withDeps);
    }
  }

  lemma NoneListed(kids: Children, rank: map<Node, nat>, root: Node, withDeps: set<Node>)
    requires Shape(kids) && Listed(kids, rank, root, withDeps, [])
    ensures NoViolation(kids, withDeps)
  {
    forall n, rule | n in kids ensures !Violates(kids, withDeps, rule, n) {
      assert Violation(rule, n) !in [];
    }
    NothingViolated(kids, withDeps);
  }
}
