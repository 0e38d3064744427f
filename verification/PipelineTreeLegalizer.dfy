/**
 * The repairs carried out on linked nodes, and the loop that repairs one violation at a time until
 * none is left.
 */
module PipelineTreeLegalizer {
  import opened Sequences
  import opened OperationTree
  import opened TreeShape
  import opened LegalizerRules
  import opened IllegalGroups

  // ---------------------------------------------------------------------------------------------
  // Repairs on linked nodes
  // ---------------------------------------------------------------------------------------------

  /** Makes a node that is not attached yet. */
  method CreateNode(kind: Kind, stageId: int, ghost kids: Children) returns (n: Node, ghost kids': Children)
    requires Linked(kids)
    ensures fresh(n) && n !in kids && n.kind == kind && n.stageId == stageId && n.dependencies == []
    ensures n.parent == null && kids' == kids[n := []] && Linked(kids')
  {
    n := new Node(kind, stageId);
    FreshNode(LinksOf(kids.Keys), kids, n);
    kids' := kids[n := []];
  }

  /** Takes `c`, at place `k` below `from`, and appends it to the children of `to`. */
  method MoveLast(c: Node, from: Node, to: Node, ghost k: nat, ghost kids: Children) returns (ghost kids': Children)
    requires Linked(kids) && from in kids && to in kids && from != to && c != to
    requires k < |kids[from]| && kids[from][k] == c
    modifies kids.Keys`parent, kids.Keys`firstChild, kids.Keys`nextSibling
    ensures Linked(kids')
    ensures kids' == Regrouped(kids, from, Remove(kids[from], k), to, kids[to] + [c])
  {
    ChildFacts(LinksOf(kids.Keys), kids, from, k);
    ghost var kids1 := c.Unlink(kids);
    assert kids1.Keys == kids.Keys;
    ListedNodes(LinksOf(kids1.Keys), kids1, to);
    InsertLast(kids[to], c);
    kids' := to.InsertChildNode(c, null, kids1);
  }

  /** Moves the run of children of `p` that begins at place `a` into the empty node `f`. */
  method MoveRun(p: Node, f: Node, group: seq<Node>, ghost a: nat, ghost kids: Children) returns (ghost kids': Children)
    requires Linked(kids) && p in kids && f in kids && f != p && kids[f] == [] && f !in group
    requires a + |group| <= |kids[p]| && kids[p][a..a + |group|] == group
    modifies kids.Keys`parent, kids.Keys`firstChild, kids.Keys`nextSibling
    ensures Linked(kids')
    ensures kids' == RunMoved(kids, p, f, a, group, |group|)
  {
    RunStart(kids, p, f, a, group);
    kids' := kids;
    var i := 0;
    while i < |group|
      invariant i <= |group| && Linked(kids') && kids' == RunMoved(kids, p, f, a, group, i)
    {
      RunStep(kids, p, f, a, group, i);
      kids' := MoveLast(group[i], p, f, a, kids');
      i := i + 1;
    }
  }

  /** Moves a run of children of `p` into a new stage that takes their place. */
  method WrapGroup(p: Node, group: seq<Node>, stageId: int, ghost a: nat, ghost kids: Children)
    returns (f: Node, ghost kids': Children)
    requires Linked(kids) && p in kids && group != []
    requires 0 < a && a + |group| <= |kids[p]| && kids[p][a..a + |group|] == group
    modifies kids.Keys`parent, kids.Keys`firstChild, kids.Keys`nextSibling
    ensures fresh(f) && f !in kids && f.kind == Stage && f.stageId == stageId && f.dependencies == []
    ensures Linked(kids') && kids' == Wrap(kids, p, a, a + |group|, f)
  {
    LinksGiveShape(LinksOf(kids.Keys), kids);
    ghost var kids0;
    f, kids0 := CreateNode(Stage, stageId, kids);
    kids' := PutAround(p, f, group, a, kids, kids0);
  }

  /** Moves the run into the unattached node `f` and puts `f` where the run was. */
  method PutAround(p: Node, f: Node, group: seq<Node>, ghost a: nat, ghost kids: Children, ghost kids0: Children)
    returns (ghost kids': Children)
    requires Shape(kids) && p in kids && group != [] && f !in kids && kids0 == kids[f := []] && Linked(kids0)
    requires 0 < a && a + |group| <= |kids[p]| && kids[p][a..a + |group|] == group
    modifies kids0.Keys`parent, kids0.Keys`firstChild, kids0.Keys`nextSibling
    ensures Linked(kids') && kids' == Wrap(kids, p, a, a + |group|, f)
  {
    WrapFacts(LinksOf(kids0.Keys), kids0, p, group, a);
    var insertBefore := group[0].GetPrevSibling(kids0);
    ghost var kids1 := MoveRun(p, f, group, a, kids0);
    RunEnd(kids, p, f, a, group);
    NoParent(LinksOf(kids1.Keys), kids1, f);
    ListedNodes(LinksOf(kids1.Keys), kids1, p);
    kids' := p.InsertChildNode(f, insertBefore, kids1);
  }

  lemma WrapFacts(l: Links, kids: Children, p: Node, group: seq<Node>, a: nat)
    requires Represents(l, kids) && p in kids && group != [] && 0 < a
    requires a + |group| <= |kids[p]| && kids[p][a..a + |group|] == group
    ensures group[0] in kids && l.parent[group[0]] == p && Place(kids[p], group[0]) == a
    ensures forall c :: c in group ==> c in kids[p]
  {
    assert group[0] == kids[p][a];
    ChildFacts(l, kids, p, a);
  }

  /** The first `i` of the run of children of `p` that begins at place `a` have moved to `f`. */
  ghost function RunMoved(kids: Children, p: Node, f: Node, a: nat, group: seq<Node>, i: nat): (kids': Children)
    requires p in kids && f in kids && i <= |group| && a + |group| <= |kids[p]|
    ensures kids'.Keys == kids.Keys
  {
    Regrouped(kids, p, kids[p][..a] + kids[p][a + i..], f, group[..i])
  }

  lemma RunStart(kids: Children, p: Node, f: Node, a: nat, group: seq<Node>)
    requires p in kids && f in kids && f != p && kids[f] == [] && a + |group| <= |kids[p]|
    ensures kids == RunMoved(kids, p, f, a, group, 0)
  {
    assert kids[p][..a] + kids[p][a + 0..] == kids[p];
  }

  lemma RunStep(kids: Children, p: Node, f: Node, a: nat, group: seq<Node>, i: nat)
    requires p in kids && f in kids && f != p && i < |group| && a + |group| <= |kids[p]|
    requires kids[p][a..a + |group|] == group
    ensures var kids', t := RunMoved(kids, p, f, a, group, i), RunMoved(kids, p, f, a, group, i)[p];
      && a < |t| && t[a] == group[i]
      && Regrouped(kids', p, Remove(t, a), f, kids'[f] + [group[i]]) == RunMoved(kids, p, f, a, group, i + 1)
  {
    var s := kids[p];
    assert s[a + i] == s[a..a + |group|][i];
    assert Remove(s[..a] + s[a + i..], a) == s[..a] + s[a + i + 1..];
    assert group[..i] + [group[i]] == group[..i + 1];
  }

  /** What is left to do once the whole run has moved to the fresh node `f`. */
  lemma RunEnd(kids: Children, p: Node, f: Node, a: nat, group: seq<Node>)
    requires Shape(kids) && p in kids && f !in kids && group != [] && 0 < a
    requires a + |group| <= |kids[p]| && kids[p][a..a + |group|] == group
    ensures var kids', prev := RunMoved(kids[f := []], p, f, a, group, |group|), kids[p][a - 1];
      && (forall n :: n in kids' ==> f !in kids'[n])
      && prev in kids'[p]
      && kids'[p := Insert(kids'[p], InsertPlace(kids'[p], prev), f)] == Wrap(kids, p, a, a + |group|, f)
  {
    var s := kids[p];
    InsertAfter(s, a, a + |group|, f);
    assert group[..|group|] == group;
    forall c | c in group
      ensures c in s
    {
      assert c == s[a + Place(group, c)];
    }
  }

  lemma InsertLast(s: seq<Node>, c: Node)
    ensures Insert(s, |s|, c) == s + [c]
  {
  }

  lemma InsertAfter(s: seq<Node>, a: nat, b: nat, f: Node)
    requires NoDup(s) && 0 < a <= b <= |s|
    ensures var t := s[..a] + s[b..];
      s[a - 1] in t && Insert(t, InsertPlace(t, s[a - 1]), f) == WrappedList(s, a, b, f)
  {
    var t := s[..a] + s[b..];
    assert t[a - 1] == s[a - 1];
    forall j | 0 <= j < a - 1
      ensures t[j] != t[a - 1]
    {
      assert t[j] == s[j];
    }
    FirstPlace(t, a - 1);
  }

  lemma {:induction false} FirstPlace(s: seq<Node>, i: nat)
    requires i < |s| && forall j :: 0 <= j < i ==> s[j] != s[i]
    ensures Place(s, s[i]) == i
  {
    if i > 0 {
      FirstPlace(s[1..], i - 1);
    }
  }

  lemma NoParent(l: Links, kids: Children, c: Node)
    requires Represents(l, kids) && c in kids && forall n :: n in kids ==> c !in kids[n]
    ensures l.parent[c] == null
  {
    assert Anchored(l, kids, c);
  }

  lemma FreshNode(l: Links, kids: Children, n: Node)
    requires Represents(l, kids) && l == LinksOf(kids.Keys) && n !in kids
    requires n.parent == null && n.firstChild == null && n.nextSibling == null
    ensures Linked(kids[n := []])
  {
    var kids' := kids[n := []];
    var l' := LinksOf(kids'.Keys);
    forall m | m in kids'
      ensures SpellsOut(l', kids'.Keys, m, kids'[m]) && Anchored(l', kids', m)
    {
      if m != n {
        assert SpellsOut(l, kids.Keys, m, kids[m]);
        assert Anchored(l, kids, m);
      }
    }
  }

  // ---------------------------------------------------------------------------------------------
  // Rule by rule
  // ---------------------------------------------------------------------------------------------

  /** The groups of illegal children, read off the links. */
  method CollectGroups(p: Node, ghost kids: Children) returns (groups: seq<seq<Node>>)
    requires Linked(kids) && p in kids
    ensures groups == Groups(kids[p])
  {
    ghost var s, i := kids[p], 0;
    var current: seq<Node> := [];
    groups := [];
    CollectStart(s);
    var child := FirstOf(p, kids);
    while child != null
      invariant 0 <= i <= |s| && child == if i < |s| then s[i] else null
      invariant Collecting(s, groups, current, i)
      decreases |s| - i
    {
      CollectStep(s, groups, current, i);
      groups, current := AddChild(child, groups, current);
      child := NextOf(child, p, i, kids);
      i := i + 1;
    }
    CollectEnd(s, groups, current);
    if current != [] {
      groups := groups + [current];
    }
  }

  /** An illegal child joins the group being read; a legal one closes it. */
  method AddChild(child: Node, groups: seq<seq<Node>>, current: seq<Node>)
    returns (groups': seq<seq<Node>>, current': seq<Node>)
    ensures groups' == if LegalInPipeline(child) then Closed(groups, current) else groups
    ensures current' == if LegalInPipeline(child) then [] else current + [child]
  {
    groups', current' := groups, current;
    if !LegalInPipeline(child) {
      current' := current + [child];
    } else if current != [] {
      groups', current' := groups + [current], [];
    }
  }

  /** The list begins with a legal child, so that every group has a sibling before it. */
  ghost predicate LegalFirst(kids: Children, p: Node) {
    p in kids && kids[p] != [] && LegalInPipeline(kids[p][0])
  }

  /** Wraps the first group. */
  method WrapFirstGroup(p: Node, group: seq<Node>, stageId: int, ghost kids: Children) returns (f: Node, ghost kids': Children)
    requires Linked(kids) && LegalFirst(kids, p) && Groups(kids[p]) != [] && Groups(kids[p])[0] == group
    modifies kids.Keys`parent, kids.Keys`firstChild, kids.Keys`nextSibling
    ensures fresh(f) && f !in kids && f.kind == Stage && f.stageId == stageId && f.dependencies == []
    ensures Linked(kids') && kids' == WrapFirst(kids, p, f)
    ensures LegalFirst(kids', p) && Groups(kids'[p]) == Groups(kids[p])[1..]
  {
    FirstRun(kids[p]);
    f, kids' := WrapGroup(p, group, stageId, FirstIllegal(kids[p]), kids);
    WrappedFirstGroups(kids[p], f);
  }

  /** New stages with consecutive ids and without dependents. */
  ghost predicate Numbered(fs: seq<Node>, lo: int)
    reads fs`dependencies
  {
    forall i {:trigger fs[i]} :: 0 <= i < |fs| ==> fs[i].kind == Stage && fs[i].stageId == lo + i && fs[i].dependencies == []
  }

  lemma NumberedNext(fs: seq<Node>, lo: int, f: Node)
    requires Numbered(fs, lo) && f.kind == Stage && f.stageId == lo + |fs| && f.dependencies == []
    ensures Numbered(fs + [f], lo)
  {
  }

  /** The first groups of illegal children of `p` are below the stages `fs`, and `groups` are left. */
  ghost predicate Wrapping(kids: Children, kids': Children, p: Node, fs: seq<Node>, lo: int, groups: seq<seq<Node>>)
    requires p in kids
    reads fs`dependencies
  {
    && kids' == WrapSome(kids, p, fs) && Numbered(fs, lo)
    && LegalFirst(kids', p) && Groups(kids'[p]) == groups
  }

  /** Wraps the next group; `fs` are the stages made for the groups before it. */
  method WrapNextGroup(p: Node, group: seq<Node>, stageId: int, ghost fs: seq<Node>, ghost lo: int,
    ghost groups: seq<seq<Node>>, ghost kids: Children, ghost kids1: Children)
    returns (f: Node, ghost kids': Children)
    requires p in kids && Linked(kids1) && Wrapping(kids, kids1, p, fs, lo, groups)
    requires groups != [] && group == groups[0] && stageId == lo + |fs|
    modifies kids1.Keys`parent, kids1.Keys`firstChild, kids1.Keys`nextSibling
    ensures fresh(f) && f !in kids1
    ensures Linked(kids') && Wrapping(kids, kids', p, fs + [f], lo, groups[1..])
  {
    f, kids' := WrapFirstGroup(p, group, stageId, kids1);
    WrapSomeNext(kids, p, fs, f);
    NumberedNext(fs, lo, f);
  }

  /** Wraps every group of illegal children of the pipeline `p` in a new stage. */
  method FixPipelineChildren(p: Node, nextStageId: int, ghost kids: Children)
    returns (nextStageId': int, ghost kids': Children, ghost fs: seq<Node>)
    requires Linked(kids) && LegalFirst(kids, p)
    modifies kids.Keys`parent, kids.Keys`firstChild, kids.Keys`nextSibling
    ensures forall f :: f in fs ==> f !in kids && fresh(f)
    ensures |fs| == |Groups(kids[p])| && Numbered(fs, nextStageId)
    ensures Linked(kids') && kids' == WrapSome(kids, p, fs)
    ensures IllegalCount(kids'[p]) == 0
    ensures nextStageId' == nextStageId + |fs|
  {
    var groups := CollectGroups(p, kids);
    kids', fs := kids, [];
    var j := 0;
    while j < |groups|
      invariant forall f :: f in fs ==> f !in kids && fresh(f)
      invariant 0 <= j == |fs| <= |groups|
      invariant Linked(kids') && Wrapping(kids, kids', p, fs, nextStageId, groups[j..])
    {
      var f;
      f, kids' := WrapNextGroup(p, groups[j], nextStageId + j, fs, nextStageId, groups[j..], kids, kids');
      fs := fs + [f];
      j := j + 1;
    }
    nextStageId' := nextStageId + j;
    NoGroups(kids'[p]);
  }

  // ---------------------------------------------------------------------------------------------
  // A stage below a node that is no pipeline
  // ---------------------------------------------------------------------------------------------

  /** Taking out the first stage keeps the other stages and all nodes that are no stages. */
  lemma {:induction false} DropLead(t: seq<Node>)
    requires Stages(t) != []
    ensures Lead(t) < |t| && t[Lead(t)] == Stages(t)[0]
    ensures Stages(Remove(t, Lead(t))) == Stages(t)[1..] && Others(Remove(t, Lead(t))) == Others(t)
  {
    if t[0].kind == Stage {
      assert Remove(t, 0) == t[1..];
    } else {
      DropLead(t[1..]);
      assert Remove(t, Lead(t)) == [t[0]] + Remove(t[1..], Lead(t[1..]));
    }
  }

  /** Where the new pipeline goes: before the first stage, or last when a stage comes first. */
  ghost function PipelinePlace(s: seq<Node>): (k: nat)
    ensures k <= |s|
  {
    if Lead(s) == 0 then |s| else Lead(s)
  }

  /** The new pipeline among the nodes that are no stages. */
  lemma OthersWithPipeline(s: seq<Node>, f: Node)
    requires Stages(s) != [] && f.kind == Pipeline
    ensures Others(Insert(s, PipelinePlace(s), f)) == NestedList(s, f)
  {
    var k := PipelinePlace(s);
    OthersJoin(s[..k], [f]);
    OthersJoin(s[..k] + [f], s[k..]);
    OthersAround(s, k);
  }

  lemma OthersAround(s: seq<Node>, k: nat)
    requires Stages(s) != [] && k == PipelinePlace(s)
    ensures Others(s[..k]) == Others(s)[..NestPlace(s)] && Others(s[k..]) == Others(s)[NestPlace(s)..]
  {
    LeadFacts(s);
    LeadStage(s);
    assert s == s[..k] + s[k..];
    OthersJoin(s[..k], s[k..]);
    if Lead(s) > 0 {
      NoStages(s[..k]);
    }
  }

  lemma StagesWithPipeline(s: seq<Node>, k: nat, f: Node)
    requires k <= |s| && f.kind == Pipeline
    ensures Stages(Insert(s, k, f)) == Stages(s)
  {
    assert s == s[..k] + s[k..];
    StagesJoin(s[..k], s[k..]);
    StagesJoin(s[..k], [f]);
    StagesJoin(s[..k] + [f], s[k..]);
  }

  /** The stages among the children of `q`, read off the links. */
  method CollectStages(q: Node, ghost kids: Children) returns (stages: seq<Node>)
    requires Linked(kids) && q in kids
    ensures stages == Stages(kids[q])
  {
    ghost var s, i := kids[q], 0;
    stages := [];
    var child := FirstOf(q, kids);
    assert s[..0] == [];
    while child != null
      invariant 0 <= i <= |s| && child == if i < |s| then s[i] else null
      invariant stages == Stages(s[..i])
      decreases |s| - i
    {
      StagesNext(s, i);
      stages := AddStage(child, stages);
      child := NextOf(child, q, i, kids);
      i := i + 1;
    }
    assert s[..i] == s;
  }

  method AddStage(child: Node, stages: seq<Node>) returns (stages': seq<Node>)
    ensures stages' == stages + if child.kind == Stage then [child] else []
  {
    stages' := stages;
    if child.kind == Stage {
      stages' := stages + [child];
    }
  }

  lemma StagesNext(s: seq<Node>, i: nat)
    requires i < |s|
    ensures Stages(s[..i + 1]) == Stages(s[..i]) + if s[i].kind == Stage then [s[i]] else []
  {
    assert s[..i + 1] == s[..i] + [s[i]];
    StagesJoin(s[..i], [s[i]]);
  }

  /** Moves the stages among the children of `q` into the new pipeline `f`. */
  method MoveStages(q: Node, f: Node, stages: seq<Node>, ghost kids: Children) returns (ghost kids': Children)
    requires Linked(kids) && q in kids && f in kids && f != q && kids[f] == [] && f.kind == Pipeline
    requires stages == Stages(kids[q])
    modifies kids.Keys`parent, kids.Keys`firstChild, kids.Keys`nextSibling
    ensures Linked(kids') && kids' == Regrouped(kids, q, Others(kids[q]), f, stages)
  {
    kids' := kids;
    ghost var t := kids[q];
    var i := 0;
    while i < |stages|
      invariant i <= |stages| && Linked(kids') && kids' == Regrouped(kids, q, t, f, stages[..i])
      invariant Stages(t) == stages[i..] && Others(t) == Others(kids[q])
    {
      NextStage(t, stages, i);
      RegroupAgain(kids, q, t, f, stages[..i], Remove(t, Lead(t)), stages[..i + 1]);
      kids' := MoveLast(stages[i], q, f, Lead(t), kids');
      t := Remove(t, Lead(t));
      i := i + 1;
    }
    StagelessTail(t);
    assert stages[..i] == stages;
  }

  lemma NextStage(t: seq<Node>, stages: seq<Node>, i: nat)
    requires i < |stages| && Stages(t) == stages[i..]
    ensures Lead(t) < |t| && t[Lead(t)] == stages[i] && stages[i].kind == Stage
    ensures Stages(Remove(t, Lead(t))) == stages[i + 1..] && Others(Remove(t, Lead(t))) == Others(t)
    ensures stages[..i] + [stages[i]] == stages[..i + 1]
  {
    DropLead(t);
    LeadStage(t);
  }

  /** Moves the stages among the children of the parent of `stage` into a new pipeline nested there. */
  method FixStageParent(stage: Node, ghost kids: Children) returns (f: Node, ghost kids': Children)
    requires Linked(kids) && stage in kids && stage.kind == Stage && stage.parent != null
    modifies kids.Keys`parent, kids.Keys`firstChild, kids.Keys`nextSibling
    ensures old(stage.parent) in kids && Stages(kids[old(stage.parent)]) != []
    ensures fresh(f) && f !in kids && f.kind == Pipeline && f.dependencies == []
    ensures Linked(kids') && kids' == Nest(kids, old(stage.parent), f)
  {
    var q := stage.parent;
    StageListed(LinksOf(kids.Keys), kids, stage);
    ghost var kids0;
    f, kids0 := CreateNode(Pipeline, 0, kids);
    kids' := NestStages(q, f, kids, kids0);
  }

  /** Puts the unattached pipeline `f` below `q`, and the stages below `f`. */
  method NestStages(q: Node, f: Node, ghost kids: Children, ghost kids0: Children) returns (ghost kids': Children)
    requires q in kids && f !in kids && kids0 == kids[f := []] && Linked(kids0) && f.parent == null
    requires f.kind == Pipeline && Stages(kids[q]) != []
    modifies kids0.Keys`parent, kids0.Keys`firstChild, kids0.Keys`nextSibling
    ensures Linked(kids') && kids' == Nest(kids, q, f)
  {
    ghost var s := kids[q];
    var stages := CollectStages(q, kids0);
    DropLead(s);
    PlaceBefore(LinksOf(kids0.Keys), kids0, q, Lead(s));
    ListedNodes(LinksOf(kids0.Keys), kids0, q);
    var insertBefore := stages[0].GetPrevSibling(kids0);
    ghost var kids1 := q.InsertChildNode(f, insertBefore, kids0);
    PipelineAdded(kids, q, f);
    kids' := MoveStages(q, f, stages, kids1);
  }

  lemma PipelineAdded(kids: Children, q: Node, f: Node)
    requires q in kids && f !in kids && f.kind == Pipeline && Stages(kids[q]) != []
    ensures var kids1 := kids[f := []][q := Insert(kids[q], PipelinePlace(kids[q]), f)];
      && Stages(kids1[q]) == Stages(kids[q])
      && Regrouped(kids1, q, Others(kids1[q]), f, Stages(kids[q])) == Nest(kids, q, f)
  {
    StagesWithPipeline(kids[q], PipelinePlace(kids[q]), f);
    OthersWithPipeline(kids[q], f);
  }

  lemma RegroupAgain(kids: Children, q: Node, t: seq<Node>, f: Node, v: seq<Node>, t': seq<Node>, v': seq<Node>)
    requires q in kids && f in kids && q != f
    ensures Regrouped(Regrouped(kids, q, t, f, v), q, t', f, v') == Regrouped(kids, q, t', f, v')
    ensures Regrouped(kids, q, t, f, v)[q] == t && Regrouped(kids, q, t, f, v)[f] == v
  {
  }

  lemma StageListed(l: Links, kids: Children, stage: Node)
    requires Represents(l, kids) && stage in kids && stage.kind == Stage && l.parent[stage] != null
    ensures l.parent[stage] in kids && Stages(kids[l.parent[stage]]) != []
  {
    assert Anchored(l, kids, stage);
    SplitFacts(kids[l.parent[stage]]);
  }

  /** The child at place `k`: its parent, its place, and the place after its previous sibling. */
  lemma PlaceBefore(l: Links, kids: Children, q: Node, k: nat)
    requires Represents(l, kids) && q in kids && k < |kids[q]|
    ensures kids[q][k] in kids && l.parent[kids[q][k]] == q && Place(kids[q], kids[q][k]) == k
    ensures k > 0 ==> InsertPlace(kids[q], kids[q][k - 1]) == k
  {
    ChildFacts(l, kids, q, k);
    if k > 0 {
      ChildFacts(l, kids, q, k - 1);
    }
  }

  // ---------------------------------------------------------------------------------------------
  // A pipeline without the private node it needs
  // ---------------------------------------------------------------------------------------------

  /** Gives the pipeline `p` a private node as its first child. */
  method FixPrivateMustExist(p: Node, ghost kids: Children) returns (f: Node, ghost kids': Children)
    requires Linked(kids) && p in kids
    modifies kids.Keys`parent, kids.Keys`firstChild, kids.Keys`nextSibling
    ensures fresh(f) && f !in kids && f.kind == Private && f.dependencies == []
    ensures Linked(kids') && kids' == AddPrivate(kids, p, f)
  {
    ghost var kids0;
    f, kids0 := CreateNode(Private, 0, kids);
    kids' := p.InsertAsFirstChild(f, kids0);
    PrivateAdded(kids, p, f);
  }

  lemma PrivateAdded(kids: Children, p: Node, f: Node)
    requires p in kids && f !in kids
    ensures kids[f := []][p := [f] + kids[p]] == AddPrivate(kids, p, f)
  {
  }
}
