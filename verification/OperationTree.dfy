/**
 * Trees of operations kept with three links per node: parent, first child, next sibling. A stage
 * also lists the stages that depend on it.
 *
 * The ordered child lists that the links stand for are a ghost map from nodes to sequences. Every
 * operation below is proved to change that map in the way its name says.
 */
module OperationTree {
  import opened Sequences

  datatype Kind = Root | Loop | Pipeline | Stage | Private

  /** The ordered children of every node of a forest. */
  type Children = map<Node, seq<Node>>

  class Node {
    const kind: Kind
    const stageId: int
    var parent: Node?
    var firstChild: Node?
    var nextSibling: Node?
    var dependencies: seq<Node?>

    constructor (kind: Kind, stageId: int)
      ensures this.kind == kind && this.stageId == stageId && dependencies == []
      ensures parent == null && firstChild == null && nextSibling == null
    {
      this.kind, this.stageId, dependencies := kind, stageId, [];
      parent, firstChild, nextSibling := null, null, null;
    }

    /** The last child, found by following sibling links. */
    method GetLastChild(ghost kids: Children) returns (child: Node?)
      requires Linked(kids) && this in kids
      ensures child == if kids[this] == [] then null else kids[this][|kids[this]| - 1]
    {
      child := firstChild;
      ghost var l := LinksOf(kids.Keys);
      assert SpellsOut(l, kids.Keys, this, kids[this]);
      if child == null {
        return;
      }
      ghost var i := 0;
      while child.nextSibling != null
        invariant 0 <= i < |kids[this]| && child == kids[this][i]
        decreases |kids[this]| - i
      {
        ChildFacts(l, kids, this, i);
        child := child.nextSibling;
        i := i + 1;
      }
      ChildFacts(l, kids, this, i);
    }

    /** The sibling before this node, if any. */
    method GetPrevSibling(ghost kids: Children) returns (prev: Node?)
      requires Linked(kids) && this in kids && parent != null
      ensures parent in kids && this in kids[parent]
      ensures var k := Place(kids[parent], this); prev == if k == 0 then null else kids[parent][k - 1]
    {
      ghost var l := LinksOf(kids.Keys);
      assert Anchored(l, kids, this);
      ghost var s := kids[parent];
      ghost var k := Place(s, this);
      assert SpellsOut(l, kids.Keys, parent, s);
      prev := parent.firstChild;
      if prev == this {
        NoDupPlace(s, 0);
        return null;
      }
      ghost var i := 0;
      while prev != null
        invariant 0 <= i < k && prev == s[i]
        decreases k - i
      {
        ChildFacts(l, kids, parent, i);
        if prev.nextSibling == this {
          NoDupPlace(s, i + 1);
          break;
        }
        prev := prev.nextSibling;
        i := i + 1;
      }
    }

    /** Puts `child` right after `pos`, or last when no position is given. */
    method InsertChildNode(child: Node, pos: Node?, ghost kids: Children) returns (ghost kids': Children)
      requires Linked(kids) && this in kids && child in kids
      requires child.parent == null && child != this
      requires pos != null ==> pos in kids[this]
      modifies this`firstChild, child`parent, child`nextSibling, kids[this]`nextSibling
      ensures kids' == kids[this := Insert(kids[this], InsertPlace(kids[this], pos), child)]
      ensures Linked(kids')
    {
      ghost var l, s := LinksOf(kids.Keys), kids[this];
      ghost var k := InsertPlace(s, pos);
      InsertFacts(l, kids, this, child, k);
      if firstChild == null {
        firstChild := child;
      } else if pos != null {
        var oldPosNext := pos.nextSibling;
        pos.nextSibling := child;
        child.nextSibling := oldPosNext;
      } else {
        var last := GetLastChild(kids);
        last.nextSibling := child;
      }
      child.parent := this;
      kids' := kids[this := Insert(s, k, child)];
      InsertedLinks(l, kids, this, k, child);
    }

    /** Puts `child` before all other children. */
    method InsertAsFirstChild(child: Node, ghost kids: Children) returns (ghost kids': Children)
      requires Linked(kids) && this in kids && child in kids
      requires child.parent == null && child != this
      modifies this`firstChild, child`parent, child`nextSibling
      ensures kids' == kids[this := [child] + kids[this]]
      ensures Linked(kids')
    {
      ghost var l, s := LinksOf(kids.Keys), kids[this];
      InsertFacts(l, kids, this, child, 0);
      var oldFirstChild := firstChild;
      if oldFirstChild != null {
        child.nextSibling := oldFirstChild;
      }
      firstChild := child;
      child.parent := this;
      kids' := kids[this := [child] + kids[this]];
      assert Insert(s, 0, child) == [child] + s;
      InsertedLinks(l, kids, this, 0, child);
    }

    /** Takes the subtree rooted here out of its parent's list. */
    method Unlink(ghost kids: Children) returns (ghost kids': Children)
      requires Linked(kids) && this in kids && parent != null
      modifies kids.Keys`parent, kids.Keys`firstChild, kids.Keys`nextSibling
      ensures old(parent) in kids && this in kids[old(parent)]
      ensures kids' == kids[old(parent) := Remove(kids[old(parent)], Place(kids[old(parent)], this))]
      ensures Linked(kids') && parent == null
    {
      ghost var l, p := LinksOf(kids.Keys), parent;
      assert Anchored(l, kids, this);
      ghost var k := Place(kids[p], this);
      RemoveFacts(l, kids, p, k);
      var prevSibling := GetPrevSibling(kids);
      if prevSibling != null {
        prevSibling.nextSibling := nextSibling;
      } else {
        parent.firstChild := nextSibling;
      }
      nextSibling := null;
      parent := null;
      kids' := kids[p := Remove(kids[p], k)];
      RemovedLinks(l, kids, p, k);
    }

    /** Takes out this node alone; its children take its place in the parent's list. */
    method UnlinkNode(ghost kids: Children) returns (ghost kids': Children)
      requires Linked(kids) && this in kids
      requires parent != null ==> parent != this && parent !in kids[this]
      modifies kids.Keys`parent, kids.Keys`firstChild, kids.Keys`nextSibling
      ensures old(parent) == null ==> kids' == kids
      ensures old(parent) != null ==>
        && old(parent) in kids && this in kids[old(parent)]
        && kids' == Spliced(kids, old(parent), Place(kids[old(parent)], this))
      ensures Linked(kids')
    {
      if parent == null {
        return kids;
      }
      ghost var l, p := LinksOf(kids.Keys), parent;
      assert Anchored(l, kids, this);
      ghost var k := Place(kids[p], this);
      SpliceFacts(l, kids, p, k);
      var prevSibling := GetPrevSibling(kids);
      var next := nextSibling;
      var first := firstChild;
      var last := GetLastChild(kids);
      var above := parent;
      RelinkAround(above, prevSibling, next, first, last, kids);
      firstChild, nextSibling, parent := null, null, null;
      kids' := Spliced(kids, p, k);
      SplicedLinks(l, kids, p, k);
    }

    /** Joins the neighbours of this node to its children, or to each other when it has none. */
    method RelinkAround(above: Node, prevSibling: Node?, next: Node?, first: Node?, last: Node?, ghost kids: Children)
      requires this in kids && above in kids && above !in kids[this] && NoDup(kids[this])
      requires prevSibling != null ==> prevSibling in kids && prevSibling !in kids[this]
      requires forall c :: c in kids[this] ==> c in kids
      requires first == First(kids[this]) && (kids[this] != [] ==> last == kids[this][|kids[this]| - 1])
      requires forall i {:trigger Next(kids[this], i)} :: 0 <= i < |kids[this]| ==>
        kids[this][i].nextSibling == Next(kids[this], i)
      modifies kids.Keys`parent, kids.Keys`firstChild, kids.Keys`nextSibling
      ensures forall m :: m in kids ==> m.parent == if m in kids[this] then above else old(m.parent)
      ensures var head := if kids[this] == [] then next else kids[this][0];
        && (forall m :: m in kids ==>
          m.firstChild == if prevSibling == null && m == above then head else old(m.firstChild))
        && (forall m :: m in kids ==>
          m.nextSibling == if kids[this] != [] && m == last then next
                           else if m == prevSibling then head
                           else old(m.nextSibling))
    {
      if first != null {
        ReplaceInParent(above, prevSibling, first, kids);
        forall i {:trigger Next(kids[this], i)} | 0 <= i < |kids[this]|
          ensures kids[this][i].nextSibling == Next(kids[this], i)
        {
          assert kids[this][i] in kids[this];
        }
        AdoptChildren(above, first, last, next, kids);
      } else {
        ReplaceInParent(above, prevSibling, next, kids);
      }
    }

    /** Lets the previous sibling, or the parent when there is none, point to `head`. */
    method ReplaceInParent(above: Node, prevSibling: Node?, head: Node?, ghost kids: Children)
      requires above in kids && (prevSibling != null ==> prevSibling in kids)
      modifies kids.Keys`firstChild, kids.Keys`nextSibling
      ensures forall m :: m in kids ==> m.parent == old(m.parent)
      ensures forall m :: m in kids ==> m.firstChild == if prevSibling == null && m == above then head else old(m.firstChild)
      ensures forall m :: m in kids ==> m.nextSibling == if m == prevSibling then head else old(m.nextSibling)
    {
      if prevSibling != null {
        prevSibling.nextSibling := head;
      } else {
        above.firstChild := head;
      }
    }

    /** Walks the children up to `last`, giving each the new parent and the last one the new sibling. */
    method AdoptChildren(above: Node, first: Node, last: Node?, next: Node?, ghost kids: Children)
      requires this in kids && kids[this] != [] && NoDup(kids[this]) && above !in kids[this]
      requires first == kids[this][0] && last == kids[this][|kids[this]| - 1]
      requires forall i {:trigger Next(kids[this], i)} :: 0 <= i < |kids[this]| ==>
        kids[this][i].nextSibling == Next(kids[this], i)
      modifies kids[this]`parent, kids[this]`nextSibling
      ensures forall c :: c in kids[this] ==> c.parent == above
      ensures forall c :: c in kids[this] ==> c.nextSibling == if c == last then next else old(c.nextSibling)
    {
      var child: Node? := first;
      ghost var i := 0;
      while child != null
        invariant 0 <= i < |kids[this]| && child == kids[this][i]
        invariant forall j :: 0 <= j < i ==> kids[this][j].parent == above
        invariant forall c :: c in kids[this] ==> c.nextSibling == old(c.nextSibling)
        decreases |kids[this]| - i
      {
        assert child in kids[this];
        child.parent := above;
        if child == last {
          child.nextSibling := next;
          break;
        }
        ghost var following := Next(kids[this], i);
        child := child.nextSibling;
        i := i + 1;
      }
    }

    /** Records that `target` depends on this stage. */
    method AddDependency(target: Node)
      modifies this`dependencies
      ensures dependencies == old(dependencies) + [target]
    {
      dependencies := dependencies + [target];
    }

    /** Replaces the first entry for `target`. */
    method ReplaceDependency(target: Node, replacement: Node?)
      modifies this`dependencies
      ensures dependencies == ReplaceFirst(old(dependencies), target, replacement)
    {
      ghost var before := dependencies;
      var i := 0;
      assert before[0..] == before;
      while i < |dependencies|
        invariant i <= |before| && dependencies == before
        invariant ReplaceFirst(before, target, replacement) == before[..i] + ReplaceFirst(before[i..], target, replacement)
      {
        if dependencies[i] == target {
          ReplacedHere(before, i, target, replacement);
          dependencies := dependencies[i := replacement];
          return;
        }
        PassedOver(before, i, target, replacement);
        i := i + 1;
      }
    }

    /** Blanks the first entry for `target`; blank entries are removed later. */
    method NullifyDependency(target: Node)
      modifies this`dependencies
      ensures dependencies == ReplaceFirst(old(dependencies), target, null)
    {
      ReplaceDependency(target, null);
    }

    method RemoveNullifiedDependencies()
      modifies this`dependencies
      ensures dependencies == Present(old(dependencies))
    {
      ghost var before := dependencies;
      var kept: seq<Node?> := [];
      var i := 0;
      while i < |dependencies|
        invariant i <= |dependencies| && dependencies == before && kept == Present(before[..i])
      {
        assert before[..i + 1] == before[..i] + [before[i]];
        PresentJoin(before[..i], [before[i]]);
        if dependencies[i] != null {
          kept := kept + [dependencies[i]];
        }
        i := i + 1;
      }
      assert before[..i] == before;
      dependencies := kept;
    }
  }

  function ReplaceFirst(s: seq<Node?>, target: Node, replacement: Node?): seq<Node?> {
    if s == [] then [] else if s[0] == target then [replacement] + s[1..] else [s[0]] + ReplaceFirst(s[1..], target, replacement)
  }

  lemma ReplacedHere(s: seq<Node?>, i: nat, target: Node, replacement: Node?)
    requires i < |s| && s[i] == target
    ensures s[..i] + ReplaceFirst(s[i..], target, replacement) == s[i := replacement]
  {
    assert s[i..][0] == s[i] && s[i..][1..] == s[i + 1..];
    assert s[i := replacement] == s[..i] + ([replacement] + s[i + 1..]);
  }

  lemma PassedOver(s: seq<Node?>, i: nat, target: Node, replacement: Node?)
    requires i < |s| && s[i] != target
    ensures s[..i] + ReplaceFirst(s[i..], target, replacement) == s[..i + 1] + ReplaceFirst(s[i + 1..], target, replacement)
  {
    assert s[i..][0] == s[i] && s[i..][1..] == s[i + 1..];
    assert s[..i + 1] == s[..i] + [s[i]];
  }

  function Present(s: seq<Node?>): seq<Node?> {
    if s == [] then [] else (if s[0] == null then [] else [s[0]]) + Present(s[1..])
  }

  /** Only the first entry for the target changes. */
  lemma {:induction false} ReplacesFirst(s: seq<Node?>, target: Node, replacement: Node?)
    ensures target !in s ==> ReplaceFirst(s, target, replacement) == s
    ensures target in s ==>
      exists i :: 0 <= i < |s| && s[i] == target && target !in s[..i] && ReplaceFirst(s, target, replacement) == s[i := replacement]
  {
    if s != [] && s[0] != target {
      ReplacesFirst(s[1..], target, replacement);
      assert s == [s[0]] + s[1..];
      if target in s[1..] {
        var i :| 0 <= i < |s[1..]| && s[1..][i] == target && target !in s[1..][..i]
          && ReplaceFirst(s[1..], target, replacement) == s[1..][i := replacement];
        assert s[..i + 1] == [s[0]] + s[1..][..i];
        assert s[i + 1 := replacement] == [s[0]] + s[1..][i := replacement];
      }
    } else if s != [] {
      assert s[0] == target && s[..0] == [] && s[0 := replacement] == [replacement] + s[1..];
    }
  }

  /** Every entry that is not blank comes after those before it, and blanks take no place. */
  lemma PresentInOrder(s: seq<Node?>, i: nat)
    requires i < |s|
    ensures |Present(s[..i + 1])| == |Present(s[..i])| + if s[i] == null then 0 else 1
    ensures s[i] != null ==> |Present(s[..i])| < |Present(s)| && Present(s)[|Present(s[..i])|] == s[i]
  {
    var before, rest := s[..i], s[i + 1..];
    assert s == before + ([s[i]] + rest) && s[..i + 1] == before + [s[i]];
    PresentJoin(before, [s[i]] + rest);
    PresentJoin(before, [s[i]]);
    assert ([s[i]] + rest)[0] == s[i] && [s[i]][1..] == [];
  }

  lemma {:induction false} PresentJoin(s: seq<Node?>, t: seq<Node?>)
    ensures Present(s + t) == Present(s) + Present(t)
  {
    if s == [] {
      assert s + t == t;
    } else {
      assert (s + t)[1..] == s[1..] + t;
      PresentJoin(s[1..], t);
    }
  }

  /** A snapshot of all link fields. */
  datatype Links = Links(parent: map<Node, Node?>, first: map<Node, Node?>, next: map<Node, Node?>)

  ghost function LinksOf(nodes: set<Node>): Links
    reads nodes
  {
    Links(map n | n in nodes :: n.parent, map n | n in nodes :: n.firstChild, map n | n in nodes :: n.nextSibling)
  }

  lemma SameLinks(nodes: set<Node>, l: Links)
    requires Covers(l, nodes)
    requires forall n :: n in nodes ==> n.parent == l.parent[n]
    requires forall n :: n in nodes ==> n.firstChild == l.first[n]
    requires forall n :: n in nodes ==> n.nextSibling == l.next[n]
    ensures LinksOf(nodes) == l
  {
  }

  /** The entry after place `i`. */
  ghost function Next(s: seq<Node>, i: int): Node?
    requires 0 <= i < |s|
  {
    if i + 1 < |s| then s[i + 1] else null
  }

  ghost function First(s: seq<Node>): Node? {
    if s == [] then null else s[0]
  }

  ghost predicate Covers(l: Links, nodes: set<Node>) {
    l.parent.Keys == nodes && l.first.Keys == nodes && l.next.Keys == nodes
  }

  /** The links below `n` spell out the list `s`. */
  ghost predicate SpellsOut(l: Links, nodes: set<Node>, n: Node, s: seq<Node>)
  {
    && Covers(l, nodes) && n in nodes && l.first[n] == First(s)
    && NoDup(s)
    && (forall c :: c in s ==> c in nodes && l.parent[c] == n)
    && forall i {:trigger Next(s, i)} :: 0 <= i < |s| ==> l.next[s[i]] == Next(s, i)
  }

  /** A node without parent has no sibling; one with a parent is listed among its children. */
  ghost predicate Anchored(l: Links, kids: Children, n: Node)
  {
    && Covers(l, kids.Keys) && n in kids
    && if l.parent[n] == null then l.next[n] == null else l.parent[n] in kids && n in kids[l.parent[n]]
  }

  /** The links of all nodes spell out the map. */
  ghost predicate Represents(l: Links, kids: Children) {
    && Covers(l, kids.Keys)
    && (forall n {:trigger SpellsOut(l, kids.Keys, n, kids[n])} :: n in kids ==> SpellsOut(l, kids.Keys, n, kids[n]))
    && (forall n {:trigger Anchored(l, kids, n)} :: n in kids ==> Anchored(l, kids, n))
  }

  ghost predicate Linked(kids: Children)
    reads kids.Keys
  {
    Represents(LinksOf(kids.Keys), kids)
  }

  /** The place that follows `pos`, or the end. */
  ghost function InsertPlace(s: seq<Node>, pos: Node?): (i: nat)
    requires pos != null ==> pos in s
    ensures i <= |s|
  {
    if pos == null then |s| else Place<Node>(s, pos) + 1
  }

  // ---------------------------------------------------------------------------------------------
  // Effect of link surgery on child lists
  // ---------------------------------------------------------------------------------------------

  lemma ChildFacts(l: Links, kids: Children, n: Node, i: nat)
    requires Represents(l, kids) && n in kids && i < |kids[n]|
    ensures kids[n][i] in kids && l.parent[kids[n][i]] == n
    ensures l.next[kids[n][i]] == Next(kids[n], i)
    ensures Place(kids[n], kids[n][i]) == i
  {
    assert SpellsOut(l, kids.Keys, n, kids[n]);
    var next := Next(kids[n], i);
    NoDupPlace(kids[n], i);
  }

  /** The links once `child` has been put at place `k` below `n`. */
  ghost function InsertLinks(l: Links, n: Node, s: seq<Node>, k: nat, child: Node): Links
    requires k <= |s|
  {
    var after := if k < |s| then s[k] else null;
    var next := if k > 0 then l.next[s[k - 1] := child] else l.next;
    Links(l.parent[child := n], if k > 0 then l.first else l.first[n := child], next[child := after])
  }

  lemma InsertSpellsOut(l: Links, nodes: set<Node>, n: Node, s: seq<Node>, k: nat, child: Node)
    requires Covers(l, nodes) && SpellsOut(l, nodes, n, s) && child in nodes && child !in s && k <= |s|
    ensures Covers(InsertLinks(l, n, s, k, child), nodes)
    ensures SpellsOut(InsertLinks(l, n, s, k, child), nodes, n, Insert(s, k, child))
  {
    var l', t := InsertLinks(l, n, s, k, child), Insert(s, k, child);
    forall i | 0 <= i < |t|
      ensures l'.next[t[i]] == Next(t, i)
    {
      var next := if i < k then Next(s, i) else if i > k then Next(s, i - 1) else null;
    }
  }

  lemma InsertKeepsOthers(l: Links, kids: Children, n: Node, k: nat, child: Node, m: Node)
    requires Represents(l, kids) && n in kids && child in kids && k <= |kids[n]|
    requires l.parent[child] == null && child != n && m in kids && m != n
    ensures SpellsOut(InsertLinks(l, n, kids[n], k, child), kids.Keys, m, kids[m])
  {
    assert SpellsOut(l, kids.Keys, n, kids[n]);
    assert SpellsOut(l, kids.Keys, m, kids[m]);
  }

  lemma InsertKeepsAnchors(l: Links, kids: Children, n: Node, k: nat, child: Node, m: Node)
    requires Represents(l, kids) && n in kids && child in kids && k <= |kids[n]|
    requires l.parent[child] == null && child != n && m in kids
    ensures Anchored(InsertLinks(l, n, kids[n], k, child), kids[n := Insert(kids[n], k, child)], m)
  {
    var t := Insert(kids[n], k, child);
    assert SpellsOut(l, kids.Keys, n, kids[n]);
    assert Anchored(l, kids, m);
    assert t[k] == child;
    if m in kids[n] {
      var i := Place(kids[n], m);
      assert m == t[if i < k then i else i + 1];
    }
  }

  lemma InsertRepresents(l: Links, kids: Children, n: Node, k: nat, child: Node)
    requires Represents(l, kids) && n in kids && child in kids && k <= |kids[n]|
    requires l.parent[child] == null && child != n
    ensures Represents(InsertLinks(l, n, kids[n], k, child), kids[n := Insert(kids[n], k, child)])
  {
    var l', kids' := InsertLinks(l, n, kids[n], k, child), kids[n := Insert(kids[n], k, child)];
    assert SpellsOut(l, kids.Keys, n, kids[n]);
    assert kids'.Keys == kids.Keys;
    InsertSpellsOut(l, kids.Keys, n, kids[n], k, child);
    forall m | m in kids'
      ensures SpellsOut(l', kids'.Keys, m, kids'[m])
    {
      if m != n {
        InsertKeepsOthers(l, kids, n, k, child, m);
      }
    }
    forall m | m in kids'
      ensures Anchored(l', kids', m)
    {
      InsertKeepsAnchors(l, kids, n, k, child, m);
    }
  }

  /** What the links say around place `k` of the children of `n`, and about a node without parent. */
  lemma InsertFacts(l: Links, kids: Children, n: Node, child: Node, k: nat)
    requires Represents(l, kids) && n in kids && child in kids && k <= |kids[n]|
    requires l.parent[child] == null
    ensures child !in kids[n] && l.next[child] == null
    ensures l.first[n] == First(kids[n])
    ensures k > 0 ==> kids[n][k - 1] in kids && l.next[kids[n][k - 1]] == if k < |kids[n]| then kids[n][k] else null
  {
    assert SpellsOut(l, kids.Keys, n, kids[n]);
    assert Anchored(l, kids, child);
    if k > 0 {
      ChildFacts(l, kids, n, k - 1);
    }
  }

  /** If the heap now holds the links with `child` inserted, it spells out the list with `child` inserted. */
  lemma InsertedLinks(l: Links, kids: Children, n: Node, k: nat, child: Node)
    requires Represents(l, kids) && n in kids && child in kids && k <= |kids[n]|
    requires l.parent[child] == null && child != n && child !in kids[n]
    requires forall m :: m in kids ==> m.parent == if m == child then n else l.parent[m]
    requires forall m :: m in kids ==> m.firstChild == if m == n && k == 0 then child else l.first[m]
    requires forall m :: m in kids && m != child && (k == 0 || m != kids[n][k - 1]) ==> m.nextSibling == l.next[m]
    requires child.nextSibling == if k < |kids[n]| then kids[n][k] else null
    requires k > 0 ==> kids[n][k - 1].nextSibling == child
    ensures Linked(kids[n := Insert(kids[n], k, child)])
  {
    InsertRepresents(l, kids, n, k, child);
    assert kids[n := Insert(kids[n], k, child)].Keys == kids.Keys;
    SameLinks(kids.Keys, InsertLinks(l, n, kids[n], k, child));
  }

  /** The links once the child at place `k` below `n` has been taken out. */
  ghost function RemoveLinks(l: Links, n: Node, s: seq<Node>, k: nat): Links
    requires k < |s|
  {
    var c, after := s[k], Next(s, k);
    var next := if k > 0 then l.next[s[k - 1] := after] else l.next;
    Links(l.parent[c := null], if k > 0 then l.first else l.first[n := after], next[c := null])
  }

  lemma RemoveSpellsOut(l: Links, nodes: set<Node>, n: Node, s: seq<Node>, k: nat)
    requires SpellsOut(l, nodes, n, s) && k < |s|
    ensures SpellsOut(RemoveLinks(l, n, s, k), nodes, n, Remove(s, k))
  {
    var l', t := RemoveLinks(l, n, s, k), Remove(s, k);
    var after := Next(s, k);
    forall i | 0 <= i < |t|
      ensures l'.next[t[i]] == Next(t, i)
    {
      var next := if i < k then Next(s, i) else Next(s, i + 1);
    }
    RemoveNoDup(s, k);
  }

  lemma RemoveNoDup(s: seq<Node>, k: nat)
    requires NoDup(s) && k < |s|
    ensures NoDup(Remove(s, k)) && s[k] !in Remove(s, k)
    ensures forall x :: x in Remove(s, k) <==> x in s && x != s[k]
  {
    var t := Remove(s, k);
    forall x | x in s && x != s[k]
      ensures x in t
    {
      var i := Place(s, x);
      assert x == t[if i < k then i else i - 1];
    }
  }

  lemma RemoveKeepsOthers(l: Links, kids: Children, n: Node, k: nat, m: Node)
    requires Represents(l, kids) && n in kids && k < |kids[n]| && m in kids && m != n
    ensures SpellsOut(RemoveLinks(l, n, kids[n], k), kids.Keys, m, kids[m])
  {
    assert SpellsOut(l, kids.Keys, n, kids[n]);
    assert SpellsOut(l, kids.Keys, m, kids[m]);
    assert kids[n][k] !in kids[m];
  }

  lemma RemoveKeepsAnchors(l: Links, kids: Children, n: Node, k: nat, m: Node)
    requires Represents(l, kids) && n in kids && k < |kids[n]| && m in kids
    ensures Anchored(RemoveLinks(l, n, kids[n], k), kids[n := Remove(kids[n], k)], m)
  {
    assert SpellsOut(l, kids.Keys, n, kids[n]);
    assert Anchored(l, kids, m);
    RemoveNoDup(kids[n], k);
  }

  lemma RemoveRepresents(l: Links, kids: Children, n: Node, k: nat)
    requires Represents(l, kids) && n in kids && k < |kids[n]|
    ensures Represents(RemoveLinks(l, n, kids[n], k), kids[n := Remove(kids[n], k)])
  {
    var l', kids' := RemoveLinks(l, n, kids[n], k), kids[n := Remove(kids[n], k)];
    assert SpellsOut(l, kids.Keys, n, kids[n]);
    assert kids'.Keys == kids.Keys;
    RemoveSpellsOut(l, kids.Keys, n, kids[n], k);
    forall m | m in kids'
      ensures SpellsOut(l', kids'.Keys, m, kids'[m])
    {
      if m != n {
        RemoveKeepsOthers(l, kids, n, k, m);
      }
    }
    forall m | m in kids'
      ensures Anchored(l', kids', m)
    {
      RemoveKeepsAnchors(l, kids, n, k, m);
    }
  }

  lemma RemoveFacts(l: Links, kids: Children, n: Node, k: nat)
    requires Represents(l, kids) && n in kids && k < |kids[n]|
    ensures kids[n][k] in kids && l.next[kids[n][k]] == Next(kids[n], k) && Place(kids[n], kids[n][k]) == k
    ensures k > 0 ==> kids[n][k - 1] in kids && kids[n][k - 1] != kids[n][k]
  {
    ChildFacts(l, kids, n, k);
    if k > 0 {
      ChildFacts(l, kids, n, k - 1);
    }
  }

  /** If the heap now holds the links without the child at place `k`, it spells out the shorter list. */
  lemma RemovedLinks(l: Links, kids: Children, n: Node, k: nat)
    requires Represents(l, kids) && n in kids && k < |kids[n]|
    requires forall m :: m in kids ==> m.parent == if m == kids[n][k] then null else l.parent[m]
    requires forall m :: m in kids ==> m.firstChild == if m == n && k == 0 then Next(kids[n], k) else l.first[m]
    requires forall m :: m in kids && m != kids[n][k] && (k == 0 || m != kids[n][k - 1]) ==> m.nextSibling == l.next[m]
    requires kids[n][k].nextSibling == null
    requires k > 0 ==> kids[n][k - 1].nextSibling == Next(kids[n], k)
    ensures Linked(kids[n := Remove(kids[n], k)])
  {
    RemoveRepresents(l, kids, n, k);
    assert kids[n := Remove(kids[n], k)].Keys == kids.Keys;
    SameLinks(kids.Keys, RemoveLinks(l, n, kids[n], k));
  }

  /** The child at place `k` below `n` replaced by its own children. */
  ghost function Spliced(kids: Children, n: Node, k: nat): Children
    requires n in kids && k < |kids[n]| && kids[n][k] in kids
  {
    var c := kids[n][k];
    kids[n := kids[n][..k] + kids[c] + kids[n][k + 1..]][c := []]
  }

  lemma SpliceFacts(l: Links, kids: Children, n: Node, k: nat)
    requires Represents(l, kids) && n in kids && k < |kids[n]|
    ensures var c := kids[n][k];
      && c in kids && l.next[c] == Next(kids[n], k) && Place(kids[n], c) == k
      && l.first[c] == First(kids[c]) && NoDup(kids[c])
      && (forall x :: x in kids[c] ==> x in kids)
      && forall i {:trigger Next(kids[c], i)} :: 0 <= i < |kids[c]| ==> l.next[kids[c][i]] == Next(kids[c], i)
    ensures k > 0 ==> kids[n][k - 1] in kids && kids[n][k - 1] != kids[n][k]
    ensures kids[n][k] != n && n !in kids[kids[n][k]] ==> Spliceable(n, kids[n], k, kids[kids[n][k]])
  {
    RemoveFacts(l, kids, n, k);
    var c := kids[n][k];
    assert SpellsOut(l, kids.Keys, n, kids[n]);
    assert SpellsOut(l, kids.Keys, c, kids[c]);
  }

  /** The links once the child at place `k` of `s` has been replaced by its children `t`. */
  ghost function SpliceLinks(l: Links, n: Node, s: seq<Node>, k: nat, t: seq<Node>): Links
    requires k < |s|
  {
    var c, after := s[k], Next(s, k);
    var head := if t == [] then after else t[0];
    var next := if k > 0 then l.next[s[k - 1] := head] else l.next;
    var next' := if t == [] then next else next[t[|t| - 1] := after];
    Links(map x | x in l.parent :: if x == c then null else if x in t then n else l.parent[x],
          (if k > 0 then l.first else l.first[n := head])[c := null],
          next'[c := null])
  }

  /** `c`, at place `k` below `n`, can be replaced by its children `t`: all nodes involved are different. */
  ghost predicate Spliceable(n: Node, s: seq<Node>, k: nat, t: seq<Node>) {
    && k < |s| && s[k] != n && s[k] !in t && n !in t
    && NoDup(s) && NoDup(t) && forall x :: x in t ==> x !in s
  }

  lemma SpliceNoDup(n: Node, s: seq<Node>, k: nat, t: seq<Node>)
    requires Spliceable(n, s, k, t)
    ensures NoDup(s[..k] + t + s[k + 1..])
    ensures forall x :: x in s[..k] + t + s[k + 1..] <==> (x in s && x != s[k]) || x in t
  {
    RemoveNoDup(s, k);
    var u := s[..k] + t + s[k + 1..];
    forall i, j | 0 <= i < j < |u|
      ensures u[i] != u[j]
    {
      assert u[i] == if i < k then s[i] else if i < k + |t| then t[i - k] else s[i - |t| + 1];
      assert u[j] == if j < k then s[j] else if j < k + |t| then t[j - k] else s[j - |t| + 1];
      assert k <= i < k + |t| ==> u[i] in t;
      assert k <= j < k + |t| ==> u[j] in t;
      assert !(k <= i < k + |t|) ==> u[i] in s;
      assert !(k <= j < k + |t|) ==> u[j] in s;
    }
    forall x | x in s && x != s[k]
      ensures x in u
    {
      var i := Place(s, x);
      assert x == u[if i < k then i else i - 1 + |t|];
    }
    forall x | x in t
      ensures x in u
    {
      assert x == u[k + Place(t, x)];
    }
  }

  lemma SpliceNexts(l: Links, nodes: set<Node>, n: Node, s: seq<Node>, k: nat, t: seq<Node>, i: nat)
    requires SpellsOut(l, nodes, n, s) && Spliceable(n, s, k, t) && SpellsOut(l, nodes, s[k], t)
    requires i < |s[..k] + t + s[k + 1..]|
    ensures var u := s[..k] + t + s[k + 1..];
      u[i] in nodes && SpliceLinks(l, n, s, k, t).next[u[i]] == Next(u, i)
  {
    var u := s[..k] + t + s[k + 1..];
    if i < k {
      var next := Next(s, i);
    } else if i < k + |t| {
      assert u[i] == t[i - k];
      var next := Next(t, i - k);
    } else {
      assert u[i] == s[i - |t| + 1];
      var next := Next(s, i - |t| + 1);
    }
  }

  lemma SpliceParents(l: Links, nodes: set<Node>, n: Node, s: seq<Node>, k: nat, t: seq<Node>)
    requires SpellsOut(l, nodes, n, s) && Spliceable(n, s, k, t) && SpellsOut(l, nodes, s[k], t)
    ensures var u, l' := s[..k] + t + s[k + 1..], SpliceLinks(l, n, s, k, t);
      && Covers(l', nodes) && l'.first[n] == First(u)
      && forall c :: c in u ==> c in nodes && l'.parent[c] == n
  {
    SpliceNoDup(n, s, k, t);
  }

  lemma SpliceSpellsOut(l: Links, nodes: set<Node>, n: Node, s: seq<Node>, k: nat, t: seq<Node>)
    requires SpellsOut(l, nodes, n, s) && Spliceable(n, s, k, t) && SpellsOut(l, nodes, s[k], t)
    ensures SpellsOut(SpliceLinks(l, n, s, k, t), nodes, n, s[..k] + t + s[k + 1..])
  {
    var l', u := SpliceLinks(l, n, s, k, t), s[..k] + t + s[k + 1..];
    SpliceNoDup(n, s, k, t);
    SpliceParents(l, nodes, n, s, k, t);
    forall i | 0 <= i < |u|
      ensures l'.next[u[i]] == Next(u, i)
    {
      SpliceNexts(l, nodes, n, s, k, t, i);
    }
  }

  lemma SpliceKeepsOthers(l: Links, kids: Children, n: Node, k: nat, m: Node)
    requires Represents(l, kids) && n in kids && k < |kids[n]| && kids[n][k] in kids && m in kids
    requires Spliceable(n, kids[n], k, kids[kids[n][k]]) && m != n && m != kids[n][k]
    ensures SpellsOut(SpliceLinks(l, n, kids[n], k, kids[kids[n][k]]), kids.Keys, m, kids[m])
  {
    var c := kids[n][k];
    assert SpellsOut(l, kids.Keys, n, kids[n]);
    assert SpellsOut(l, kids.Keys, c, kids[c]);
    assert SpellsOut(l, kids.Keys, m, kids[m]);
  }

  /** The nodes whose parent is to be null have no next sibling, as before. */
  lemma SpliceKeepsRoots(l: Links, kids: Children, n: Node, k: nat, m: Node)
    requires Represents(l, kids) && n in kids && k < |kids[n]| && kids[n][k] in kids && m in kids
    requires Spliceable(n, kids[n], k, kids[kids[n][k]])
    ensures var l' := SpliceLinks(l, n, kids[n], k, kids[kids[n][k]]);
      Covers(l', kids.Keys) && (l'.parent[m] == null ==> l'.next[m] == null)
  {
    var c := kids[n][k];
    assert SpellsOut(l, kids.Keys, n, kids[n]);
    assert SpellsOut(l, kids.Keys, c, kids[c]);
    assert Anchored(l, kids, m);
  }

  /** A node with a parent is below that parent. */
  lemma SpliceKeepsBelow(l: Links, kids: Children, n: Node, k: nat, m: Node)
    requires Represents(l, kids) && n in kids && k < |kids[n]| && kids[n][k] in kids && m in kids && m != kids[n][k]
    requires Spliceable(n, kids[n], k, kids[kids[n][k]])
    ensures var p, kids' := if m in kids[kids[n][k]] then n else l.parent[m], Spliced(kids, n, k);
      m in l.parent && (p != null ==> p in kids' && m in kids'[p])
  {
    var c := kids[n][k];
    assert SpellsOut(l, kids.Keys, c, kids[c]);
    assert Anchored(l, kids, m);
    SpliceNoDup(n, kids[n], k, kids[c]);
  }

  lemma SpliceKeepsAnchors(l: Links, kids: Children, n: Node, k: nat, m: Node)
    requires Represents(l, kids) && n in kids && k < |kids[n]| && kids[n][k] in kids && m in kids
    requires Spliceable(n, kids[n], k, kids[kids[n][k]])
    ensures Anchored(SpliceLinks(l, n, kids[n], k, kids[kids[n][k]]), Spliced(kids, n, k), m)
  {
    var c := kids[n][k];
    assert Spliced(kids, n, k).Keys == kids.Keys;
    SpliceKeepsRoots(l, kids, n, k, m);
    if m != c {
      SpliceKeepsBelow(l, kids, n, k, m);
    }
  }

  lemma SpliceRepresents(l: Links, kids: Children, n: Node, k: nat)
    requires Represents(l, kids) && n in kids && k < |kids[n]| && kids[n][k] in kids
    requires Spliceable(n, kids[n], k, kids[kids[n][k]])
    ensures Represents(SpliceLinks(l, n, kids[n], k, kids[kids[n][k]]), Spliced(kids, n, k))
  {
    var c := kids[n][k];
    var l', kids' := SpliceLinks(l, n, kids[n], k, kids[c]), Spliced(kids, n, k);
    assert SpellsOut(l, kids.Keys, n, kids[n]);
    assert SpellsOut(l, kids.Keys, c, kids[c]);
    assert kids'.Keys == kids.Keys;
    SpliceSpellsOut(l, kids.Keys, n, kids[n], k, kids[c]);
    forall m | m in kids'
      ensures SpellsOut(l', kids'.Keys, m, kids'[m])
    {
      if m != n && m != c {
        SpliceKeepsOthers(l, kids, n, k, m);
      }
    }
    forall m | m in kids'
      ensures Anchored(l', kids', m)
    {
      SpliceKeepsAnchors(l, kids, n, k, m);
    }
  }

  /** If the heap now holds the links with the child at place `k` replaced by its children, it spells out that list. */
  lemma SplicedLinks(l: Links, kids: Children, n: Node, k: nat)
    requires Represents(l, kids) && n in kids && k < |kids[n]| && kids[n][k] in kids
    requires Spliceable(n, kids[n], k, kids[kids[n][k]])
    requires SameParents(l, kids, n, k) && SameFirsts(l, kids, n, k) && SameNexts(l, kids, n, k)
    ensures Linked(Spliced(kids, n, k))
  {
    var c := kids[n][k];
    assert SpellsOut(l, kids.Keys, n, kids[n]);
    assert SpellsOut(l, kids.Keys, c, kids[c]);
    SpliceRepresents(l, kids, n, k);
    assert Spliced(kids, n, k).Keys == kids.Keys;
    SameLinks(kids.Keys, SpliceLinks(l, n, kids[n], k, kids[c]));
  }

  ghost predicate SameParents(l: Links, kids: Children, n: Node, k: nat)
    requires Covers(l, kids.Keys) && n in kids && k < |kids[n]| && kids[n][k] in kids
    reads kids.Keys
  {
    forall m :: m in kids ==>
      m.parent == if m == kids[n][k] then null else if m in kids[kids[n][k]] then n else l.parent[m]
  }

  /** What follows the first `k` children of `n` after the splice. */
  ghost function Head(kids: Children, n: Node, k: nat): Node?
    requires n in kids && k < |kids[n]| && kids[n][k] in kids
  {
    var t := kids[kids[n][k]];
    if t == [] then Next(kids[n], k) else t[0]
  }

  ghost predicate SameFirsts(l: Links, kids: Children, n: Node, k: nat)
    requires Covers(l, kids.Keys) && n in kids && k < |kids[n]| && kids[n][k] in kids
    reads kids.Keys
  {
    forall m :: m in kids ==>
      m.firstChild == if m == kids[n][k] then null else if m == n && k == 0 then Head(kids, n, k) else l.first[m]
  }

  ghost predicate SameNexts(l: Links, kids: Children, n: Node, k: nat)
    requires Covers(l, kids.Keys) && n in kids && k < |kids[n]| && kids[n][k] in kids
    reads kids.Keys
  {
    var s, t := kids[n], kids[kids[n][k]];
    forall m :: m in kids ==>
      m.nextSibling == if m == s[k] then null
                       else if t != [] && m == t[|t| - 1] then Next(s, k)
                       else if k > 0 && m == s[k - 1] then Head(kids, n, k)
                       else l.next[m]
  }

  // ---------------------------------------------------------------------------------------------
  // Reading the links
  // ---------------------------------------------------------------------------------------------

  method FirstOf(p: Node, ghost kids: Children) returns (c: Node?)
    requires Linked(kids) && p in kids
    ensures c == if kids[p] == [] then null else kids[p][0]
  {
    c := p.firstChild;
    assert SpellsOut(LinksOf(kids.Keys), kids.Keys, p, kids[p]);
  }

  method NextOf(c: Node, ghost p: Node, ghost i: nat, ghost kids: Children) returns (d: Node?)
    requires Linked(kids) && p in kids && i < |kids[p]| && c == kids[p][i]
    ensures d == if i + 1 < |kids[p]| then kids[p][i + 1] else null
  {
    d := c.nextSibling;
    ChildFacts(LinksOf(kids.Keys), kids, p, i);
  }

  lemma ParentOf(l: Links, kids: Children, n: Node, c: Node)
    requires Represents(l, kids) && n in kids && c in kids[n]
    ensures c in kids && l.parent[c] == n
  {
    assert SpellsOut(l, kids.Keys, n, kids[n]);
  }

  lemma ListedNodes(l: Links, kids: Children, n: Node)
    requires Represents(l, kids) && n in kids
    ensures NoDup(kids[n]) && forall c :: c in kids[n] ==> c in kids
  {
    assert SpellsOut(l, kids.Keys, n, kids[n]);
  }
}
