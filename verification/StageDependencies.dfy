/**
 * The last step of coarsening: a dependency between stages of different pipelines, one of them nested
 * in a stage of the other, moves to the two stages of the common pipeline. The lists of dependents are
 * edited while they are walked.
 */
module StageDependencies {
  import opened OperationTree

  // ---------------------------------------------------------------------------------------------
  // Where a dependency belongs
  // ---------------------------------------------------------------------------------------------

  /** Parents of all nodes, and heights that fall from child to parent. */
  datatype Ancestry = Ancestry(up: map<Node, Node?>, height: map<Node, nat>)

  ghost predicate Valid(t: Ancestry) {
    && t.up.Keys == t.height.Keys
    && forall n :: n in t.up && t.up[n] != null ==> t.up[n] in t.up && t.height[t.up[n]] < t.height[n]
  }

  /** All stages sit in pipelines. */
  ghost predicate StagesInPipelines(t: Ancestry)
    requires Valid(t)
  {
    forall n :: n in t.up && n.kind == Stage ==> t.up[n] != null && t.up[n].kind == Pipeline
  }

  /** The stage of `target` below which `n` is nested, if any. */
  ghost function Enclosing(t: Ancestry, n: Node, target: Node): (s: Node?)
    requires Valid(t) && n in t.up
    ensures s != null ==> s in t.up && s.kind == Stage && t.up[s] == target && t.height[s] < t.height[n]
    decreases t.height[n]
  {
    var p := t.up[n];
    if p == null then null else if p.kind == Stage && t.up[p] == target then p else Enclosing(t, p, target)
  }

  /** Number of pipelines above `n`. */
  ghost function Depth(t: Ancestry, n: Node): nat
    requires Valid(t) && n in t.up
    decreases t.height[n]
  {
    var p := t.up[n];
    if p == null then 0 else (if p.kind == Pipeline then 1 else 0) + Depth(t, p)
  }

  /** Pipelines nested below a stage of `target` lie deeper than `target`, so testing depths first misses nothing. */
  lemma {:induction false} NestedIsDeeper(t: Ancestry, n: Node, target: Node)
    requires Valid(t) && n in t.up && target.kind == Pipeline && Enclosing(t, n, target) != null
    ensures target in t.up && Depth(t, target) < Depth(t, n)
    decreases t.height[n]
  {
    var p: Node := t.up[n];
    if p.kind == Stage && t.up[p] == target {
    } else {
      NestedIsDeeper(t, p, target);
    }
  }

  datatype Edge = Edge(source: Node, sink: Node)

  /** The edge between the enclosing sibling stages, when one end is nested below a stage of the other's pipeline. */
  ghost function Lift(t: Ancestry, e: Edge): Edge
    requires Valid(t) && StagesInPipelines(t) && Proper(t, e)
  {
    var above, below := Enclosing(t, e.source, t.up[e.sink]), Enclosing(t, e.sink, t.up[e.source]);
    if t.up[e.source] == t.up[e.sink] then e
    else if below != null then Edge(e.source, below)
    else if above != null then Edge(above, e.sink)
    else e
  }

  ghost predicate Proper(t: Ancestry, e: Edge) {
    e.source in t.up && e.sink in t.up && e.source.kind == Stage && e.sink.kind == Stage
  }

  /** A lifted edge stays where it is; if it moved, it joins two stages of one pipeline. */
  lemma LiftTwice(t: Ancestry, e: Edge)
    requires Valid(t) && StagesInPipelines(t) && Proper(t, e)
    ensures Proper(t, Lift(t, e)) && Lift(t, Lift(t, e)) == Lift(t, e)
    ensures Lift(t, e) != e ==> t.up[Lift(t, e).source] == t.up[Lift(t, e).sink]
  {
  }

  /** The edge as the two branches on depths find it. */
  lemma LiftByDepth(t: Ancestry, e: Edge)
    requires Valid(t) && StagesInPipelines(t) && Proper(t, e) && t.up[e.source] != t.up[e.sink]
    ensures var p, q: Node := t.up[e.source], t.up[e.sink];
      var above, below := Enclosing(t, e.source, q), Enclosing(t, e.sink, p);
      Lift(t, e) ==
        if Depth(t, p) < Depth(t, q) then (if below != null then Edge(e.source, below) else e)
        else if Depth(t, p) > Depth(t, q) then (if above != null then Edge(above, e.sink) else e)
        else e
  {
    var p, q: Node := t.up[e.source], t.up[e.sink];
    if Enclosing(t, e.sink, p) != null {
      NestedIsDeeper(t, q, p);
    }
    if Enclosing(t, e.source, q) != null {
      NestedIsDeeper(t, p, q);
    }
  }

  /** `a` is somewhere above `n`. */
  ghost predicate Above(t: Ancestry, a: Node, n: Node)
    requires Valid(t) && n in t.up
    decreases t.height[n]
  {
    t.up[n] != null && (t.up[n] == a || Above(t, a, t.up[n]))
  }

  lemma {:induction false} AboveIsLower(t: Ancestry, a: Node, n: Node)
    requires Valid(t) && n in t.up && Above(t, a, n)
    ensures a in t.up && t.height[a] < t.height[n]
    decreases t.height[n]
  {
    if t.up[n] != a {
      AboveIsLower(t, a, t.up[n]);
    }
  }

  /** Climbing to a pipeline finds the stage of it below which the climb began, and that one only. */
  lemma {:induction false} EnclosingIffAbove(t: Ancestry, n: Node, a: Node)
    requires Valid(t) && StagesInPipelines(t) && n in t.up && a in t.up && a.kind == Stage
    ensures Enclosing(t, n, t.up[a]) == a <==> Above(t, a, n)
    decreases t.height[n]
  {
    var p := t.up[n];
    if p != null && p != a {
      EnclosingIffAbove(t, p, a);
      if p.kind == Stage && t.up[p] == t.up[a] && Above(t, a, p) {
        AboveIsLower(t, a, p);
        AboveParent(t, a, p);
      }
    }
  }

  /** No node is above a sibling. */
  lemma AboveParent(t: Ancestry, a: Node, p: Node)
    requires Valid(t) && p in t.up && a in t.up && t.up[p] != null && t.up[p] == t.up[a]
    ensures !Above(t, a, p)
  {
    if Above(t, a, p) {
      if t.up[p] != a {
        AboveIsLower(t, a, t.up[p]);
      }
    }
  }

  /** One end of the edge is the other, or nested in it. */
  ghost predicate WithinItself(t: Ancestry, e: Edge)
    requires Valid(t) && Proper(t, e)
  {
    e.source == e.sink || Above(t, e.source, e.sink) || Above(t, e.sink, e.source)
  }

  /** An edge between a stage and one nested in it becomes an edge from the outer stage to itself, and no other does. */
  lemma LiftedToLoopIff(t: Ancestry, e: Edge)
    requires Valid(t) && StagesInPipelines(t) && Proper(t, e)
    ensures Lift(t, e).source == Lift(t, e).sink <==> WithinItself(t, e)
  {
    EnclosingIffAbove(t, e.sink, e.source);
    EnclosingIffAbove(t, e.source, e.sink);
    if Above(t, e.source, e.sink) && Above(t, e.sink, e.source) {
      AboveIsLower(t, e.source, e.sink);
      AboveIsLower(t, e.sink, e.source);
    }
  }

  // ---------------------------------------------------------------------------------------------
  // Lists of dependents
  // ---------------------------------------------------------------------------------------------

  type Dependencies = map<Node, seq<Node?>>

  /** Every entry of a stage's list is blank or a stage, and only stages have entries. */
  ghost predicate Lists(t: Ancestry, d: Dependencies) {
    d.Keys == t.up.Keys && forall a: Node :: a in d ==> ListOf(t, a, d[a])
  }

  ghost predicate ListOf(t: Ancestry, a: Node, s: seq<Node?>) {
    forall i :: 0 <= i < |s| && s[i] != null ==> Proper(t, Edge(a, s[i]))
  }

  /** The edges recorded in `d`. */
  ghost function Edges(t: Ancestry, d: Dependencies): set<Edge>
    requires Lists(t, d)
  {
    set a: Node, b: Node | a in d && b in t.up && b in d[a] :: Edge(a, b)
  }

  lemma EdgesProper(t: Ancestry, d: Dependencies)
    requires Lists(t, d)
    ensures forall e :: e in Edges(t, d) ==> Proper(t, e)
  {
    forall e | e in Edges(t, d)
      ensures Proper(t, e)
    {
      assert ListOf(t, e.source, d[e.source]);
      var i :| 0 <= i < |d[e.source]| && d[e.source][i] == e.sink;
    }
  }

  /** Where the edges belong. */
  ghost function Lifted(t: Ancestry, es: set<Edge>): set<Edge>
    requires Valid(t) && StagesInPipelines(t) && forall e :: e in es ==> Proper(t, e)
  {
    set e | e in es :: Lift(t, e)
  }

  /** Some stage ends up depending on itself exactly when some edge joins a stage with itself or with one nested in it. */
  lemma LiftedHasLoopIff(t: Ancestry, es: set<Edge>)
    requires Valid(t) && StagesInPipelines(t) && forall e :: e in es ==> Proper(t, e)
    ensures (exists a :: Edge(a, a) in Lifted(t, es)) <==> exists e :: e in es && WithinItself(t, e)
  {
    forall e | e in es ensures Lift(t, e).source == Lift(t, e).sink <==> WithinItself(t, e) {
      LiftedToLoopIff(t, e);
    }
    if e :| e in es && WithinItself(t, e) {
      assert Lift(t, e) in Lifted(t, es) && Lift(t, e) == Edge(Lift(t, e).source, Lift(t, e).source);
    }
  }

  /** Taking some edges to where they belong changes nothing about where the edges belong. */
  lemma LiftedSame(t: Ancestry, es: set<Edge>, es': set<Edge>, x: Edge)
    requires Valid(t) && StagesInPipelines(t) && (forall e :: e in es ==> Proper(t, e)) && x in es
    requires es' == es + {Lift(t, x)} || es' == es - {x} + {Lift(t, x)}
    ensures forall e :: e in es' ==> Proper(t, e)
    ensures Lifted(t, es') == Lifted(t, es)
  {
    LiftTwice(t, x);
    forall e | e in Lifted(t, es)
      ensures e in Lifted(t, es')
    {
      var y :| y in es && Lift(t, y) == e;
      assert (if y == x then Lift(t, x) else y) in es';
    }
  }

  lemma LiftedFixed(t: Ancestry, es: set<Edge>)
    requires Valid(t) && StagesInPipelines(t) && forall e :: e in es ==> Proper(t, e) && Lift(t, e) == e
    ensures Lifted(t, es) == es
  {
  }

  lemma {:induction false} ReplaceFirstElements(s: seq<Node?>, x: Node, y: Node?)
    requires x in s && x != y
    ensures |ReplaceFirst(s, x, y)| == |s|
    ensures forall z :: z in ReplaceFirst(s, x, y) ==> z in s || z == y
    ensures forall z :: z in s && z != x ==> z in ReplaceFirst(s, x, y)
    ensures y in ReplaceFirst(s, x, y)
  {
    var r := ReplaceFirst(s, x, y);
    if s[0] == x {
      assert r[0] == y && r[1..] == s[1..];
    } else {
      ReplaceFirstElements(s[1..], x, y);
      assert r[0] == s[0] && r[1..] == ReplaceFirst(s[1..], x, y);
      assert forall z :: z in s ==> z == s[0] || z in s[1..];
      assert forall z :: z in r[1..] ==> z in r;
    }
  }

  lemma {:induction false} ReplaceFirstAt(s: seq<Node?>, i: nat, x: Node, y: Node?)
    requires i < |s| && s[i] == x && forall j :: 0 <= j < i ==> s[j] != x
    ensures ReplaceFirst(s, x, y) == s[i := y]
  {
    if i > 0 {
      ReplaceFirstAt(s[1..], i - 1, x, y);
      assert s[i := y] == [s[0]] + s[1..][i - 1 := y];
    }
  }

  // ---------------------------------------------------------------------------------------------
  // One entry
  // ---------------------------------------------------------------------------------------------

  /** The entries of `s` are blank or where they belong. */
  ghost predicate Settled(t: Ancestry, a: Node, s: seq<Node?>)
    requires Valid(t) && StagesInPipelines(t) && ListOf(t, a, s)
  {
    forall i :: 0 <= i < |s| && s[i] != null ==> Lift(t, Edge(a, s[i])) == Edge(a, s[i])
  }

  /** `d` with entry `i` of `a` taken to where it belongs. */
  ghost function Corrected(t: Ancestry, d: Dependencies, a: Node, i: nat): Dependencies
    requires Valid(t) && StagesInPipelines(t) && Lists(t, d) && a in d && i < |d[a]| && d[a][i] != null
  {
    assert ListOf(t, a, d[a]);
    var e := Edge(a, d[a][i]);
    var l := Lift(t, e);
    if l == e then d
    else if l.source == a then Rewritten(d, a, i, l.sink)
    else Rewritten(Extended(d, l.source, l.sink), a, i, null)
  }

  ghost function Rewritten(d: Dependencies, a: Node, i: nat, y: Node?): Dependencies
    requires a in d && i < |d[a]|
  {
    d[a := d[a][i := y]]
  }

  ghost function Extended(d: Dependencies, a: Node, b: Node): (d': Dependencies)
    requires a in d
    ensures a in d' && |d'[a]| >= |d[a]|
  {
    if b in d[a] then d else d[a := d[a] + [b]]
  }

  lemma RewrittenEdges(t: Ancestry, d: Dependencies, a: Node, i: nat, y: Node?)
    requires Lists(t, d) && a in d && i < |d[a]| && d[a][i] != null && y != d[a][i]
    requires y != null ==> Proper(t, Edge(a, y))
    ensures var d', x := Rewritten(d, a, i, y), Edge(a, d[a][i]);
      && Lists(t, d')
      && (Edges(t, d') == Edges(t, d) + New(a, y) || Edges(t, d') == Edges(t, d) - {x} + New(a, y))
  {
    var d', b := Rewritten(d, a, i, y), d[a][i];
    assert ListOf(t, a, d[a]);
    forall n: Node | n in d'
      ensures ListOf(t, n, d'[n])
    {
      assert ListOf(t, n, d[n]);
    }
    forall z | z in d[a] && z != b
      ensures z in d'[a]
    {
      var j :| 0 <= j < |d[a]| && d[a][j] == z;
      assert d'[a][j] == z;
    }
    assert d'[a][i] == y;
    if b in d'[a] {
      assert Edges(t, d') == Edges(t, d) + New(a, y);
    } else {
      assert Edges(t, d') == Edges(t, d) - {Edge(a, b)} + New(a, y);
    }
  }

  ghost function New(a: Node, y: Node?): set<Edge> {
    if y == null then {} else {Edge(a, y)}
  }

  lemma ExtendedEdges(t: Ancestry, d: Dependencies, a: Node, b: Node)
    requires Lists(t, d) && a in d && Proper(t, Edge(a, b))
    ensures Lists(t, Extended(d, a, b)) && Edges(t, Extended(d, a, b)) == Edges(t, d) + {Edge(a, b)}
  {
    var d' := Extended(d, a, b);
    forall n: Node | n in d'
      ensures ListOf(t, n, d'[n])
    {
      assert ListOf(t, n, d[n]);
    }
    if b in d[a] {
      assert Edge(a, b) in Edges(t, d);
    } else {
      assert d'[a][|d[a]|] == b;
      assert Edges(t, d') == Edges(t, d) + {Edge(a, b)};
    }
  }

  /** The entry is where it belongs, all edges still belong where they did. */
  lemma CorrectedEdges(t: Ancestry, d: Dependencies, a: Node, i: nat)
    requires Valid(t) && StagesInPipelines(t) && Lists(t, d) && a in d && i < |d[a]| && d[a][i] != null
    ensures Lists(t, Corrected(t, d, a, i))
    ensures forall e :: e in Edges(t, d) + Edges(t, Corrected(t, d, a, i)) ==> Proper(t, e)
    ensures Lifted(t, Edges(t, Corrected(t, d, a, i))) == Lifted(t, Edges(t, d))
  {
    EdgesProper(t, d);
    assert ListOf(t, a, d[a]);
    var e := Edge(a, d[a][i]);
    var l := Lift(t, e);
    LiftTwice(t, e);
    assert e in Edges(t, d);
    if l == e {
    } else if l.source == a {
      RewrittenEdges(t, d, a, i, l.sink);
      LiftedSame(t, Edges(t, d), Edges(t, Corrected(t, d, a, i)), e);
    } else {
      var d1 := Extended(d, l.source, l.sink);
      ExtendedEdges(t, d, l.source, l.sink);
      RewrittenEdges(t, d1, a, i, null);
      assert Edges(t, Corrected(t, d, a, i)) == Edges(t, d) + {l} || Edges(t, Corrected(t, d, a, i)) == Edges(t, d) - {e} + {l};
      LiftedSame(t, Edges(t, d), Edges(t, Corrected(t, d, a, i)), e);
    }
  }

  /** The list of another stage stays settled and without blanks. */
  lemma CorrectedKeepsOther(t: Ancestry, d: Dependencies, a: Node, i: nat, n: Node)
    requires Valid(t) && StagesInPipelines(t) && Lists(t, d) && a in d && i < |d[a]| && d[a][i] != null && n in d && n != a
    requires Lists(t, Corrected(t, d, a, i))
    ensures ListOf(t, n, d[n]) && Settled(t, n, d[n]) ==>
      ListOf(t, n, Corrected(t, d, a, i)[n]) && Settled(t, n, Corrected(t, d, a, i)[n])
    ensures null !in d[n] ==> null !in Corrected(t, d, a, i)[n]
  {
    assert ListOf(t, a, d[a]) && ListOf(t, n, d[n]);
    var e := Edge(a, d[a][i]);
    LiftTwice(t, e);
    if Lift(t, e).source == n && Lift(t, e).sink !in d[n] {
      assert Corrected(t, d, a, i)[n] == d[n] + [Lift(t, e).sink];
    } else {
      assert Corrected(t, d, a, i)[n] == d[n];
    }
  }

  /** The list walked is settled up to the next entry. */
  lemma CorrectedSettles(t: Ancestry, d: Dependencies, a: Node, i: nat)
    requires Valid(t) && StagesInPipelines(t) && Lists(t, d) && a in d && i < |d[a]| && d[a][i] != null
    requires ListOf(t, a, d[a][..i]) && Settled(t, a, d[a][..i])
    ensures var d' := Corrected(t, d, a, i);
      && Lists(t, d') && |d'[a]| == |d[a]| && d'[a][i + 1..] == d[a][i + 1..]
      && ListOf(t, a, d'[a][..i + 1]) && Settled(t, a, d'[a][..i + 1])
  {
    CorrectedEdges(t, d, a, i);
    var d' := Corrected(t, d, a, i);
    assert ListOf(t, a, d[a]) && ListOf(t, a, d'[a]);
    var e := Edge(a, d[a][i]);
    LiftTwice(t, e);
    forall j | 0 <= j <= i && d'[a][j] != null
      ensures Lift(t, Edge(a, d'[a][j])) == Edge(a, d'[a][j])
    {
      if j < i {
        assert d'[a][j] == d[a][..i][j];
      }
    }
  }

  // ---------------------------------------------------------------------------------------------
  // How often an edge is listed
  // ---------------------------------------------------------------------------------------------

  /** How many entries of the list of `a` belong to the edge from `a` to `b`. */
  ghost function Own(t: Ancestry, a: Node, s: seq<Node?>, b: Node): nat
    requires Valid(t) && StagesInPipelines(t) && ListOf(t, a, s)
  {
    if s == [] then 0
    else
      var last := s[|s| - 1];
      ListOfInit(t, a, s);
      Own(t, a, s[..|s| - 1], b) + if last != null && Lift(t, Edge(a, last)) == Edge(a, b) then 1 else 0
  }

  lemma ListOfInit(t: Ancestry, a: Node, s: seq<Node?>)
    requires s != [] && ListOf(t, a, s)
    ensures ListOf(t, a, s[..|s| - 1]) && (s[|s| - 1] != null ==> Proper(t, Edge(a, s[|s| - 1])))
  {
    assert forall i :: 0 <= i < |s| - 1 ==> s[..|s| - 1][i] == s[i];
  }

  ghost function OwnOne(t: Ancestry, a: Node, x: Node?, b: Node): nat
    requires Valid(t) && StagesInPipelines(t) && (x != null ==> Proper(t, Edge(a, x)))
  {
    if x != null && Lift(t, Edge(a, x)) == Edge(a, b) then 1 else 0
  }

  lemma OwnAppend(t: Ancestry, a: Node, s: seq<Node?>, x: Node?, b: Node)
    requires Valid(t) && StagesInPipelines(t) && ListOf(t, a, s) && (x != null ==> Proper(t, Edge(a, x)))
    ensures ListOf(t, a, s + [x]) && Own(t, a, s + [x], b) == Own(t, a, s, b) + OwnOne(t, a, x, b)
  {
    assert (s + [x])[..|s|] == s;
    assert forall i :: 0 <= i < |s| ==> (s + [x])[i] == s[i];
  }

  lemma {:induction false} OwnUpdate(t: Ancestry, a: Node, s: seq<Node?>, i: nat, x: Node?, b: Node)
    requires Valid(t) && StagesInPipelines(t) && ListOf(t, a, s) && i < |s| && (x != null ==> Proper(t, Edge(a, x)))
    ensures ListOf(t, a, s[i := x])
    ensures Own(t, a, s[i := x], b) + OwnOne(t, a, s[i], b) == Own(t, a, s, b) + OwnOne(t, a, x, b)
    decreases |s|
  {
    var n := |s| - 1;
    var s' := s[i := x];
    ListOfInit(t, a, s);
    assert ListOf(t, a, s') by {
      assert forall j :: 0 <= j < |s| ==> s'[j] == if j == i then x else s[j];
    }
    ListOfInit(t, a, s');
    if i < n {
      OwnUpdate(t, a, s[..n], i, x, b);
      assert s'[..n] == s[..n][i := x] && s'[n] == s[n];
    } else {
      assert s'[..n] == s[..n] && s'[n] == x;
    }
  }

  /** Some other stage has an entry that belongs to the edge from `a` to `b`. */
  ghost predicate Inner(t: Ancestry, d: Dependencies, a: Node, b: Node)
    requires Valid(t) && StagesInPipelines(t) && Lists(t, d)
  {
    exists n: Node, i: nat :: n in t.up && n != a && BelongsTo(t, d, n, i, Edge(a, b))
  }

  ghost predicate BelongsTo(t: Ancestry, d: Dependencies, n: Node, i: nat, e: Edge)
    requires Valid(t) && StagesInPipelines(t) && Lists(t, d)
  {
    n in d && i < |d[n]| && d[n][i] != null && (assert ListOf(t, n, d[n]); Lift(t, Edge(n, d[n][i])) == e)
  }

  ghost function OwnIn(t: Ancestry, d: Dependencies, a: Node, b: Node): nat
    requires Valid(t) && StagesInPipelines(t) && Lists(t, d) && a in d
  {
    assert ListOf(t, a, d[a]);
    Own(t, a, d[a], b)
  }

  /** One, if the edge is listed and some other stage has an entry for it. */
  ghost function Extra(t: Ancestry, d0: Dependencies, d: Dependencies, a: Node, b: Node): nat
    requires Valid(t) && StagesInPipelines(t) && Lists(t, d0) && a in d
  {
    if b in d[a] && Inner(t, d0, a, b) then 1 else 0
  }

  /** Of an edge that is where it belongs, no entry of the stage's own is lost, and one at most has come from elsewhere. */
  ghost predicate KeptAt(t: Ancestry, d: Dependencies, d': Dependencies, a: Node, b: Node)
    requires Valid(t) && StagesInPipelines(t) && Lists(t, d) && Lists(t, d')
  {
    a in d && Proper(t, Edge(a, b)) && Lift(t, Edge(a, b)) == Edge(a, b) ==>
      && (b in d[a] ==> b in d'[a]) && (Inner(t, d', a, b) ==> Inner(t, d, a, b))
      && OwnIn(t, d, a, b) <= OwnIn(t, d', a, b)
      && OwnIn(t, d', a, b) + Extra(t, d, d, a, b) <= OwnIn(t, d, a, b) + Extra(t, d, d', a, b)
  }

  ghost predicate Kept(t: Ancestry, d: Dependencies, d': Dependencies)
    requires Valid(t) && StagesInPipelines(t) && Lists(t, d) && Lists(t, d')
  {
    forall a: Node, b: Node :: a in t.up && b in t.up ==> KeptAt(t, d, d', a, b)
  }

  lemma KeptTwice(t: Ancestry, d: Dependencies, d1: Dependencies, d2: Dependencies)
    requires Valid(t) && StagesInPipelines(t) && Lists(t, d) && Lists(t, d1) && Lists(t, d2)
    requires Kept(t, d, d1) && Kept(t, d1, d2)
    ensures Kept(t, d, d2)
  {
    forall a: Node, b: Node | a in t.up && b in t.up ensures KeptAt(t, d, d2, a, b) {
      assert KeptAt(t, d, d1, a, b) && KeptAt(t, d1, d2, a, b);
    }
  }

  /** Lists that differ in `a` only, where an entry that was not where it belongs is replaced. */
  lemma RewrittenKeeps(t: Ancestry, d: Dependencies, a: Node, i: nat, y: Node?, b: Node)
    requires Valid(t) && StagesInPipelines(t) && Lists(t, d) && a in d && i < |d[a]| && d[a][i] != null && b in t.up
    requires y != null ==> Proper(t, Edge(a, y))
    requires var e := Edge(a, d[a][i]);
      Proper(t, e) && Lift(t, e) != e && if y == null then Lift(t, e).source != a else Lift(t, e) == Edge(a, y)
    ensures Lists(t, Rewritten(d, a, i, y)) && KeptAt(t, d, Rewritten(d, a, i, y), a, b)
  {
    var d', x := Rewritten(d, a, i, y), d[a][i];
    assert ListOf(t, a, d[a]);
    OwnUpdate(t, a, d[a], i, y, b);
    assert forall n: Node :: n in d' ==> ListOf(t, n, d[n]);
    LiftTwice(t, Edge(a, x));
    if Proper(t, Edge(a, b)) && Lift(t, Edge(a, b)) == Edge(a, b) {
      assert b != x;
      if b in d[a] {
        var j :| 0 <= j < |d[a]| && d[a][j] == b;
        assert d'[a][j] == b;
      }
      InnerOfOthers(t, d, d', a, b);
    }
  }

  lemma InnerOfOthers(t: Ancestry, d: Dependencies, d': Dependencies, a: Node, b: Node)
    requires Valid(t) && StagesInPipelines(t) && Lists(t, d) && Lists(t, d')
    requires forall n: Node :: n in d && n != a ==> d'[n] == d[n]
    ensures Inner(t, d', a, b) <==> Inner(t, d, a, b)
  {
    if Inner(t, d', a, b) {
      var n: Node, i: nat :| n in t.up && n != a && BelongsTo(t, d', n, i, Edge(a, b));
      assert BelongsTo(t, d, n, i, Edge(a, b));
    }
    if Inner(t, d, a, b) {
      var n: Node, i: nat :| n in t.up && n != a && BelongsTo(t, d, n, i, Edge(a, b));
      assert BelongsTo(t, d', n, i, Edge(a, b));
    }
  }

  /** An entry that does not belong to an edge of `c` is replaced by one that does not either. */
  lemma RewrittenKeepsOthers(t: Ancestry, d: Dependencies, a: Node, i: nat, y: Node?, c: Node, b: Node)
    requires Valid(t) && StagesInPipelines(t) && Lists(t, d) && a in d && i < |d[a]| && c in d && c != a
    requires y != null ==> Proper(t, Edge(a, y)) && Lift(t, Edge(a, y)).source == a
    requires Lists(t, Rewritten(d, a, i, y))
    ensures KeptAt(t, d, Rewritten(d, a, i, y), c, b)
  {
    var d' := Rewritten(d, a, i, y);
    if Inner(t, d', c, b) {
      var n: Node, j: nat :| n in t.up && n != c && BelongsTo(t, d', n, j, Edge(c, b));
      assert BelongsTo(t, d, n, j, Edge(c, b));
    }
  }

  lemma RewrittenKeepsAll(t: Ancestry, d: Dependencies, a: Node, i: nat, y: Node?)
    requires Valid(t) && StagesInPipelines(t) && Lists(t, d) && a in d && i < |d[a]| && d[a][i] != null
    requires y != null ==> Proper(t, Edge(a, y))
    requires var e := Edge(a, d[a][i]);
      Proper(t, e) && Lift(t, e) != e && if y == null then Lift(t, e).source != a else Lift(t, e) == Edge(a, y)
    ensures Lists(t, Rewritten(d, a, i, y)) && Kept(t, d, Rewritten(d, a, i, y))
  {
    LiftTwice(t, Edge(a, d[a][i]));
    RewrittenKeeps(t, d, a, i, y, a);
    forall c: Node, b: Node | c in t.up && b in t.up ensures KeptAt(t, d, Rewritten(d, a, i, y), c, b) {
      if c == a {
        RewrittenKeeps(t, d, a, i, y, b);
      } else {
        RewrittenKeepsOthers(t, d, a, i, y, c, b);
      }
    }
  }

  lemma ExtendedKeeps(t: Ancestry, d: Dependencies, c: Node, x: Node, a: Node, b: Node)
    requires Valid(t) && StagesInPipelines(t) && Lists(t, d) && c in d && a in d && Lists(t, Extended(d, c, x))
    requires Proper(t, Edge(c, x)) && Lift(t, Edge(c, x)) == Edge(c, x) && Inner(t, d, c, x)
    ensures KeptAt(t, d, Extended(d, c, x), a, b)
  {
    var d' := Extended(d, c, x);
    assert ListOf(t, c, d[c]);
    if x !in d[c] {
      if a == c {
        OwnAppend(t, c, d[c], x, b);
        InnerOfOthers(t, d, d', c, b);
      } else if Inner(t, d', a, b) {
        var n: Node, j: nat :| n in t.up && n != a && BelongsTo(t, d', n, j, Edge(a, b));
        assert BelongsTo(t, d, n, j, Edge(a, b));
      }
    }
  }

  /** One corrected entry: no edge loses or gains an entry but for one that comes from a nested stage. */
  lemma CorrectedKeeps(t: Ancestry, d: Dependencies, a: Node, i: nat)
    requires Valid(t) && StagesInPipelines(t) && Lists(t, d) && a in d && i < |d[a]| && d[a][i] != null
    ensures Lists(t, Corrected(t, d, a, i)) && Kept(t, d, Corrected(t, d, a, i))
  {
    CorrectedEdges(t, d, a, i);
    assert ListOf(t, a, d[a]);
    var e := Edge(a, d[a][i]);
    var l := Lift(t, e);
    LiftTwice(t, e);
    if l == e {
    } else if l.source == a {
      RewrittenKeepsAll(t, d, a, i, l.sink);
    } else {
      var d1 := Extended(d, l.source, l.sink);
      ExtendedEdges(t, d, l.source, l.sink);
      assert BelongsTo(t, d, a, i, l);
      forall c: Node, b: Node | c in t.up && b in t.up ensures KeptAt(t, d, d1, c, b) {
        ExtendedKeeps(t, d, l.source, l.sink, c, b);
      }
      RewrittenKeepsAll(t, d1, a, i, null);
      KeptTwice(t, d, d1, Corrected(t, d, a, i));
    }
  }

  /** Removing blanks removes no entry. */
  lemma {:induction false} OwnPresent(t: Ancestry, a: Node, s: seq<Node?>, b: Node)
    requires Valid(t) && StagesInPipelines(t) && ListOf(t, a, s)
    ensures ListOf(t, a, Present(s)) && Own(t, a, Present(s), b) == Own(t, a, s, b)
    decreases |s|
  {
    if s != [] {
      var n := |s| - 1;
      ListOfInit(t, a, s);
      OwnPresent(t, a, s[..n], b);
      assert s == s[..n] + [s[n]];
      PresentJoin(s[..n], [s[n]]);
      assert [s[n]][1..] == [];
      if s[n] != null {
        OwnAppend(t, a, Present(s[..n]), s[n], b);
      } else {
        assert Present(s) == Present(s[..n]);
      }
    }
  }

  lemma BlanksKeep(t: Ancestry, d: Dependencies, a: Node)
    requires Valid(t) && StagesInPipelines(t) && Lists(t, d) && a in d && Lists(t, d[a := Present(d[a])])
    ensures Kept(t, d, d[a := Present(d[a])])
  {
    var d' := d[a := Present(d[a])];
    assert ListOf(t, a, d[a]);
    PresentElements(d[a]);
    forall c: Node, b: Node | c in t.up && b in t.up ensures KeptAt(t, d, d', c, b) {
      OwnPresent(t, a, d[a], b);
      if Inner(t, d', c, b) {
        var n: Node, j: nat :| n in t.up && n != c && BelongsTo(t, d', n, j, Edge(c, b));
        if n == a {
          assert d'[a][j] in d'[a];
          var k :| 0 <= k < |d[a]| && d[a][k] == d'[a][j];
          assert BelongsTo(t, d, a, k, Edge(c, b));
        } else {
          assert BelongsTo(t, d, n, j, Edge(c, b));
        }
      }
    }
  }

  /** No entry belongs to an edge that is not where it belongs itself. */
  lemma {:induction false} NotListed(t: Ancestry, a: Node, s: seq<Node?>, b: Node)
    requires Valid(t) && StagesInPipelines(t) && ListOf(t, a, s)
    requires !(Proper(t, Edge(a, b)) && Lift(t, Edge(a, b)) == Edge(a, b))
    ensures Own(t, a, s, b) == 0
    decreases |s|
  {
    if s != [] {
      ListOfInit(t, a, s);
      NotListed(t, a, s[..|s| - 1], b);
      if s[|s| - 1] != null {
        LiftTwice(t, Edge(a, s[|s| - 1]));
      }
    }
  }

  /** Where all entries are where they belong, an edge has as many entries as it is listed. */
  lemma {:induction false} OwnIsListed(t: Ancestry, a: Node, s: seq<Node?>, b: Node)
    requires Valid(t) && StagesInPipelines(t) && ListOf(t, a, s) && Settled(t, a, s)
    ensures Own(t, a, s, b) == multiset(s)[b]
    decreases |s|
  {
    if s != [] {
      var n := |s| - 1;
      ListOfInit(t, a, s);
      assert s == s[..n] + [s[n]];
      assert Settled(t, a, s[..n]) by {
        assert forall i :: 0 <= i < n ==> s[..n][i] == s[i];
      }
      OwnIsListed(t, a, s[..n], b);
    }
  }

  // ---------------------------------------------------------------------------------------------
  // The walk over the tree
  // ---------------------------------------------------------------------------------------------

  /** The nodes have the parents and the dependents that the maps say. */
  ghost predicate Shows(t: Ancestry, d: Dependencies)
    reads t.up.Keys
  {
    && Valid(t) && StagesInPipelines(t) && Lists(t, d)
    && (forall n :: n in t.up ==> n.parent == t.up[n])
    && forall n: Node :: n in d ==> n.dependencies == d[n]
  }

  ghost predicate DepthsOf(t: Ancestry, depths: map<Node, nat>)
    requires Valid(t)
  {
    forall p :: p in t.up && p.kind == Pipeline ==> p in depths && depths[p] == Depth(t, p)
  }

  /** The stage of `target` below which `start` is nested, found by climbing. */
  method FindStageAtPipeline(start: Node, target: Node, ghost t: Ancestry, ghost d: Dependencies) returns (s: Node?)
    requires Shows(t, d) && start in t.up
    ensures s == Enclosing(t, start, target)
  {
    s := start.parent;
    ghost var below := start;
    while s != null
      invariant below in t.up && s == t.up[below]
      invariant Enclosing(t, below, target) == Enclosing(t, start, target)
      decreases t.height[below]
    {
      if s.kind == Stage && s.parent == target {
        return;
      }
      below := s;
      s := s.parent;
    }
  }

  /** An entry that is not where it belongs is the first one for its stage. */
  lemma FirstEntry(t: Ancestry, a: Node, s: seq<Node?>, i: nat, b: Node, y: Node?)
    requires Valid(t) && StagesInPipelines(t) && i < |s| && s[i] == b && ListOf(t, a, s[..i]) && Settled(t, a, s[..i])
    requires Proper(t, Edge(a, b)) && Lift(t, Edge(a, b)) != Edge(a, b)
    ensures ReplaceFirst(s, b, y) == s[i := y]
  {
    forall j | 0 <= j < i
      ensures s[j] != b
    {
      assert s[..i][j] == s[j];
    }
    ReplaceFirstAt(s, i, b, y);
  }

  /** The entry of `a` for the deeper stage `b` is replaced by the stage around `b` in the pipeline `p` of `a`, if any. */
  method SinkOutwards(a: Node, b: Node, p: Node, ghost i: nat, ghost t: Ancestry, ghost d: Dependencies)
    requires Shows(t, d) && Ready(t, d, a, b, i) && p == t.up[a] && t.up[b] != p
    requires var below := Enclosing(t, b, p); Lift(t, Edge(a, b)) == if below == null then Edge(a, b) else Edge(a, below)
    modifies a`dependencies
    ensures forall n: Node :: n in d ==> n.dependencies == Corrected(t, d, a, i)[n]
  {
    var sink := FindStageAtPipeline(b, p, t, d);
    if sink != null {
      FirstEntry(t, a, d[a], i, b, sink);
      a.ReplaceDependency(b, sink);
    }
  }

  /** The entry of the deeper stage `a` for `b` moves to the stage around `a` in the pipeline `q` of `b`, if any. */
  method SourceOutwards(a: Node, b: Node, q: Node, ghost i: nat, ghost t: Ancestry, ghost d: Dependencies)
    requires Shows(t, d) && Ready(t, d, a, b, i) && q == t.up[b] && t.up[a] != q
    requires var above := Enclosing(t, a, q); Lift(t, Edge(a, b)) == if above == null then Edge(a, b) else Edge(above, b)
    modifies t.up.Keys`dependencies
    ensures forall n: Node :: n in d ==> n.dependencies == Corrected(t, d, a, i)[n]
  {
    var source := FindStageAtPipeline(a, q, t, d);
    if source != null {
      FirstEntry(t, a, d[a], i, b, null);
      if b !in source.dependencies {
        source.AddDependency(b);
      }
      a.NullifyDependency(b);
    }
  }

  /** Entry `i` of `a` is `b`, and the entries before it are settled. */
  ghost predicate Ready(t: Ancestry, d: Dependencies, a: Node, b: Node, i: nat)
    requires Valid(t) && StagesInPipelines(t) && Lists(t, d)
  {
    && a in d && i < |d[a]| && d[a][i] == b && Proper(t, Edge(a, b))
    && ListOf(t, a, d[a][..i]) && Settled(t, a, d[a][..i])
  }

  /** Corrects entry `i` of the list of `a`. */
  method CorrectEntry(a: Node, b: Node, depths: map<Node, nat>, ghost i: nat, ghost t: Ancestry, ghost d: Dependencies)
    requires Shows(t, d) && DepthsOf(t, depths) && Ready(t, d, a, b, i)
    modifies t.up.Keys`dependencies
    ensures forall n: Node :: n in d ==> n.dependencies == Corrected(t, d, a, i)[n]
  {
    var p: Node, q: Node := a.parent, b.parent;
    if p == q {
      return;
    }
    LiftByDepth(t, Edge(a, b));
    if depths[p] < depths[q] {
      SinkOutwards(a, b, p, i, t, d);
    } else if depths[p] > depths[q] {
      SourceOutwards(a, b, q, i, t, d);
    }
  }

  /** `d'` with the list of `a` corrected: all lists settled before still are, and the edges still belong where they did. */
  ghost predicate Progress(t: Ancestry, d: Dependencies, d': Dependencies, a: Node)
    requires Valid(t) && StagesInPipelines(t) && Lists(t, d) && Lists(t, d')
  {
    && (forall n :: n in d && n != a && Settled(t, n, d[n]) ==> Settled(t, n, d'[n]))
    && (forall n :: n in d && n != a && null !in d[n] ==> null !in d'[n])
    && SameHomes(t, Edges(t, d), Edges(t, d'))
  }

  ghost predicate SameHomes(t: Ancestry, es: set<Edge>, es': set<Edge>)
    requires Valid(t) && StagesInPipelines(t)
  {
    && (forall e :: e in es ==> Proper(t, e)) && (forall e :: e in es' ==> Proper(t, e))
    && Lifted(t, es) == Lifted(t, es')
  }

  lemma CorrectedProgress(t: Ancestry, d: Dependencies, a: Node, i: nat)
    requires Valid(t) && StagesInPipelines(t) && Lists(t, d) && a in d && i < |d[a]| && d[a][i] != null
    requires ListOf(t, a, d[a][..i]) && Settled(t, a, d[a][..i])
    ensures Lists(t, Corrected(t, d, a, i)) && Progress(t, d, Corrected(t, d, a, i), a)
  {
    CorrectedEdges(t, d, a, i);
    forall n | n in d && n != a
      ensures Settled(t, n, d[n]) ==> Settled(t, n, Corrected(t, d, a, i)[n])
      ensures null !in d[n] ==> null !in Corrected(t, d, a, i)[n]
    {
      CorrectedKeepsOther(t, d, a, i, n);
    }
  }

  lemma {:induction false} PresentElements(s: seq<Node?>)
    ensures forall x :: x in Present(s) <==> x in s && x != null
  {
    if s != [] {
      PresentElements(s[1..]);
      assert s == [s[0]] + s[1..];
    }
  }

  lemma PresentSettled(t: Ancestry, a: Node, s: seq<Node?>)
    requires Valid(t) && StagesInPipelines(t) && ListOf(t, a, s) && Settled(t, a, s)
    ensures ListOf(t, a, Present(s)) && Settled(t, a, Present(s)) && null !in Present(s)
  {
    PresentElements(s);
    var r := Present(s);
    forall i | 0 <= i < |r|
      ensures r[i] != null && Proper(t, Edge(a, r[i])) && Lift(t, Edge(a, r[i])) == Edge(a, r[i])
    {
      assert r[i] in r;
      var j :| 0 <= j < |s| && s[j] == r[i];
    }
  }

  /** Removing blanks removes no edge. */
  lemma RemovedBlanks(t: Ancestry, d: Dependencies, a: Node)
    requires Valid(t) && StagesInPipelines(t) && Lists(t, d) && a in d && ListOf(t, a, Present(d[a]))
    ensures var d' := d[a := Present(d[a])];
      Lists(t, d') && Edges(t, d') == Edges(t, d)
  {
    var d' := d[a := Present(d[a])];
    PresentElements(d[a]);
    forall n: Node | n in d'
      ensures ListOf(t, n, d'[n])
    {
      assert ListOf(t, n, d[n]);
    }
  }

  /** The first `i` entries of `a` have been corrected, starting from `d`. */
  ghost predicate Walked(t: Ancestry, d: Dependencies, d': Dependencies, a: Node, i: nat)
    requires Valid(t) && StagesInPipelines(t)
  {
    && Lists(t, d) && Lists(t, d') && a in d && i <= |d[a]| == |d'[a]| && d'[a][i..] == d[a][i..]
    && ListOf(t, a, d'[a][..i]) && Settled(t, a, d'[a][..i])
    && Progress(t, d, d', a) && Kept(t, d, d')
  }

  lemma WalkedStart(t: Ancestry, d: Dependencies, a: Node)
    requires Valid(t) && StagesInPipelines(t) && Lists(t, d) && a in d
    ensures Walked(t, d, d, a, 0)
  {
    EdgesProper(t, d);
  }

  lemma WalkedNext(t: Ancestry, d: Dependencies, d1: Dependencies, a: Node, i: nat)
    requires Valid(t) && StagesInPipelines(t) && Walked(t, d, d1, a, i) && i < |d[a]| && null !in d[a]
    ensures d1[a][i] == d[a][i] != null
    ensures Walked(t, d, Corrected(t, d1, a, i), a, i + 1)
  {
    assert d1[a][i] == d1[a][i..][0] == d[a][i..][0] == d[a][i] && d[a][i] in d[a];
    CorrectedSettles(t, d1, a, i);
    CorrectedProgress(t, d1, a, i);
    CorrectedKeeps(t, d1, a, i);
    KeptTwice(t, d, d1, Corrected(t, d1, a, i));
    assert d1[a][i + 1..] == d1[a][i..][1..] == d[a][i..][1..] == d[a][i + 1..];
  }

  lemma WalkedEnd(t: Ancestry, d: Dependencies, d1: Dependencies, a: Node)
    requires Valid(t) && StagesInPipelines(t) && Lists(t, d) && a in d && Walked(t, d, d1, a, |d[a]|)
    ensures var d' := d1[a := Present(d1[a])];
      Lists(t, d') && Progress(t, d, d', a) && Settled(t, a, d'[a]) && null !in d'[a] && Kept(t, d, d')
  {
    assert d1[a][..|d[a]|] == d1[a];
    PresentSettled(t, a, d1[a]);
    RemovedBlanks(t, d1, a);
    BlanksKeep(t, d1, a);
    KeptTwice(t, d, d1, d1[a := Present(d1[a])]);
  }

  method CorrectNext(a: Node, b: Node, depths: map<Node, nat>, ghost i: nat, ghost t: Ancestry, ghost d: Dependencies, ghost d1: Dependencies)
    returns (ghost d': Dependencies)
    requires Shows(t, d1) && DepthsOf(t, depths) && Walked(t, d, d1, a, i) && i < |d[a]| && null !in d[a] && b == d1[a][i]
    modifies t.up.Keys`dependencies
    ensures Shows(t, d') && Walked(t, d, d', a, i + 1)
  {
    WalkedNext(t, d, d1, a, i);
    assert ListOf(t, a, d1[a]);
    CorrectEntry(a, b, depths, i, t, d1);
    d' := Corrected(t, d1, a, i);
  }

  /** Corrects the list of `a` while walking it. */
  method WalkDependencies(a: Node, depths: map<Node, nat>, ghost t: Ancestry, ghost d: Dependencies)
    returns (ghost d': Dependencies)
    requires Shows(t, d) && DepthsOf(t, depths) && a in d && null !in d[a]
    modifies t.up.Keys`dependencies
    ensures Shows(t, d') && Walked(t, d, d', a, |d[a]|)
  {
    d' := d;
    WalkedStart(t, d, a);
    var i, size := 0, |a.dependencies|;
    while i < size
      invariant 0 <= i <= size == |d[a]| && Shows(t, d') && Walked(t, d, d', a, i)
    {
      WalkedNext(t, d, d', a, i);
      d' := CorrectNext(a, a.dependencies[i], depths, i, t, d, d');
      i := i + 1;
    }
  }

  /** Corrects the list of `a`, then removes the blanks. */
  method CorrectStage(a: Node, depths: map<Node, nat>, ghost t: Ancestry, ghost d: Dependencies)
    returns (ghost d': Dependencies)
    requires Shows(t, d) && DepthsOf(t, depths) && a in d && null !in d[a]
    modifies t.up.Keys`dependencies
    ensures Shows(t, d') && Progress(t, d, d', a) && Settled(t, a, d'[a]) && null !in d'[a] && Kept(t, d, d')
  {
    ghost var d1 := WalkDependencies(a, depths, t, d);
    WalkedEnd(t, d, d1, a);
    a.RemoveNullifiedDependencies();
    d' := d1[a := Present(d1[a])];
  }
}
