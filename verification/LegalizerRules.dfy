/**
 * The three shape rules of pipeline trees and what each repair does to the child lists. Everything
 * here is about maps from nodes to child lists; the repairs on the linked nodes follow this module.
 */
module LegalizerRules {
  import opened Sequences
  import opened OperationTree
  import opened TreeShape

  // ---------------------------------------------------------------------------------------------
  // The rules
  // ---------------------------------------------------------------------------------------------

  /** Only private nodes and stages may sit directly in a pipeline. */
  predicate LegalInPipeline(n: Node) {
    n.kind == Private || n.kind == Stage
  }

  function IllegalCount(s: seq<Node>): nat {
    if s == [] then 0 else (if LegalInPipeline(s[0]) then 0 else 1) + IllegalCount(s[1..])
  }

  function Stages(s: seq<Node>): seq<Node> {
    if s == [] then [] else (if s[0].kind == Stage then [s[0]] else []) + Stages(s[1..])
  }

  function Others(s: seq<Node>): seq<Node> {
    if s == [] then [] else (if s[0].kind == Stage then [] else [s[0]]) + Others(s[1..])
  }

  /** Number of nodes before the first stage. */
  function Lead(s: seq<Node>): (n: nat)
    ensures n <= |s|
  {
    if s == [] || s[0].kind == Stage then 0 else 1 + Lead(s[1..])
  }

  datatype Outcome = Violated | Clean | Hangs

  /** The scan for a stage with dependents, which does not get past a child that is no stage. */
  function ScanStages(s: seq<Node>, withDeps: set<Node>): Outcome {
    if s == [] then Clean
    else if s[0].kind != Stage then Hangs
    else if s[0] in withDeps then Violated
    else ScanStages(s[1..], withDeps)
  }

  function PrivateScan(s: seq<Node>, withDeps: set<Node>): Outcome {
    if s != [] && s[0].kind == Private then Clean else ScanStages(s, withDeps)
  }

  /** `steps` passes of the scanning loop from child `i` on; `None` while it is still running. */
  function RunScan(s: seq<Node>, withDeps: set<Node>, i: nat, steps: nat): Option<bool>
    decreases steps
  {
    if i >= |s| then Some(false)
    else if steps == 0 then None
    else if s[i].kind != Stage then RunScan(s, withDeps, i, steps - 1)
    else if s[i] in withDeps then Some(true)
    else RunScan(s, withDeps, i + 1, steps - 1)
  }

  /** The loop ends within one pass for each child, with the right answer, unless it meets a child that is no stage. */
  lemma {:induction false} ScanEnds(s: seq<Node>, withDeps: set<Node>, i: nat)
    requires i <= |s| && ScanStages(s[i..], withDeps) != Hangs
    ensures RunScan(s, withDeps, i, |s| - i) == Some(ScanStages(s[i..], withDeps) == Violated)
    decreases |s| - i
  {
    if i < |s| {
      assert s[i..][0] == s[i] && s[i..][1..] == s[i + 1..];
      if s[i] !in withDeps {
        ScanEnds(s, withDeps, i + 1);
      }
    }
  }

  lemma {:induction false} ScanHangs(s: seq<Node>, withDeps: set<Node>, i: nat, steps: nat)
    requires i <= |s| && ScanStages(s[i..], withDeps) == Hangs
    ensures RunScan(s, withDeps, i, steps) == None
    decreases steps
  {
    assert s[i..][0] == s[i] && s[i..][1..] == s[i + 1..];
    if steps > 0 {
      if s[i].kind != Stage {
        ScanHangs(s, withDeps, i, steps - 1);
      } else {
        ScanHangs(s, withDeps, i + 1, steps - 1);
      }
    }
  }

  /** The scan of a child list never returns exactly when a child that is no stage precedes every stage with dependents. */
  lemma ScanReturnsIffReachable(s: seq<Node>, withDeps: set<Node>)
    ensures (forall steps: nat :: RunScan(s, withDeps, 0, steps) == None) <==> ScanStages(s, withDeps) == Hangs
    ensures ScanStages(s, withDeps) == Hangs <==>
      exists k :: 0 <= k < |s| && s[k].kind != Stage && forall j :: 0 <= j < k ==> s[j].kind == Stage && s[j] !in withDeps
  {
    assert s[0..] == s;
    if ScanStages(s, withDeps) == Hangs {
      forall steps: nat
        ensures RunScan(s, withDeps, 0, steps) == None
      {
        ScanHangs(s, withDeps, 0, steps);
      }
    } else {
      ScanEnds(s, withDeps, 0);
    }
    HangingChild(s, withDeps);
  }

  lemma {:induction false} HangingChild(s: seq<Node>, withDeps: set<Node>)
    ensures ScanStages(s, withDeps) == Hangs <==>
      exists k :: 0 <= k < |s| && s[k].kind != Stage && forall j :: 0 <= j < k ==> s[j].kind == Stage && s[j] !in withDeps
  {
    if s != [] && s[0].kind == Stage && s[0] !in withDeps {
      var t := s[1..];
      HangingChild(t, withDeps);
      if k :| 0 <= k < |t| && t[k].kind != Stage && forall j :: 0 <= j < k ==> t[j].kind == Stage && t[j] !in withDeps {
        assert s[k + 1].kind != Stage;
        forall j | 0 <= j < k + 1
          ensures s[j].kind == Stage && s[j] !in withDeps
        {
          if j > 0 {
            assert s[j] == t[j - 1];
          }
        }
      }
      if k :| 0 <= k < |s| && s[k].kind != Stage && forall j :: 0 <= j < k ==> s[j].kind == Stage && s[j] !in withDeps {
        assert t[k - 1].kind != Stage;
        assert forall j :: 0 <= j < k - 1 ==> t[j] == s[j + 1];
      }
    } else if s != [] && s[0].kind != Stage {
      assert s[0].kind != Stage;
    }
  }

  /** What is wrong with the child list `s` of `n`: illegal children, a missing private node, or misplaced stages counted twice. */
  function ListWeight(n: Node, s: seq<Node>, withDeps: set<Node>): nat {
    if n.kind == Pipeline then IllegalCount(s) + if PrivateScan(s, withDeps) == Violated then 1 else 0
    else 2 * |Stages(s)|
  }

  ghost function TotalWeight(kids: Children, withDeps: set<Node>, nodes: set<Node>): nat
    requires nodes <= kids.Keys
  {
    if nodes == {} then 0
    else
      var n :| n in nodes;
      ListWeight(n, kids[n], withDeps) + TotalWeight(kids, withDeps, nodes - {n})
  }

  /** No pipeline sends the scan for dependents into a loop. */
  ghost predicate Scannable(kids: Children, withDeps: set<Node>) {
    forall n :: n in kids && n.kind == Pipeline ==> PrivateScan(kids[n], withDeps) != Hangs
  }

  /** Pipelines that begin with a private node or hold stages only are scannable. */
  lemma {:induction false} PrivateFirstOrStagesOnly(s: seq<Node>, withDeps: set<Node>)
    requires (s != [] && s[0].kind == Private) || forall c :: c in s ==> c.kind == Stage
    ensures PrivateScan(s, withDeps) != Hangs
  {
    if s != [] && s[0].kind == Stage {
      PrivateFirstOrStagesOnly(s[1..], withDeps);
    }
  }

  lemma {:induction false} WeightSplit(kids: Children, withDeps: set<Node>, nodes: set<Node>, n: Node)
    requires nodes <= kids.Keys && n in nodes
    ensures TotalWeight(kids, withDeps, nodes) ==
      ListWeight(n, kids[n], withDeps) + TotalWeight(kids, withDeps, nodes - {n})
    decreases |nodes|
  {
    var m :| m in nodes && TotalWeight(kids, withDeps, nodes) ==
      ListWeight(m, kids[m], withDeps) + TotalWeight(kids, withDeps, nodes - {m});
    if m != n {
      WeightSplit(kids, withDeps, nodes - {m}, n);
      WeightSplit(kids, withDeps, nodes - {n}, m);
      assert nodes - {m} - {n} == nodes - {n} - {m};
    }
  }

  lemma {:induction false} WeightSame(kids: Children, kids': Children, withDeps: set<Node>, nodes: set<Node>)
    requires nodes <= kids.Keys && nodes <= kids'.Keys && forall n :: n in nodes ==> kids[n] == kids'[n]
    ensures TotalWeight(kids, withDeps, nodes) == TotalWeight(kids', withDeps, nodes)
    decreases |nodes|
  {
    if nodes != {} {
      var n :| n in nodes;
      WeightSplit(kids, withDeps, nodes, n);
      WeightSplit(kids', withDeps, nodes, n);
      WeightSame(kids, kids', withDeps, nodes - {n});
    }
  }

  /**
   * The rules for the children of one node: a pipeline has private nodes and stages only, and a private one
   * first unless it has only stages without dependents; no other node has stages.
   */
  ghost predicate RulesHoldAt(n: Node, s: seq<Node>, withDeps: set<Node>) {
    if n.kind == Pipeline then
      && (forall c :: c in s ==> c.kind == Private || c.kind == Stage)
      && ((s != [] && s[0].kind == Private) || forall c :: c in s ==> c.kind == Stage && c !in withDeps)
    else forall c :: c in s ==> c.kind != Stage
  }

  ghost predicate RulesHold(kids: Children, withDeps: set<Node>) {
    forall n :: n in kids ==> RulesHoldAt(n, kids[n], withDeps)
  }

  lemma {:induction false} CountsAreRules(s: seq<Node>, withDeps: set<Node>)
    ensures IllegalCount(s) == 0 <==> forall c :: c in s ==> c.kind == Private || c.kind == Stage
    ensures Stages(s) == [] <==> forall c :: c in s ==> c.kind != Stage
    ensures ScanStages(s, withDeps) == Clean <==> forall c :: c in s ==> c.kind == Stage && c !in withDeps
  {
    if s != [] {
      CountsAreRules(s[1..], withDeps);
      assert s == [s[0]] + s[1..];
    }
  }

  /** Where the scan returns, a list weighs nothing exactly when the rules hold for it. */
  lemma NoWeightIffRules(n: Node, s: seq<Node>, withDeps: set<Node>)
    requires n.kind == Pipeline ==> PrivateScan(s, withDeps) != Hangs
    ensures ListWeight(n, s, withDeps) == 0 <==> RulesHoldAt(n, s, withDeps)
  {
    CountsAreRules(s, withDeps);
  }

  lemma {:induction false} ZeroSum(kids: Children, withDeps: set<Node>, nodes: set<Node>)
    requires nodes <= kids.Keys
    ensures TotalWeight(kids, withDeps, nodes) == 0 <==> forall n :: n in nodes ==> ListWeight(n, kids[n], withDeps) == 0
    decreases |nodes|
  {
    if nodes != {} {
      var n :| n in nodes;
      WeightSplit(kids, withDeps, nodes, n);
      ZeroSum(kids, withDeps, nodes - {n});
    }
  }

  /** A forest in which all scans return weighs nothing exactly when the rules hold. */
  lemma NoWeightNoViolation(kids: Children, withDeps: set<Node>)
    requires Scannable(kids, withDeps)
    ensures TotalWeight(kids, withDeps, kids.Keys) == 0 <==> RulesHold(kids, withDeps)
  {
    ZeroSum(kids, withDeps, kids.Keys);
    forall n | n in kids ensures ListWeight(n, kids[n], withDeps) == 0 <==> RulesHoldAt(n, kids[n], withDeps) {
      NoWeightIffRules(n, kids[n], withDeps);
    }
  }

  // ---------------------------------------------------------------------------------------------
  // Putting one fresh node between a node and some of its children
  // ---------------------------------------------------------------------------------------------

  /** Children `v` of `n` move below the fresh node `f`, which joins the others in the list `u`. */
  ghost predicate Regroups(s: seq<Node>, u: seq<Node>, f: Node, v: seq<Node>) {
    && NoDup(u) && NoDup(v) && f !in s
    && (forall c :: c in v ==> c in s)
    && f in u && (forall c :: c in u ==> c == f || (c in s && c !in v))
    && (forall c :: c in s && c !in v ==> c in u)
  }

  ghost function Regrouped(kids: Children, n: Node, u: seq<Node>, f: Node, v: seq<Node>): Children {
    kids[n := u][f := v]
  }

  lemma RegroupShape(kids: Children, n: Node, u: seq<Node>, f: Node, v: seq<Node>)
    requires Shape(kids) && n in kids && f !in kids && Regroups(kids[n], u, f, v)
    ensures Shape(Regrouped(kids, n, u, f, v))
  {
    var kids' := Regrouped(kids, n, u, f, v);
    forall a, b, c | a in kids' && b in kids' && c in kids'[a] && c in kids'[b]
      ensures a == b
    {
      if c != f {
        var x: Node := if a == f then n else a;
        var y: Node := if b == f then n else b;
        assert c in kids[x] && c in kids[y];
      }
    }
  }

  ghost function Spread(rank: map<Node, nat>, n: Node, f: Node): map<Node, nat>
    requires n in rank
  {
    (map m | m in rank :: 2 * rank[m] + 2)[f := 2 * rank[n] + 1]
  }

  lemma RegroupRanked(kids: Children, rank: map<Node, nat>, n: Node, u: seq<Node>, f: Node, v: seq<Node>)
    requires Ranked(kids, rank) && n in kids && f !in kids && Regroups(kids[n], u, f, v)
    ensures Ranked(Regrouped(kids, n, u, f, v), Spread(rank, n, f))
  {
    var kids', rank' := Regrouped(kids, n, u, f, v), Spread(rank, n, f);
    assert rank'.Keys == kids'.Keys;
    forall m, c | m in kids' && c in kids'[m]
      ensures c in kids' && rank'[c] < rank'[m]
    {
      if c != f {
        assert c in kids[if m == f then n else m];
      }
    }
  }

  lemma RegroupRooted(kids: Children, root: Node, n: Node, u: seq<Node>, f: Node, v: seq<Node>)
    requires Rooted(kids, root) && n in kids && f !in kids && Regroups(kids[n], u, f, v)
    ensures Rooted(Regrouped(kids, n, u, f, v), root)
  {
    var kids' := Regrouped(kids, n, u, f, v);
    forall c | c in kids' && c != root
      ensures HasParent(kids', c)
    {
      if c == f {
        assert f in kids'[n];
      } else {
        assert HasParent(kids, c);
        var m: Node :| m in kids && c in kids[m];
        assert c in kids'[if m == n && c in v then f else m];
      }
    }
  }

  /** The total changes by what the two lists involved weigh. */
  lemma RegroupWeight(kids: Children, withDeps: set<Node>, n: Node, u: seq<Node>, f: Node, v: seq<Node>)
    requires n in kids && f !in kids
    ensures var kids' := Regrouped(kids, n, u, f, v);
      TotalWeight(kids', withDeps, kids'.Keys) + ListWeight(n, kids[n], withDeps) ==
        TotalWeight(kids, withDeps, kids.Keys) + ListWeight(n, u, withDeps) + ListWeight(f, v, withDeps)
  {
    var kids' := Regrouped(kids, n, u, f, v);
    var others := kids.Keys - {n};
    WeightSplit(kids, withDeps, kids.Keys, n);
    WeightSplit(kids', withDeps, kids'.Keys, f);
    WeightSplit(kids', withDeps, kids'.Keys - {f}, n);
    assert kids'.Keys - {f} - {n} == others;
    WeightSame(kids, kids', withDeps, others);
  }

  // ---------------------------------------------------------------------------------------------
  // The three repairs
  // ---------------------------------------------------------------------------------------------

  lemma {:induction false} IllegalJoin(s: seq<Node>, t: seq<Node>)
    ensures IllegalCount(s + t) == IllegalCount(s) + IllegalCount(t)
  {
    if s == [] {
      assert s + t == t;
    } else {
      assert (s + t)[0] == s[0] && (s + t)[1..] == s[1..] + t;
      IllegalJoin(s[1..], t);
    }
  }

  lemma StagesFirst(c: Node, s: seq<Node>)
    ensures Stages([c] + s) == (if c.kind == Stage then [c] else []) + Stages(s)
  {
    assert ([c] + s)[1..] == s;
  }

  lemma {:induction false} StagesJoin(s: seq<Node>, t: seq<Node>)
    ensures Stages(s + t) == Stages(s) + Stages(t)
  {
    if s == [] {
      assert s + t == t;
    } else {
      StagesJoin(s[1..], t);
      StagesFirst(s[0], s[1..]);
      StagesFirst(s[0], s[1..] + t);
      assert s == [s[0]] + s[1..] && s + t == [s[0]] + (s[1..] + t);
    }
  }

  lemma {:induction false} OthersJoin(s: seq<Node>, t: seq<Node>)
    ensures Others(s + t) == Others(s) + Others(t)
  {
    if s == [] {
      assert s + t == t;
    } else {
      assert (s + t)[0] == s[0] && (s + t)[1..] == s[1..] + t;
      OthersJoin(s[1..], t);
    }
  }

  lemma {:induction false} SplitFacts(s: seq<Node>)
    ensures forall c :: c in Stages(s) ==> c in s && c.kind == Stage
    ensures forall c :: c in Others(s) ==> c in s && c.kind != Stage
    ensures forall c :: c in s ==> if c.kind == Stage then c in Stages(s) else c in Others(s)
    ensures NoDup(s) ==> NoDup(Stages(s)) && NoDup(Others(s))
    ensures |Stages(s)| + |Others(s)| == |s|
  {
    if s != [] {
      SplitFacts(s[1..]);
      if NoDup(s) {
        assert s[0] !in s[1..];
      }
    }
  }

  lemma {:induction false} LeadStage(s: seq<Node>)
    ensures Lead(s) < |s| <==> Stages(s) != []
    ensures Lead(s) < |s| ==> s[Lead(s)].kind == Stage
    ensures forall i :: 0 <= i < Lead(s) ==> s[i].kind != Stage
  {
    if s != [] {
      LeadStage(s[1..]);
    }
  }

  lemma {:induction false} LeadFacts(s: seq<Node>)
    ensures Lead(s) <= |Others(s)| && Others(s)[..Lead(s)] == s[..Lead(s)]
  {
    if s != [] && s[0].kind != Stage {
      LeadFacts(s[1..]);
      assert Others(s) == [s[0]] + Others(s[1..]);
    }
  }

  lemma {:induction false} AllIllegal(s: seq<Node>)
    requires forall c :: c in s ==> !LegalInPipeline(c)
    ensures IllegalCount(s) == |s| && Stages(s) == [] && Others(s) == s
  {
    if s != [] {
      AllIllegal(s[1..]);
    }
  }

  /** A scan that succeeds does so before the first child that is no stage, whatever follows. */
  lemma {:induction false} ScanPrefix(s: seq<Node>, a: nat, t: seq<Node>, withDeps: set<Node>)
    requires a < |s| && s[a].kind != Stage && ScanStages(s, withDeps) != Hangs
    ensures ScanStages(s, withDeps) == Violated && ScanStages(s[..a] + t, withDeps) == Violated
  {
    if s[0] !in withDeps {
      ScanPrefix(s[1..], a - 1, t, withDeps);
      assert (s[..a] + t)[1..] == s[1..][..a - 1] + t;
    }
  }

  ghost predicate IllegalRun(s: seq<Node>, a: nat, b: nat) {
    a < b <= |s| && forall i :: a <= i < b ==> !LegalInPipeline(s[i])
  }

  ghost function WrappedList(s: seq<Node>, a: nat, b: nat, f: Node): seq<Node>
    requires a <= b <= |s|
  {
    s[..a] + [f] + s[b..]
  }

  lemma WrapRegroups(s: seq<Node>, a: nat, b: nat, f: Node)
    requires NoDup(s) && f !in s && a < b <= |s|
    ensures Regroups(s, WrappedList(s, a, b, f), f, s[a..b])
  {
    var u, v := WrappedList(s, a, b, f), s[a..b];
    forall i, j | 0 <= i < j < |u|
      ensures u[i] != u[j]
    {
      assert u[i] == if i < a then s[i] else if i == a then f else s[i - a - 1 + b];
      assert u[j] == if j < a then s[j] else if j == a then f else s[j - a - 1 + b];
    }
    assert forall j :: a <= j < b ==> s[j] == v[j - a];
    forall c | c in s && c !in v
      ensures c in u
    {
      var i := Place(s, c);
      assert c == u[if i < a then i else i - b + a + 1];
    }
    forall c | c in u
      ensures c == f || (c in s && c !in v)
    {
      var i := Place(u, c);
      assert c == if i < a then s[i] else if i == a then f else s[i - a - 1 + b];
    }
  }

  lemma WrapCounts(s: seq<Node>, a: nat, b: nat, f: Node)
    requires f.kind == Stage && IllegalRun(s, a, b)
    ensures IllegalCount(WrappedList(s, a, b, f)) + (b - a) == IllegalCount(s)
    ensures Stages(s[a..b]) == []
  {
    var v := s[a..b];
    assert forall i :: 0 <= i < |v| ==> v[i] == s[a + i];
    AllIllegal(v);
    IllegalJoin(s[..a], v);
    IllegalJoin(s[..a] + v, s[b..]);
    assert s == s[..a] + v + s[b..];
    IllegalJoin(s[..a], [f]);
    IllegalJoin(s[..a] + [f], s[b..]);
  }

  lemma WrapScans(s: seq<Node>, a: nat, b: nat, f: Node, withDeps: set<Node>)
    requires IllegalRun(s, a, b) && PrivateScan(s, withDeps) != Hangs
    ensures a > 0 && PrivateScan(WrappedList(s, a, b, f), withDeps) == PrivateScan(s, withDeps)
  {
    if s[0].kind != Private {
      ScanPrefix(s, a, [f] + s[b..], withDeps);
      assert WrappedList(s, a, b, f) == s[..a] + ([f] + s[b..]);
    }
  }

  /** Wrapping a run of illegal children in a fresh stage removes them from the count and leaves the scan as it was. */
  lemma WrapWeighs(n: Node, s: seq<Node>, a: nat, b: nat, f: Node, withDeps: set<Node>)
    requires n.kind == Pipeline && f.kind == Stage
    requires IllegalRun(s, a, b) && PrivateScan(s, withDeps) != Hangs
    ensures ListWeight(n, WrappedList(s, a, b, f), withDeps) + (b - a) == ListWeight(n, s, withDeps)
    ensures ListWeight(f, s[a..b], withDeps) == 0
  {
    WrapCounts(s, a, b, f);
    WrapScans(s, a, b, f, withDeps);
  }

  /** Where the nested pipeline goes among the children that are no stages: before the stages, or last if they came first. */
  function NestPlace(s: seq<Node>): (k: nat)
    requires Stages(s) != []
    ensures k <= |Others(s)|
  {
    LeadFacts(s);
    if Lead(s) == 0 then |Others(s)| else Lead(s)
  }

  ghost function NestedList(s: seq<Node>, f: Node): seq<Node>
    requires Stages(s) != []
  {
    Insert(Others(s), NestPlace(s), f)
  }

  lemma InsertElements(t: seq<Node>, k: nat, f: Node)
    requires NoDup(t) && f !in t && k <= |t|
    ensures NoDup(Insert(t, k, f)) && f in Insert(t, k, f)
    ensures forall c :: c in Insert(t, k, f) ==> c == f || c in t
    ensures forall c :: c in t ==> c in Insert(t, k, f)
  {
    var u := Insert(t, k, f);
    assert u[k] == f;
    forall c | c in t
      ensures c in u
    {
      var i := Place(t, c);
      assert c == u[if i < k then i else i + 1];
    }
  }

  lemma NestRegroups(s: seq<Node>, f: Node)
    requires NoDup(s) && f !in s && Stages(s) != []
    ensures Regroups(s, NestedList(s, f), f, Stages(s))
  {
    SplitFacts(s);
    InsertElements(Others(s), NestPlace(s), f);
  }

  /** Nesting the stages of a node that is no pipeline costs at most a missing private node. */
  lemma NestWeighs(n: Node, s: seq<Node>, f: Node, withDeps: set<Node>)
    requires n.kind != Pipeline && f.kind == Pipeline && Stages(s) != []
    ensures Stages(NestedList(s, f)) == []
    ensures PrivateScan(Stages(s), withDeps) != Hangs
    ensures ListWeight(n, NestedList(s, f), withDeps) + ListWeight(f, Stages(s), withDeps) < ListWeight(n, s, withDeps)
  {
    SplitFacts(s);
    var t, k := Others(s), NestPlace(s);
    NoStages(t[..k]);
    NoStages(t[k..]);
    StagesJoin(t[..k], [f]);
    StagesJoin(t[..k] + [f], t[k..]);
    PrivateFirstOrStagesOnly(Stages(s), withDeps);
    OnlyStages(Stages(s));
  }

  lemma {:induction false} NoStages(s: seq<Node>)
    requires forall c :: c in s ==> c.kind != Stage
    ensures Stages(s) == [] && Others(s) == s
  {
    if s != [] {
      NoStages(s[1..]);
    }
  }

  lemma {:induction false} OnlyStages(s: seq<Node>)
    requires forall c :: c in s ==> c.kind == Stage
    ensures IllegalCount(s) == 0 && Stages(s) == s
  {
    if s != [] {
      OnlyStages(s[1..]);
    }
  }

  /** A private node in front ends the violation it was missing for. */
  lemma PrivateWeighs(n: Node, s: seq<Node>, f: Node, withDeps: set<Node>)
    requires n.kind == Pipeline && f.kind == Private && PrivateScan(s, withDeps) == Violated
    ensures PrivateScan([f] + s, withDeps) == Clean
    ensures ListWeight(n, [f] + s, withDeps) + ListWeight(f, [], withDeps) + 1 == ListWeight(n, s, withDeps)
  {
    assert ([f] + s)[1..] == s;
  }

  // ---------------------------------------------------------------------------------------------
  // The order that survives
  // ---------------------------------------------------------------------------------------------

  /** The children of `n` in the order in which they leave the legalizer. */
  ghost function Arranged(n: Node, s: seq<Node>): seq<Node> {
    if n.kind == Pipeline || Stages(s) == [] then s
    else Others(s)[..NestPlace(s)] + Stages(s) + Others(s)[NestPlace(s)..]
  }

  lemma ArrangedElements(n: Node, s: seq<Node>)
    ensures forall c :: c in Arranged(n, s) ==> c in s
    ensures forall c :: c in s ==> c in Arranged(n, s)
  {
    SplitFacts(s);
    if n.kind != Pipeline && Stages(s) != [] {
      var t, k := Others(s), NestPlace(s);
      forall c | c in t
        ensures c in Arranged(n, s)
      {
        var i := Place(t, c);
        assert c == if i < k then t[..k][i] else t[k..][i - k];
      }
    }
  }

  /** The stages of `s` are neighbours, with something before them or nothing after them. */
  predicate Tidy(s: seq<Node>) {
    var a, b := Lead(s), Lead(s) + |Stages(s)|;
    b <= |s| && s[a..b] == Stages(s) && (a > 0 || b == |s|)
  }

  lemma TidyStays(s: seq<Node>)
    requires Stages(s) != [] && Tidy(s)
    ensures Others(s)[..NestPlace(s)] + Stages(s) + Others(s)[NestPlace(s)..] == s
  {
    var a, b := Lead(s), Lead(s) + |Stages(s)|;
    LeadFacts(s);
    LeadStage(s);
    SplitFacts(s);
    var head, mid, tail := s[..a], s[a..b], s[b..];
    assert s == head + mid + tail;
    StagesJoin(head, mid);
    StagesJoin(head + mid, tail);
    OthersJoin(head, mid);
    OthersJoin(head + mid, tail);
    NoStages(head);
    OnlyStages(mid);
    OnlyStagesOthers(mid);
    assert Stages(tail) == [];
    StagelessTail(tail);
    assert Others(s) == head + tail;
  }

  lemma {:induction false} NoneLead(front: seq<Node>, rest: seq<Node>)
    requires forall c :: c in front ==> c.kind != Stage
    ensures Lead(front + rest) >= |front|
  {
    if front != [] {
      assert (front + rest)[1..] == front[1..] + rest;
      NoneLead(front[1..], rest);
    }
  }

  lemma StaysIsTidy(s: seq<Node>)
    requires Stages(s) != []
    requires Others(s)[..NestPlace(s)] + Stages(s) + Others(s)[NestPlace(s)..] == s
    ensures Tidy(s)
  {
    LeadFacts(s);
    LeadStage(s);
    SplitFacts(s);
    var t, k := Others(s), NestPlace(s);
    if Lead(s) > 0 {
      assert s[k..k + |Stages(s)|] == Stages(s);
    } else {
      NoneLead(t, Stages(s));
      assert s == Stages(s) && s[0..|Stages(s)|] == Stages(s);
    }
  }

  /** Nothing moves exactly when the stages are neighbours, with something before them or nothing after them. */
  lemma ArrangedIsSameIff(n: Node, s: seq<Node>)
    requires n.kind != Pipeline && Stages(s) != []
    ensures Arranged(n, s) == s <==> Tidy(s)
  {
    if Tidy(s) {
      TidyStays(s);
    }
    if Arranged(n, s) == s {
      StaysIsTidy(s);
    }
  }

  lemma {:induction false} StagelessTail(s: seq<Node>)
    requires Stages(s) == []
    ensures Others(s) == s
  {
    if s != [] {
      StagelessTail(s[1..]);
    }
  }

  lemma {:induction false} OnlyStagesOthers(s: seq<Node>)
    requires forall c :: c in s ==> c.kind == Stage
    ensures Others(s) == []
  {
    if s != [] {
      OnlyStagesOthers(s[1..]);
    }
  }

  /** Pre-order of the nodes in `orig`, with the children of every node arranged. */
  ghost function Order(kids: Children, rank: map<Node, nat>, orig: set<Node>, n: Node): seq<Node>
    requires Ranked(kids, rank) && n in kids
    decreases rank[n], 1, 0
  {
    (if n in orig then [n] else []) + OrderAll(kids, rank, orig, rank[n], ArrangedChildren(kids, rank, n))
  }

  ghost function OrderAll(kids: Children, rank: map<Node, nat>, orig: set<Node>, bound: nat, s: seq<Node>): seq<Node>
    requires Ranked(kids, rank) && forall c :: c in s ==> c in kids && rank[c] < bound
    decreases bound, 0, |s|
  {
    if s == [] then [] else Order(kids, rank, orig, s[0]) + OrderAll(kids, rank, orig, bound, s[1..])
  }

  /** `s` with `f` replaced by the list `v`. */
  ghost function Expand(s: seq<Node>, f: Node, v: seq<Node>): seq<Node> {
    if s == [] then [] else (if s[0] == f then v else [s[0]]) + Expand(s[1..], f, v)
  }

  lemma {:induction false} ExpandAbsent(s: seq<Node>, f: Node, v: seq<Node>)
    requires f !in s
    ensures Expand(s, f, v) == s
  {
    if s != [] {
      ExpandAbsent(s[1..], f, v);
    }
  }

  lemma {:induction false} ExpandOne(x: seq<Node>, f: Node, y: seq<Node>, v: seq<Node>)
    requires f !in x && f !in y
    ensures Expand(x + [f] + y, f, v) == x + v + y
  {
    if x == [] {
      assert x + [f] + y == [f] + y;
      assert ([f] + y)[1..] == y;
      ExpandAbsent(y, f, v);
    } else {
      assert (x + [f] + y)[1..] == x[1..] + [f] + y;
      ExpandOne(x[1..], f, y, v);
    }
  }

  /** Looking through the fresh node `f`, every node has the arranged children it had before. */
  ghost predicate LooksSame(kids: Children, kids': Children, f: Node) {
    && f !in kids && kids'.Keys == kids.Keys + {f}
    && (forall c :: c in kids'[f] ==> c in kids)
    && forall n :: n in kids ==>
      Expand(Arranged(n, kids'[n]), f, Arranged(f, kids'[f])) == Arranged(n, kids[n])
  }

  /** Then the surviving order is the one before. */
  lemma {:induction false} OrderKept(
      kids: Children, rank: map<Node, nat>, kids': Children, rank': map<Node, nat>, orig: set<Node>, f: Node, n: Node)
    requires Ranked(kids, rank) && Ranked(kids', rank') && LooksSame(kids, kids', f)
    requires n in kids && f !in orig
    ensures Order(kids', rank', orig, n) == Order(kids, rank, orig, n)
    decreases rank'[n], 1, 0
  {
    var s, s' := ArrangedChildren(kids, rank, n), ArrangedChildren(kids', rank', n);
    OrderAllKept(kids, rank, kids', rank', orig, f, rank[n], rank'[n], s, s');
  }

  ghost function ArrangedChildren(kids: Children, rank: map<Node, nat>, n: Node): (s: seq<Node>)
    requires Ranked(kids, rank) && n in kids
    ensures s == Arranged(n, kids[n]) && forall c :: c in s ==> c in kids && rank[c] < rank[n]
  {
    ArrangedElements(n, kids[n]);
    Arranged(n, kids[n])
  }

  lemma {:induction false} OrderAllKept(
      kids: Children, rank: map<Node, nat>, kids': Children, rank': map<Node, nat>, orig: set<Node>, f: Node,
      bound: nat, bound': nat, s: seq<Node>, s': seq<Node>)
    requires Ranked(kids, rank) && Ranked(kids', rank') && LooksSame(kids, kids', f) && f !in orig
    requires forall c :: c in s ==> c in kids && rank[c] < bound
    requires forall c :: c in s' ==> c in kids' && rank'[c] < bound'
    requires s == Expand(s', f, Arranged(f, kids'[f]))
    ensures OrderAll(kids', rank', orig, bound', s') == OrderAll(kids, rank, orig, bound, s)
    decreases bound', 0, |s'|
  {
    if s' != [] {
      var rest := Expand(s'[1..], f, Arranged(f, kids'[f]));
      if s'[0] == f {
        var v := Arranged(f, kids'[f]);
        assert s == v + rest;
        OrderAllJoin(kids, rank, orig, bound, v, rest);
        FreshOrderKept(kids, rank, kids', rank', orig, f, bound, v);
      } else {
        assert s == [s'[0]] + rest && s[1..] == rest;
        OrderKept(kids, rank, kids', rank', orig, f, s'[0]);
      }
      OrderAllKept(kids, rank, kids', rank', orig, f, bound, bound', rest, s'[1..]);
    }
  }

  lemma {:induction false} FreshOrderKept(
      kids: Children, rank: map<Node, nat>, kids': Children, rank': map<Node, nat>, orig: set<Node>, f: Node,
      bound: nat, v: seq<Node>)
    requires Ranked(kids, rank) && Ranked(kids', rank') && LooksSame(kids, kids', f) && f !in orig
    requires v == Arranged(f, kids'[f]) && forall c :: c in v ==> c in kids && rank[c] < bound
    ensures Order(kids', rank', orig, f) == OrderAll(kids, rank, orig, bound, v)
    decreases rank'[f], 1, 0
  {
    var v' := ArrangedChildren(kids', rank', f);
    ExpandAbsent(v, f, v);
    OrderAllKept(kids, rank, kids', rank', orig, f, bound, rank'[f], v, v');
  }

  lemma {:induction false} OrderAllJoin(kids: Children, rank: map<Node, nat>, orig: set<Node>, bound: nat, s: seq<Node>, t: seq<Node>)
    requires Ranked(kids, rank) && forall c :: c in s + t ==> c in kids && rank[c] < bound
    ensures forall c :: c in s ==> c in s + t
    ensures forall c :: c in t ==> c in s + t
    ensures OrderAll(kids, rank, orig, bound, s + t) ==
      OrderAll(kids, rank, orig, bound, s) + OrderAll(kids, rank, orig, bound, t)
  {
    if s == [] {
      assert s + t == t;
    } else {
      assert (s + t)[0] == s[0] && (s + t)[1..] == s[1..] + t;
      OrderAllJoin(kids, rank, orig, bound, s[1..], t);
    }
  }

  /** What every repair starts from and leaves behind. */
  ghost predicate Repairable(kids: Children, rank: map<Node, nat>, root: Node, withDeps: set<Node>) {
    Shape(kids) && Ranked(kids, rank) && Rooted(kids, root) && Scannable(kids, withDeps)
  }

  lemma RegroupLooksSame(kids: Children, n: Node, u: seq<Node>, f: Node, v: seq<Node>)
    requires n in kids && f !in kids && Shape(kids) && forall c :: c in v ==> c in kids
    requires Expand(Arranged(n, u), f, Arranged(f, v)) == Arranged(n, kids[n])
    ensures LooksSame(kids, Regrouped(kids, n, u, f, v), f)
  {
    forall m | m in kids && m != n
      ensures Expand(Arranged(m, kids[m]), f, Arranged(f, v)) == Arranged(m, kids[m])
    {
      ArrangedElements(m, kids[m]);
      ExpandAbsent(Arranged(m, kids[m]), f, Arranged(f, v));
    }
  }

  lemma RegroupRepairable(
      kids: Children, rank: map<Node, nat>, root: Node, withDeps: set<Node>, n: Node, u: seq<Node>, f: Node, v: seq<Node>)
    requires Repairable(kids, rank, root, withDeps) && n in kids && f !in kids && Regroups(kids[n], u, f, v)
    requires n.kind == Pipeline ==> PrivateScan(u, withDeps) != Hangs
    requires f.kind == Pipeline ==> PrivateScan(v, withDeps) != Hangs
    ensures Repairable(Regrouped(kids, n, u, f, v), Spread(rank, n, f), root, withDeps)
  {
    RegroupShape(kids, n, u, f, v);
    RegroupRanked(kids, rank, n, u, f, v);
    RegroupRooted(kids, root, n, u, f, v);
  }

  ghost function Wrap(kids: Children, p: Node, a: nat, b: nat, f: Node): Children
    requires p in kids && a <= b <= |kids[p]|
  {
    Regrouped(kids, p, WrappedList(kids[p], a, b, f), f, kids[p][a..b])
  }

  /** Wrapping a run of illegal children of a pipeline. */
  lemma WrapRepairs(kids: Children, rank: map<Node, nat>, root: Node, withDeps: set<Node>, p: Node, a: nat, b: nat, f: Node)
    requires Repairable(kids, rank, root, withDeps) && p in kids && p.kind == Pipeline
    requires f !in kids && f.kind == Stage && IllegalRun(kids[p], a, b)
    ensures Repairable(Wrap(kids, p, a, b, f), Spread(rank, p, f), root, withDeps)
    ensures var kids' := Wrap(kids, p, a, b, f);
      TotalWeight(kids', withDeps, kids'.Keys) < TotalWeight(kids, withDeps, kids.Keys)
    ensures LooksSame(kids, Wrap(kids, p, a, b, f), f)
  {
    var s := kids[p];
    var u, v := WrappedList(s, a, b, f), s[a..b];
    WrapRegroups(s, a, b, f);
    WrapWeighs(p, s, a, b, f, withDeps);
    WrapScans(s, a, b, f, withDeps);
    RegroupWeight(kids, withDeps, p, u, f, v);
    RegroupRepairable(kids, rank, root, withDeps, p, u, f, v);
    WrapLooksSame(kids, p, a, b, f);
  }

  lemma WrapLooksSame(kids: Children, p: Node, a: nat, b: nat, f: Node)
    requires Shape(kids) && p in kids && p.kind == Pipeline && f !in kids && f.kind == Stage
    requires IllegalRun(kids[p], a, b)
    ensures LooksSame(kids, Wrap(kids, p, a, b, f), f)
  {
    var s := kids[p];
    var v := s[a..b];
    ExpandOne(s[..a], f, s[b..], v);
    WrapCounts(s, a, b, f);
    assert s == s[..a] + v + s[b..];
    RegroupLooksSame(kids, p, WrappedList(s, a, b, f), f, v);
  }

  ghost function Nest(kids: Children, q: Node, f: Node): Children
    requires q in kids && Stages(kids[q]) != []
  {
    Regrouped(kids, q, NestedList(kids[q], f), f, Stages(kids[q]))
  }

  /** Moving the stages of a node that is no pipeline into a nested pipeline. */
  lemma NestRepairs(kids: Children, rank: map<Node, nat>, root: Node, withDeps: set<Node>, q: Node, f: Node)
    requires Repairable(kids, rank, root, withDeps) && q in kids && q.kind != Pipeline
    requires f !in kids && f.kind == Pipeline && Stages(kids[q]) != []
    ensures Repairable(Nest(kids, q, f), Spread(rank, q, f), root, withDeps)
    ensures var kids' := Nest(kids, q, f);
      TotalWeight(kids', withDeps, kids'.Keys) < TotalWeight(kids, withDeps, kids.Keys)
    ensures LooksSame(kids, Nest(kids, q, f), f)
  {
    var s := kids[q];
    var t, k, v := Others(s), NestPlace(s), Stages(s);
    var u := NestedList(s, f);
    SplitFacts(s);
    NestRegroups(s, f);
    NestWeighs(q, s, f, withDeps);
    RegroupWeight(kids, withDeps, q, u, f, v);
    RegroupRepairable(kids, rank, root, withDeps, q, u, f, v);
    ExpandOne(t[..k], f, t[k..], v);
    RegroupLooksSame(kids, q, u, f, v);
  }

  ghost function AddPrivate(kids: Children, p: Node, f: Node): Children
    requires p in kids
  {
    Regrouped(kids, p, [f] + kids[p], f, [])
  }

  /** Giving a pipeline the private node it misses. */
  lemma AddPrivateRepairs(kids: Children, rank: map<Node, nat>, root: Node, withDeps: set<Node>, p: Node, f: Node)
    requires Repairable(kids, rank, root, withDeps) && p in kids && p.kind == Pipeline
    requires f !in kids && f.kind == Private && PrivateScan(kids[p], withDeps) == Violated
    ensures Repairable(AddPrivate(kids, p, f), Spread(rank, p, f), root, withDeps)
    ensures var kids' := AddPrivate(kids, p, f);
      TotalWeight(kids', withDeps, kids'.Keys) < TotalWeight(kids, withDeps, kids.Keys)
    ensures LooksSame(kids, AddPrivate(kids, p, f), f)
  {
    var s := kids[p];
    assert Regroups(s, [f] + s, f, []);
    PrivateWeighs(p, s, f, withDeps);
    RegroupWeight(kids, withDeps, p, [f] + s, f, []);
    RegroupRepairable(kids, rank, root, withDeps, p, [f] + s, f, []);
    ExpandOne([], f, s, []);
    assert [] + [f] + s == [f] + s;
    RegroupLooksSame(kids, p, [f] + s, f, []);
  }

  /** `kids'` mends more than `kids` does, and keeps the order of the nodes in `orig`. */
  ghost predicate Improves(
      kids: Children, rank: map<Node, nat>, kids': Children, rank': map<Node, nat>,
      root: Node, withDeps: set<Node>, orig: set<Node>, gain: nat)
    requires Ranked(kids, rank) && root in kids
  {
    && Repairable(kids', rank', root, withDeps) && kids.Keys <= kids'.Keys
    && TotalWeight(kids', withDeps, kids'.Keys) + gain <= TotalWeight(kids, withDeps, kids.Keys)
    && Order(kids', rank', orig, root) == Order(kids, rank, orig, root)
  }

  lemma ImprovesTwice(
      kids: Children, rank: map<Node, nat>, kids1: Children, rank1: map<Node, nat>, kids2: Children, rank2: map<Node, nat>,
      root: Node, withDeps: set<Node>, orig: set<Node>, gain: nat, more: nat)
    requires Ranked(kids, rank) && root in kids && Improves(kids, rank, kids1, rank1, root, withDeps, orig, gain)
    requires Improves(kids1, rank1, kids2, rank2, root, withDeps, orig, more)
    ensures Improves(kids, rank, kids2, rank2, root, withDeps, orig, gain + more)
  {
  }

  lemma NestImproves(
      kids: Children, rank: map<Node, nat>, root: Node, withDeps: set<Node>, orig: set<Node>, q: Node, f: Node)
    requires Repairable(kids, rank, root, withDeps) && q in kids && q.kind != Pipeline
    requires orig <= kids.Keys && f !in kids && f.kind == Pipeline && Stages(kids[q]) != []
    ensures Improves(kids, rank, Nest(kids, q, f), Spread(rank, q, f), root, withDeps, orig, 1)
  {
    NestRepairs(kids, rank, root, withDeps, q, f);
    OrderKept(kids, rank, Nest(kids, q, f), Spread(rank, q, f), orig, f, root);
  }

  lemma AddPrivateImproves(
      kids: Children, rank: map<Node, nat>, root: Node, withDeps: set<Node>, orig: set<Node>, p: Node, f: Node)
    requires Repairable(kids, rank, root, withDeps) && p in kids && p.kind == Pipeline
    requires orig <= kids.Keys && f !in kids && f.kind == Private && PrivateScan(kids[p], withDeps) == Violated
    ensures Improves(kids, rank, AddPrivate(kids, p, f), Spread(rank, p, f), root, withDeps, orig, 1)
  {
    AddPrivateRepairs(kids, rank, root, withDeps, p, f);
    OrderKept(kids, rank, AddPrivate(kids, p, f), Spread(rank, p, f), orig, f, root);
  }

  // ---------------------------------------------------------------------------------------------
  // When nothing is violated
  // ---------------------------------------------------------------------------------------------

  ghost predicate NoViolation(kids: Children, withDeps: set<Node>) {
    forall n :: n in kids ==> ListWeight(n, kids[n], withDeps) == 0
  }

  function Keep(s: seq<Node>, orig: set<Node>): seq<Node> {
    if s == [] then [] else (if s[0] in orig then [s[0]] else []) + Keep(s[1..], orig)
  }

  lemma KeepFirst(c: Node, s: seq<Node>, orig: set<Node>)
    ensures Keep([c] + s, orig) == (if c in orig then [c] else []) + Keep(s, orig)
  {
    assert ([c] + s)[1..] == s;
  }

  lemma {:induction false} KeepJoin(s: seq<Node>, t: seq<Node>, orig: set<Node>)
    ensures Keep(s + t, orig) == Keep(s, orig) + Keep(t, orig)
  {
    if s == [] {
      assert s + t == t;
    } else {
      KeepJoin(s[1..], t, orig);
      KeepFirst(s[0], s[1..], orig);
      KeepFirst(s[0], s[1..] + t, orig);
      assert s == [s[0]] + s[1..] && s + t == [s[0]] + (s[1..] + t);
    }
  }

  lemma {:induction false} KeepAll(s: seq<Node>, orig: set<Node>)
    requires forall c :: c in s ==> c in orig
    ensures Keep(s, orig) == s
  {
    if s != [] {
      KeepAll(s[1..], orig);
    }
  }

  /** In a forest whose lists are all arranged the order is the pre-order of the original nodes. */
  ghost predicate AllArranged(kids: Children) {
    forall n :: n in kids ==> Arranged(n, kids[n]) == kids[n]
  }

  lemma {:induction false} ArrangedOrder(kids: Children, rank: map<Node, nat>, orig: set<Node>, n: Node)
    requires Ranked(kids, rank) && AllArranged(kids) && n in kids
    ensures Order(kids, rank, orig, n) == Keep(PreOrder(kids, rank, n), orig)
    decreases rank[n], 1, 0
  {
    ArrangedOrderAll(kids, rank, orig, rank[n], kids[n]);
    KeepJoin([n], PreOrderAll(kids, rank, rank[n], kids[n]), orig);
  }

  lemma {:induction false} ArrangedOrderAll(kids: Children, rank: map<Node, nat>, orig: set<Node>, bound: nat, s: seq<Node>)
    requires Ranked(kids, rank) && AllArranged(kids)
    requires forall c :: c in s ==> c in kids && rank[c] < bound
    ensures OrderAll(kids, rank, orig, bound, s) == Keep(PreOrderAll(kids, rank, bound, s), orig)
    decreases bound, 0, |s|
  {
    if s != [] {
      ArrangedOrder(kids, rank, orig, s[0]);
      ArrangedOrderAll(kids, rank, orig, bound, s[1..]);
      KeepJoin(PreOrder(kids, rank, s[0]), PreOrderAll(kids, rank, bound, s[1..]), orig);
    }
  }

  lemma NoViolationIsArranged(kids: Children, withDeps: set<Node>)
    requires NoViolation(kids, withDeps)
    ensures AllArranged(kids)
  {
  }
}
