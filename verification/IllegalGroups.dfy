/** The maximal runs of illegal children of a pipeline, and the child list with a stage in the place of each run. */
module IllegalGroups {
  import opened Sequences
  import opened OperationTree
  import opened LegalizerRules

  function FirstIllegal(s: seq<Node>): (i: nat)
    ensures i <= |s|
  {
    if s == [] || !LegalInPipeline(s[0]) then 0 else 1 + FirstIllegal(s[1..])
  }

  function IllegalLength(s: seq<Node>): (i: nat)
    ensures i <= |s|
    ensures s != [] && !LegalInPipeline(s[0]) ==> i > 0
  {
    if s == [] || LegalInPipeline(s[0]) then 0 else 1 + IllegalLength(s[1..])
  }

  lemma {:induction false} FirstIllegalFacts(s: seq<Node>)
    ensures FirstIllegal(s) < |s| ==> !LegalInPipeline(s[FirstIllegal(s)])
    ensures forall j :: 0 <= j < FirstIllegal(s) ==> LegalInPipeline(s[j])
  {
    if s != [] && LegalInPipeline(s[0]) {
      FirstIllegalFacts(s[1..]);
    }
  }

  lemma {:induction false} IllegalLengthFacts(s: seq<Node>)
    ensures forall j :: 0 <= j < IllegalLength(s) ==> !LegalInPipeline(s[j])
  {
    if s != [] && !LegalInPipeline(s[0]) {
      IllegalLengthFacts(s[1..]);
    }
  }

  /** Where the first run of illegal children ends. */
  function FirstEnd(s: seq<Node>): (e: nat)
    ensures e <= |s|
    ensures FirstIllegal(s) <= e
  {
    FirstIllegal(s) + IllegalLength(s[FirstIllegal(s)..])
  }

  lemma FirstRun(s: seq<Node>)
    requires FirstIllegal(s) < |s|
    ensures IllegalRun(s, FirstIllegal(s), FirstEnd(s))
  {
    var a := FirstIllegal(s);
    FirstIllegalFacts(s);
    IllegalLengthFacts(s[a..]);
    forall i | a <= i < FirstEnd(s)
      ensures !LegalInPipeline(s[i])
    {
      assert s[i] == s[a..][i - a];
    }
  }

  /** The maximal runs of illegal children. */
  function Groups(s: seq<Node>): (groups: seq<seq<Node>>)
  {
    if FirstIllegal(s) == |s| then []
    else
      FirstRun(s);
      [s[FirstIllegal(s)..FirstEnd(s)]] + Groups(s[FirstEnd(s)..])
  }

  /** `s` with its first group replaced by the stage `f`. */
  ghost function WrappedFirst(s: seq<Node>, f: Node): seq<Node> {
    WrappedList(s, FirstIllegal(s), FirstEnd(s), f)
  }

  lemma {:induction false} LegalPrefix(s: seq<Node>, t: seq<Node>)
    requires forall c :: c in s ==> LegalInPipeline(c)
    ensures Groups(s + t) == Groups(t)
  {
    if s == [] {
      assert s + t == t;
    } else {
      assert (s + t)[1..] == s[1..] + t;
      LegalPrefix(s[1..], t);
      GroupsSkip(s + t, (s + t)[1..]);
    }
  }

  /** With the first group wrapped, the others are left. */
  lemma WrappedFirstGroups(s: seq<Node>, f: Node)
    requires Groups(s) != [] && LegalInPipeline(f)
    ensures Groups(WrappedFirst(s, f)) == Groups(s)[1..] && Groups(s)[0] == s[FirstIllegal(s)..FirstEnd(s)]
  {
    var a, e := FirstIllegal(s), FirstEnd(s);
    FirstIllegalFacts(s);
    LegalPrefix(s[..a] + [f], s[e..]);
  }

  lemma {:induction false} NoGroups(s: seq<Node>)
    requires Groups(s) == []
    ensures IllegalCount(s) == 0
  {
    FirstIllegalFacts(s);
    AllLegal(s);
  }

  lemma {:induction false} AllLegal(s: seq<Node>)
    requires forall c :: c in s ==> LegalInPipeline(c)
    ensures IllegalCount(s) == 0
  {
    if s != [] {
      AllLegal(s[1..]);
    }
  }

  /** Reading one more child `c` either lengthens the run read last, or ends it. */
  ghost function GroupsFrom(current: seq<Node>, s: seq<Node>): seq<seq<Node>> {
    var b := IllegalLength(s);
    Closed([], current + s[..b]) + Groups(s[b..])
  }

  lemma GroupsStep(current: seq<Node>, s: seq<Node>)
    requires s != []
    ensures !LegalInPipeline(s[0]) ==> GroupsFrom(current, s) == GroupsFrom(current + [s[0]], s[1..])
    ensures LegalInPipeline(s[0]) ==>
      GroupsFrom(current, s) == Closed([], current) + GroupsFrom([], s[1..])
  {
    var b := IllegalLength(s);
    if !LegalInPipeline(s[0]) {
      assert current + s[..b] == current + [s[0]] + s[1..][..b - 1];
      assert s[b..] == s[1..][b - 1..];
    } else {
      GroupsSkip(s, s[1..]);
      GroupsFromNone(s[1..]);
      assert s[..0] == [] && s[0..] == s && current + [] == current;
    }
  }

  lemma GroupsSkip(s: seq<Node>, t: seq<Node>)
    requires s != [] && LegalInPipeline(s[0]) && t == s[1..]
    ensures Groups(s) == Groups(t)
  {
    EndSkip(s);
    if FirstIllegal(s) < |s| {
      var a, e := FirstIllegal(t), FirstEnd(t);
      assert s[a + 1..e + 1] == t[a..e] && s[e + 1..] == t[e..];
      GroupsUnfold(s, t[a..e], t[e..]);
      GroupsUnfold(t, t[a..e], t[e..]);
    } else {
      GroupsOfNone(s);
      GroupsOfNone(t);
    }
  }

  lemma GroupsOfNone(s: seq<Node>)
    requires FirstIllegal(s) == |s|
    ensures Groups(s) == []
  {
  }

  lemma EndSkip(s: seq<Node>)
    requires s != [] && LegalInPipeline(s[0])
    ensures FirstIllegal(s) == 1 + FirstIllegal(s[1..]) && FirstEnd(s) == 1 + FirstEnd(s[1..])
  {
    assert s[FirstIllegal(s[1..]) + 1..] == s[1..][FirstIllegal(s[1..])..];
  }

  lemma GroupsUnfold(s: seq<Node>, group: seq<Node>, rest: seq<Node>)
    requires FirstIllegal(s) < |s| && group == s[FirstIllegal(s)..FirstEnd(s)] && rest == s[FirstEnd(s)..]
    ensures Groups(s) == [group] + Groups(rest)
  {
    FirstRun(s);
  }

  lemma GroupsFromNone(t: seq<Node>)
    ensures Groups(t) == GroupsFrom([], t)
  {
    var b := IllegalLength(t);
    if t != [] && !LegalInPipeline(t[0]) {
      FromRun(t, b, t[..b], t[b..]);
    } else {
      assert t[..b] == [] && t[b..] == t;
      FromNothing(Groups(t));
    }
  }

  lemma FromNothing(groups: seq<seq<Node>>)
    ensures Closed([], [] + []) + groups == groups
  {
  }

  lemma FromRun(t: seq<Node>, b: nat, run: seq<Node>, rest: seq<Node>)
    requires t != [] && !LegalInPipeline(t[0]) && b == IllegalLength(t) && run == t[..b] && rest == t[b..]
    ensures Groups(t) == Closed([], [] + run) + Groups(rest)
  {
    assert t[0..] == t && t[..b] == t[0..b] && [] + run == run;
    GroupsUnfold(t, run, rest);
  }

  /** `groups` have been read, `current` is being read, the children from place `i` on are still to be read. */
  ghost predicate Collecting(s: seq<Node>, groups: seq<seq<Node>>, current: seq<Node>, i: nat) {
    i <= |s| && groups + GroupsFrom(current, s[i..]) == Groups(s)
  }

  lemma CollectStart(s: seq<Node>)
    ensures Collecting(s, [], [], 0)
  {
    GroupsFromNone(s);
    assert s[0..] == s && [] + Groups(s) == Groups(s);
  }

  lemma CollectStep(s: seq<Node>, groups: seq<seq<Node>>, current: seq<Node>, i: nat)
    requires i < |s| && Collecting(s, groups, current, i)
    ensures !LegalInPipeline(s[i]) ==> Collecting(s, groups, current + [s[i]], i + 1)
    ensures LegalInPipeline(s[i]) ==> Collecting(s, Closed(groups, current), [], i + 1)
  {
    assert s[i..][1..] == s[i + 1..];
    GroupsStep(current, s[i..]);
    if LegalInPipeline(s[i]) {
      JoinGroups(groups, current, GroupsFrom([], s[i + 1..]));
    }
  }

  /** `groups` with the run read last, if any. */
  function Closed(groups: seq<seq<Node>>, current: seq<Node>): seq<seq<Node>> {
    if current == [] then groups else groups + [current]
  }

  lemma JoinGroups(groups: seq<seq<Node>>, current: seq<Node>, rest: seq<seq<Node>>)
    ensures groups + (Closed([], current) + rest) == Closed(groups, current) + rest
  {
  }

  lemma CollectEnd(s: seq<Node>, groups: seq<seq<Node>>, current: seq<Node>)
    requires Collecting(s, groups, current, |s|)
    ensures Groups(s) == Closed(groups, current)
  {
    assert s[|s|..] == [];
    ReadAll(current);
    JoinGroups(groups, current, []);
  }

  lemma ReadAll(current: seq<Node>)
    ensures GroupsFrom(current, []) == Closed([], current) + []
  {
    assert current + [] == current;
  }

  /** The first group of illegal children of `p` moved below the stage `f`. */
  ghost function WrapFirst(kids: Children, p: Node, f: Node): Children
    requires p in kids
  {
    Wrap(kids, p, FirstIllegal(kids[p]), FirstEnd(kids[p]), f)
  }

  /** As many groups moved below the stages `fs`, one after the other. */
  ghost function WrapSome(kids: Children, p: Node, fs: seq<Node>): (kids': Children)
    requires p in kids
    ensures kids'.Keys == kids.Keys + Elems(fs)
  {
    if fs == [] then kids
    else
      assert fs == fs[..|fs| - 1] + [fs[|fs| - 1]];
      WrapFirst(WrapSome(kids, p, fs[..|fs| - 1]), p, fs[|fs| - 1])
  }

  lemma WrapSomeNext(kids: Children, p: Node, fs: seq<Node>, f: Node)
    requires p in kids
    ensures WrapSome(kids, p, fs + [f]) == WrapFirst(WrapSome(kids, p, fs), p, f)
  {
    assert (fs + [f])[..|fs|] == fs;
  }

  /** Wrapping the first group leaves the other groups, and puts the group below the stage. */
  lemma WrapFirstFacts(kids: Children, p: Node, f: Node)
    requires p in kids && f !in kids && f.kind == Stage && Groups(kids[p]) != []
    ensures var kids' := WrapFirst(kids, p, f);
      && Groups(kids'[p]) == Groups(kids[p])[1..] && kids'[f] == Groups(kids[p])[0]
      && forall n :: n in kids && n != p ==> kids'[n] == kids[n]
  {
    WrappedFirstGroups(kids[p], f);
  }

  /** The first stages hold the first groups, the other groups are still to be wrapped, and no other list has changed. */
  lemma {:induction false} WrapSomeFacts(kids: Children, p: Node, fs: seq<Node>)
    requires p in kids && |fs| <= |Groups(kids[p])| && NewStages(kids, fs)
    ensures Groups(WrapSome(kids, p, fs)[p]) == Groups(kids[p])[|fs|..]
    ensures forall i :: 0 <= i < |fs| ==> WrapSome(kids, p, fs)[fs[i]] == Groups(kids[p])[i]
    ensures forall n :: n in kids && n != p ==> WrapSome(kids, p, fs)[n] == kids[n]
    decreases |fs|
  {
    if fs != [] {
      var init, f := fs[..|fs| - 1], fs[|fs| - 1];
      assert fs == init + [f];
      WrapSomeFacts(kids, p, init);
      WrapSomeNext(kids, p, init, f);
      WrapFirstFacts(WrapSome(kids, p, init), p, f);
    }
  }

  /** Different stages, none of which is in the forest yet. */
  ghost predicate NewStages(kids: Children, fs: seq<Node>) {
    NoDup(fs) && forall f :: f in fs ==> f !in kids && f.kind == Stage
  }

  lemma WrapFirstImproves(
      kids: Children, rank: map<Node, nat>, root: Node, withDeps: set<Node>, orig: set<Node>, p: Node, f: Node)
    requires Repairable(kids, rank, root, withDeps) && p in kids && p.kind == Pipeline
    requires orig <= kids.Keys && f !in kids && f.kind == Stage && Groups(kids[p]) != []
    ensures Improves(kids, rank, WrapFirst(kids, p, f), Spread(rank, p, f), root, withDeps, orig, 1)
  {
    FirstRun(kids[p]);
    WrapRepairs(kids, rank, root, withDeps, p, FirstIllegal(kids[p]), FirstEnd(kids[p]), f);
    OrderKept(kids, rank, WrapFirst(kids, p, f), Spread(rank, p, f), orig, f, root);
  }

  lemma LastStage(kids: Children, p: Node, fs: seq<Node>)
    requires p in kids && fs != [] && |fs| <= |Groups(kids[p])| && NewStages(kids, fs)
    ensures var init, f := fs[..|fs| - 1], fs[|fs| - 1];
      var kids1 := WrapSome(kids, p, init);
      && NewStages(kids, init) && f !in kids1 && f.kind == Stage && Groups(kids1[p]) != []
      && WrapSome(kids, p, fs) == WrapFirst(kids1, p, f)
  {
    WrapSomeFacts(kids, p, fs[..|fs| - 1]);
  }

  lemma {:induction false} WrapSomeImproves(
      kids: Children, rank: map<Node, nat>, root: Node, withDeps: set<Node>, orig: set<Node>, p: Node, fs: seq<Node>)
    returns (rank': map<Node, nat>)
    requires Repairable(kids, rank, root, withDeps) && p in kids && p.kind == Pipeline && orig <= kids.Keys
    requires |fs| <= |Groups(kids[p])| && NewStages(kids, fs)
    ensures Improves(kids, rank, WrapSome(kids, p, fs), rank', root, withDeps, orig, |fs|)
    decreases |fs|
  {
    if fs == [] {
      rank' := rank;
    } else {
      var init, f := fs[..|fs| - 1], fs[|fs| - 1];
      LastStage(kids, p, fs);
      var rank1 := WrapSomeImproves(kids, rank, root, withDeps, orig, p, init);
      var kids1 := WrapSome(kids, p, init);
      WrapFirstImproves(kids1, rank1, root, withDeps, orig, p, f);
      rank' := Spread(rank1, p, f);
      ImprovesTwice(kids, rank, kids1, rank1, WrapSome(kids, p, fs), rank', root, withDeps, orig, |init|, 1);
    }
  }

  /** In a scannable forest a pipeline with illegal children begins with a legal one. */
  lemma LegalComesFirst(s: seq<Node>, withDeps: set<Node>)
    requires PrivateScan(s, withDeps) != Hangs && s != []
    ensures LegalInPipeline(s[0])
  {
  }

  // ---------------------------------------------------------------------------------------------
  // The groups are the maximal runs
  // ---------------------------------------------------------------------------------------------

  /** Illegal children from place `a` up to place `b`, with a legal one or nothing on either side. */
  ghost predicate MaximalRun(s: seq<Node>, a: nat, b: nat) {
    && a < b <= |s| && (forall i :: a <= i < b ==> s[i].kind != Private && s[i].kind != Stage)
    && (a == 0 || s[a - 1].kind == Private || s[a - 1].kind == Stage)
    && (b == |s| || s[b].kind == Private || s[b].kind == Stage)
  }

  lemma {:induction false} FirstIsIllegal(s: seq<Node>)
    ensures forall i :: 0 <= i < FirstIllegal(s) ==> LegalInPipeline(s[i])
    ensures FirstIllegal(s) < |s| ==> !LegalInPipeline(s[FirstIllegal(s)])
  {
    if s != [] && LegalInPipeline(s[0]) {
      FirstIsIllegal(s[1..]);
    }
  }

  lemma {:induction false} LengthIsMaximal(s: seq<Node>)
    ensures forall i :: 0 <= i < IllegalLength(s) ==> !LegalInPipeline(s[i])
    ensures IllegalLength(s) < |s| ==> LegalInPipeline(s[IllegalLength(s)])
  {
    if s != [] && !LegalInPipeline(s[0]) {
      LengthIsMaximal(s[1..]);
    }
  }

  lemma FirstRunIsMaximal(s: seq<Node>)
    requires FirstIllegal(s) < |s|
    ensures MaximalRun(s, FirstIllegal(s), FirstEnd(s))
    ensures forall i :: 0 <= i < FirstIllegal(s) ==> s[i].kind == Private || s[i].kind == Stage
  {
    FirstIsIllegal(s);
    var rest := s[FirstIllegal(s)..];
    LengthIsMaximal(rest);
    forall i | FirstIllegal(s) <= i < FirstEnd(s) ensures !LegalInPipeline(s[i]) {
      assert s[i] == rest[i - FirstIllegal(s)];
    }
    assert FirstEnd(s) < |s| ==> s[FirstEnd(s)] == rest[IllegalLength(rest)];
  }

  ghost predicate RunAt(s: seq<Node>, group: seq<Node>, a: nat) {
    MaximalRun(s, a, a + |group|) && s[a..a + |group|] == group
  }

  /** Every group is the run of children that begins at its place. */
  ghost predicate AreRuns(s: seq<Node>, groups: seq<seq<Node>>, at: seq<nat>) {
    |at| == |groups| && forall k :: 0 <= k < |at| ==> RunAt(s, groups[k], at[k])
  }

  ghost predicate InSomeRun(groups: seq<seq<Node>>, at: seq<nat>, i: nat)
    requires |at| == |groups|
  {
    exists k :: 0 <= k < |at| && at[k] <= i < at[k] + |groups[k]|
  }

  /** The runs hold all illegal children. */
  ghost predicate HoldAll(s: seq<Node>, groups: seq<seq<Node>>, at: seq<nat>)
    requires |at| == |groups|
  {
    forall i :: 0 <= i < |s| && s[i].kind != Private && s[i].kind != Stage ==> InSomeRun(groups, at, i)
  }

  ghost predicate InTurn(at: seq<nat>) {
    forall k, l :: 0 <= k < l < |at| ==> at[k] < at[l]
  }

  /** The places in a list that goes on for `e` more before. */
  ghost function Later(at: seq<nat>, e: nat): (r: seq<nat>)
    ensures |r| == |at| && forall k :: 0 <= k < |at| ==> r[k] == at[k] + e
  {
    seq(|at|, k requires 0 <= k < |at| => at[k] + e)
  }

  /** A run behind the first one is a run of the whole list: what comes right after the first one is legal. */
  lemma LaterRun(s: seq<Node>, e: nat, group: seq<Node>, a: nat)
    requires 0 < e <= |s| && RunAt(s[e..], group, a)
    requires e < |s| ==> s[e].kind == Private || s[e].kind == Stage
    ensures RunAt(s, group, a + e) && a > 0
  {
    var rest := s[e..];
    assert rest[0] == s[e];
    assert s[a + e..a + e + |group|] == rest[a..a + |group|];
    forall i | a + e <= i < a + e + |group| ensures s[i].kind != Private && s[i].kind != Stage {
      assert s[i] == rest[i - e];
    }
  }

  lemma {:induction false} LaterRuns(s: seq<Node>, e: nat, groups: seq<seq<Node>>, at: seq<nat>)
    requires 0 < e <= |s| && AreRuns(s[e..], groups, at)
    requires e < |s| ==> s[e].kind == Private || s[e].kind == Stage
    ensures AreRuns(s, groups, Later(at, e)) && forall k :: 0 <= k < |at| ==> at[k] > 0
  {
    forall k | 0 <= k < |at| ensures RunAt(s, groups[k], Later(at, e)[k]) && at[k] > 0 {
      LaterRun(s, e, groups[k], at[k]);
    }
  }

  lemma LaterHold(s: seq<Node>, e: nat, groups: seq<seq<Node>>, at: seq<nat>, i: nat)
    requires e <= i < |s| && |at| == |groups| && HoldAll(s[e..], groups, at)
    requires s[i].kind != Private && s[i].kind != Stage
    ensures InSomeRun(groups, Later(at, e), i)
  {
    assert s[i] == s[e..][i - e];
    assert InSomeRun(groups, at, i - e);
    var k :| 0 <= k < |at| && at[k] <= i - e < at[k] + |groups[k]|;
    assert Later(at, e)[k] <= i;
  }

  lemma InOneMore(group: seq<Node>, groups: seq<seq<Node>>, a: nat, at: seq<nat>, i: nat)
    requires |at| == |groups|
    ensures (a <= i < a + |group|) || InSomeRun(groups, at, i) ==> InSomeRun([group] + groups, [a] + at, i)
  {
    if a <= i < a + |group| {
      assert ([a] + at)[0] == a && ([group] + groups)[0] == group;
    } else if InSomeRun(groups, at, i) {
      var k :| 0 <= k < |at| && at[k] <= i < at[k] + |groups[k]|;
      var l := k + 1;
      assert ([a] + at)[l] == at[k] && ([group] + groups)[l] == groups[k];
    }
  }

  lemma OneMoreRun(s: seq<Node>, group: seq<Node>, groups: seq<seq<Node>>, a: nat, at: seq<nat>)
    requires AreRuns(s, groups, at) && RunAt(s, group, a)
    ensures AreRuns(s, [group] + groups, [a] + at)
  {
    var groups', at' := [group] + groups, [a] + at;
    forall k | 0 <= k < |at'| ensures RunAt(s, groups'[k], at'[k]) {
      if k > 0 {
        assert groups'[k] == groups[k - 1] && at'[k] == at[k - 1];
      }
    }
  }

  lemma HoldNext(s: seq<Node>, a: nat, e: nat, group: seq<Node>, groups: seq<seq<Node>>, at: seq<nat>)
    requires a < e <= |s| && |group| == e - a && |at| == |groups| && HoldAll(s[e..], groups, at)
    requires forall i :: 0 <= i < a ==> s[i].kind == Private || s[i].kind == Stage
    ensures HoldAll(s, [group] + groups, [a] + Later(at, e))
  {
    forall i | 0 <= i < |s| && s[i].kind != Private && s[i].kind != Stage
      ensures InSomeRun([group] + groups, [a] + Later(at, e), i)
    {
      if i >= e {
        LaterHold(s, e, groups, at, i);
      }
      InOneMore(group, groups, a, Later(at, e), i);
    }
  }

  lemma InTurnNext(a: nat, e: nat, at: seq<nat>)
    requires a < e && InTurn(at)
    ensures InTurn([a] + Later(at, e))
  {
    var r := [a] + Later(at, e);
    forall k, l | 0 <= k < l < |r| ensures r[k] < r[l] {
      assert r[l] == at[l - 1] + e;
      assert k > 0 ==> r[k] == at[k - 1] + e;
    }
  }

  /** The groups are exactly the maximal runs of children that are neither private nor stages, in order. */
  lemma {:induction false} GroupsAreRuns(s: seq<Node>) returns (at: seq<nat>)
    ensures AreRuns(s, Groups(s), at) && HoldAll(s, Groups(s), at) && InTurn(at)
    decreases |s|
  {
    if FirstIllegal(s) == |s| {
      FirstIsIllegal(s);
      at := [];
    } else {
      var a, e := FirstIllegal(s), FirstEnd(s);
      FirstRunIsMaximal(s);
      var group, groups := s[a..e], Groups(s[e..]);
      var rest := GroupsAreRuns(s[e..]);
      LaterRuns(s, e, groups, rest);
      OneMoreRun(s, group, groups, a, Later(rest, e));
      HoldNext(s, a, e, group, groups, rest);
      InTurnNext(a, e, rest);
      at := [a] + Later(rest, e);
    }
  }
}
