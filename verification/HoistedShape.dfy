/** Hoisting keeps transfers in stages, stages in pipelines, and pipelines apart. */
module HoistedShape {
  import opened TransferHoisting

  datatype Place = Outside | InPipeline | InStage

  /** Data is moved in stages only, a stage is in a pipeline, and no pipeline is in another but in one of its stages. */
  predicate Shaped(stmts: seq<Stmt>, p: Place)
    decreases stmts, 1
  {
    stmts == [] || (ShapedIn(stmts[0], p) && Shaped(stmts[1..], p))
  }

  predicate ShapedIn(s: Stmt, p: Place)
    decreases s, 0
  {
    match s
    case Do(op) => p == InStage || !(op.Transfer? || op.Push?)
    case Block(Pipeline, body) => p != InPipeline && Shaped(body, InPipeline)
    case Block(Stage, body) => p == InPipeline && Shaped(body, InStage)
    case Block(_, body) => Shaped(body, p)
  }

  lemma {:induction false} ShapedJoin(a: seq<Stmt>, b: seq<Stmt>, p: Place)
    ensures Shaped(a + b, p) <==> Shaped(a, p) && Shaped(b, p)
  {
    if a == [] {
      assert a + b == b;
    } else {
      assert (a + b)[0] == a[0] && (a + b)[1..] == a[1..] + b;
      ShapedJoin(a[1..], b, p);
    }
  }

  lemma ShapedSingle(s: Stmt, p: Place)
    ensures Shaped([s], p) <==> ShapedIn(s, p)
  {
    assert [s][1..] == [];
  }

  lemma ShapedParts(stmts: seq<Stmt>, j: nat, p: Place)
    requires j < |stmts|
    ensures Shaped(stmts, p) <==> Shaped(stmts[..j], p) && ShapedIn(stmts[j], p) && Shaped(stmts[j + 1..], p)
  {
    assert stmts == stmts[..j] + ([stmts[j]] + stmts[j + 1..]);
    ShapedJoin(stmts[..j], [stmts[j]] + stmts[j + 1..], p);
    ShapedJoin([stmts[j]], stmts[j + 1..], p);
    ShapedSingle(stmts[j], p);
  }

  lemma {:induction false} ShapedRewired(stmts: seq<Stmt>, was: nat, now: nat, p: Place)
    ensures Shaped(Rewired(stmts, was, now), p) == Shaped(stmts, p)
    decreases stmts
  {
    if stmts != [] {
      ShapedRewired(stmts[1..], was, now, p);
      assert Rewired(stmts, was, now)[1..] == Rewired(stmts[1..], was, now);
      if stmts[0].Block? {
        ShapedRewired(stmts[0].body, was, now, Inside(stmts[0].kind, p));
      }
    }
  }

  function Inside(kind: Kind, p: Place): Place {
    if kind == Pipeline then InPipeline else if kind == Stage then InStage else p
  }

  lemma {:induction false} ShapedErased(stmts: seq<Stmt>, t: Op, p: Place)
    requires Shaped(stmts, p)
    ensures Shaped(Erased(stmts, t), p)
    decreases stmts
  {
    if stmts != [] {
      if HasIn(stmts[0], t) {
        if stmts[0].Block? {
          ShapedErased(stmts[0].body, t, Inside(stmts[0].kind, p));
          ShapedSingle(Block(stmts[0].kind, Erased(stmts[0].body, t)), p);
        }
        ShapedJoin(ErasedIn(stmts[0], t), stmts[1..], p);
      } else {
        ShapedErased(stmts[1..], t, p);
        ShapedSingle(stmts[0], p);
        ShapedJoin([stmts[0]], Erased(stmts[1..], t), p);
      }
    }
  }

  lemma {:induction false} ShapedSlice(stmts: seq<Stmt>, t: Op, dest: nat, p: Place)
    requires Shaped(stmts, p) && t.Transfer?
    ensures Shaped(Slice(stmts, t, dest), p)
    decreases stmts
  {
    if stmts != [] {
      if !HasIn(stmts[0], t) {
        ShapedSlice(stmts[1..], t, dest, p);
      } else if stmts[0].Block? {
        ShapedSlice(stmts[0].body, t, dest, Inside(stmts[0].kind, p));
        ShapedSingle(Block(stmts[0].kind, Slice(stmts[0].body, t, dest)), p);
      } else {
        ShapedSingle(Do(t.(dest := dest)), p);
      }
    }
  }

  lemma ShapedAround(stmts: seq<Stmt>, j: nat, child: seq<Stmt>, was: nat, now: nat, p: Place)
    requires j < |stmts| && Shaped(stmts, p) && Shaped(child, p)
    ensures Shaped(Around(stmts, j, child, was, now), p)
  {
    ShapedParts(stmts, j, p);
    ShapedRewired(stmts[..j], was, now, p);
    ShapedRewired(stmts[j + 1..], was, now, p);
    ShapedJoin(Rewired(stmts[..j], was, now), child, p);
    ShapedJoin(Rewired(stmts[..j], was, now) + child, Rewired(stmts[j + 1..], was, now), p);
  }

  lemma ShapedChild(stmts: seq<Stmt>, j: nat, p: Place)
    requires j < |stmts| && stmts[j].Block? && Shaped(stmts, p)
    ensures ShapedIn(stmts[j], p) && Shaped(stmts[j].body, Inside(stmts[j].kind, p))
  {
    ShapedParts(stmts, j, p);
  }

  /** What takes the place of a block may have another body of the same shape. */
  lemma ShapedWithBody(stmts: seq<Stmt>, j: nat, body: seq<Stmt>, was: nat, now: nat, p: Place)
    requires j < |stmts| && stmts[j].Block? && Shaped(stmts, p) && Shaped(body, Inside(stmts[j].kind, p))
    ensures Shaped([Block(stmts[j].kind, body)], p) && Shaped(Around(stmts, j, [Block(stmts[j].kind, body)], was, now), p)
  {
    ShapedChild(stmts, j, p);
    ShapedSingle(Block(stmts[j].kind, body), p);
    ShapedAround(stmts, j, [Block(stmts[j].kind, body)], was, now, p);
  }

  lemma ShapedTakenOut(stmts: seq<Stmt>, j: nat, stage: nat, t: Op, now: nat, p: Place)
    requires t.Transfer? && j < |stmts| && stmts[j].Block? && stmts[j].kind == Pipeline && Shaped(stmts, p)
    requires stage < |stmts[j].body| && IsStage(stmts[j].body[stage])
    ensures Shaped(TakenOut(stmts, j, stage, t, now), p)
  {
    var body := stmts[j].body;
    ShapedChild(stmts, j, p);
    ShapedChild(body, stage, InPipeline);
    ShapedErased(body[stage].body, t, InStage);
    ShapedWithBody(body, stage, Erased(body[stage].body, t), t.dest, now, InPipeline);
    ShapedWithBody(stmts, j, Around(body, stage, [Block(Stage, Erased(body[stage].body, t))], t.dest, now), t.dest, now, p);
  }

  lemma {:induction false} ShapedOutOf(stmts: seq<Stmt>, path: seq<nat>, stage: nat, t: Op, now: nat, p: Place)
    requires ValidPath(stmts, path, stage, t) && Shaped(stmts, p)
    ensures Shaped(OutOf(stmts, path, stage, t, now), p) && Shaped(Donor(stmts, path, stage, t), InStage)
    decreases |path|
  {
    var s := stmts[path[0]];
    ShapedChild(stmts, path[0], p);
    if |path| == 1 {
      ShapedTakenOut(stmts, path[0], stage, t, now, p);
      ShapedChild(s.body, stage, InPipeline);
    } else {
      ShapedOutOf(s.body, path[1..], stage, t, now, Inside(s.kind, p));
      ShapedWithBody(stmts, path[0], OutOf(s.body, path[1..], stage, t, now), t.dest, now, p);
    }
  }

  /** Where loops lead to a pipeline there is none around them that they are not in a stage of. */
  lemma {:induction false} LoopsAreApart(stmts: seq<Stmt>, path: seq<nat>, stage: nat, t: Op, p: Place)
    requires ValidPath(stmts, path, stage, t) && LegalPath(stmts, path, stage, t) && Shaped(stmts, p)
    ensures p != InPipeline
    decreases |path|
  {
    ShapedChild(stmts, path[0], p);
    if |path| > 1 {
      LoopsAreApart(stmts[path[0]].body, path[1..], stage, t, p);
    }
  }

  lemma ShapedSibling(stage: seq<Stmt>, t: Op, next: nat, p: Place)
    requires Shaped(stage, InStage) && t.Transfer? && p != InPipeline
    ensures Shaped(Sibling(stage, t, next, next), p)
  {
    var slice := Slice(stage, t, next);
    ShapedSlice(stage, t, next, InStage);
    ShapedSingle(Block(Stage, slice), InPipeline);
    ShapedSingle(Block(Pipeline, [Block(Stage, slice)]), p);
    assert Sibling(stage, t, next, next)[1..] == [Block(Pipeline, [Block(Stage, slice)])];
  }

  lemma {:induction false} ShapedHoistedAt(stmts: seq<Stmt>, path: seq<nat>, at: nat, stage: nat, t: Op, next: nat, p: Place)
    requires ValidPath(stmts, path, stage, t) && at + 1 < |path| && LegalFrom(stmts, path, at, stage, t) && Shaped(stmts, p)
    ensures Shaped(HoistedAt(stmts, path, at, stage, t, next), p)
    decreases |path|
  {
    var s := stmts[path[0]];
    ShapedChild(stmts, path[0], p);
    if at == 0 {
      LoopsAreApart(stmts, path, stage, t, p);
      ShapedOutOf(stmts, path, stage, t, next, p);
      ShapedOutOf(s.body, path[1..], stage, t, next, Inside(s.kind, p));
      var sibling, left := Sibling(Donor(stmts, path, stage, t), t, next, next), [Block(s.kind, OutOf(s.body, path[1..], stage, t, next))];
      ShapedSibling(Donor(stmts, path, stage, t), t, next, p);
      ShapedWithBody(stmts, path[0], OutOf(s.body, path[1..], stage, t, next), t.dest, next, p);
      ShapedJoin(sibling, left, p);
      ShapedAround(stmts, path[0], sibling + left, t.dest, next, p);
    } else {
      ShapedHoistedAt(s.body, path[1..], at - 1, stage, t, next, Inside(s.kind, p));
      ShapedWithBody(stmts, path[0], HoistedAt(s.body, path[1..], at - 1, stage, t, next), t.dest, next, p);
    }
  }

  /** All programs of a run have that shape if the first one has. */
  lemma {:induction false} RunStaysShaped(programs: seq<seq<Stmt>>, spots: seq<Spot>, firstFree: nat, i: nat)
    requires Hoists(programs, spots, firstFree) && Shaped(programs[0], Outside) && i < |programs|
    ensures Shaped(programs[i], Outside)
  {
    if i > 0 {
      RunStaysShaped(programs, spots, firstFree, i - 1);
      assert HoistedTo(programs[i - 1], programs[i], firstFree + (i - 1), spots[i - 1]);
      var Spot(path, at, stage, t) := spots[i - 1];
      ShapedHoistedAt(programs[i - 1], path, at, stage, t, firstFree + (i - 1), Outside);
    }
  }
}
