/**
 * Which operations there are after a transfer has been hoisted, and how often: those that there were,
 * rewired, and the new allocation.
 */
module HoistedOps {
  import opened Sequences
  import opened TransferHoisting
  import opened TransferRuns

  // ---------------------------------------------------------------------------------------------
  // The operations of a region
  // ---------------------------------------------------------------------------------------------

  function Ops(stmts: seq<Stmt>): set<Op>
    decreases stmts, 1
  {
    if stmts == [] then {} else OpsIn(stmts[0]) + Ops(stmts[1..])
  }

  function OpsIn(s: Stmt): set<Op>
    decreases s, 0
  {
    match s
    case Do(op) => {op}
    case Block(_, body) => Ops(body)
  }

  lemma OpsParts(stmts: seq<Stmt>)
    requires stmts != []
    ensures OpsIn(stmts[0]) <= Ops(stmts) && Ops(stmts[1..]) <= Ops(stmts)
    ensures stmts[0].Do? ==> stmts[0].op in Ops(stmts)
    ensures stmts[0].Block? ==> Ops(stmts[0].body) <= Ops(stmts)
  {
  }

  lemma {:induction false} OpsJoin(a: seq<Stmt>, b: seq<Stmt>)
    ensures Ops(a + b) == Ops(a) + Ops(b)
  {
    if a == [] {
      assert a + b == b;
    } else {
      assert (a + b)[0] == a[0] && (a + b)[1..] == a[1..] + b;
      OpsJoin(a[1..], b);
    }
  }

  lemma OpsSingle(s: Stmt)
    ensures Ops([s]) == OpsIn(s)
  {
    assert [s][1..] == [];
  }

  lemma OpsSplit(stmts: seq<Stmt>, j: nat)
    requires j < |stmts|
    ensures Ops(stmts) == Ops(stmts[..j]) + OpsIn(stmts[j]) + Ops(stmts[j + 1..])
  {
    assert stmts == stmts[..j] + ([stmts[j]] + stmts[j + 1..]);
    OpsJoin(stmts[..j], [stmts[j]] + stmts[j + 1..]);
    OpsJoin([stmts[j]], stmts[j + 1..]);
    OpsSingle(stmts[j]);
  }

  /** The operations, rewired. */
  function Images(ops: set<Op>, was: nat, now: nat): set<Op> {
    set op | op in ops :: RewiredOp(op, was, now)
  }

  lemma {:induction false} OpsRewired(stmts: seq<Stmt>, was: nat, now: nat)
    ensures Ops(Rewired(stmts, was, now)) == Images(Ops(stmts), was, now)
    decreases stmts
  {
    if stmts != [] {
      OpsRewired(stmts[1..], was, now);
      assert Rewired(stmts, was, now)[1..] == Rewired(stmts[1..], was, now);
      if stmts[0].Block? {
        OpsRewired(stmts[0].body, was, now);
      }
    }
  }

  lemma {:induction false} HasIsOp(stmts: seq<Stmt>, t: Op)
    ensures Has(stmts, t) <==> t in Ops(stmts)
    decreases stmts
  {
    if stmts != [] {
      HasIsOp(stmts[1..], t);
      if stmts[0].Block? {
        HasIsOp(stmts[0].body, t);
      }
    }
  }

  /** Nothing in the region writes the buffer, the operation to be ignored aside. */
  lemma {:induction false} RegionIsOps(stmts: seq<Stmt>, buffer: nat, ignored: Option<nat>)
    requires !RegionWritesTo(stmts, buffer, ignored)
    ensures forall op :: op in Ops(stmts) && Some(op.id) != ignored ==> !WritesTo(op, buffer)
    decreases stmts
  {
    if stmts != [] {
      RegionIsOps(stmts[1..], buffer, ignored);
      if stmts[0].Block? {
        RegionIsOps(stmts[0].body, buffer, ignored);
      }
    }
  }

  lemma {:induction false} OpsErased(stmts: seq<Stmt>, t: Op)
    ensures Ops(Erased(stmts, t)) <= Ops(stmts)
    decreases stmts
  {
    if stmts != [] {
      OpsErased(stmts[1..], t);
      OpsJoin(ErasedIn(stmts[0], t), stmts[1..]);
      OpsJoin([stmts[0]], Erased(stmts[1..], t));
      OpsSingle(stmts[0]);
      if stmts[0].Block? {
        OpsErased(stmts[0].body, t);
        OpsSingle(Block(stmts[0].kind, Erased(stmts[0].body, t)));
      }
    }
  }

  lemma {:induction false} OpsSlice(stmts: seq<Stmt>, t: Op, dest: nat)
    requires t.Transfer?
    ensures Ops(Slice(stmts, t, dest)) <= {t.(dest := dest)}
    decreases stmts
  {
    if stmts != [] {
      OpsSlice(stmts[1..], t, dest);
      match stmts[0]
      case Do(op) => OpsSingle(Do(t.(dest := dest)));
      case Block(kind, body) =>
        OpsSlice(body, t, dest);
        OpsSingle(Block(kind, Slice(body, t, dest)));
    }
  }

  lemma OpsSibling(stage: seq<Stmt>, t: Op, now: nat)
    requires t.Transfer?
    ensures Ops(Sibling(stage, t, now, now)) <= {t.(dest := now), Alloc(now, now)}
  {
    var inner := Block(Stage, Slice(stage, t, now));
    OpsSlice(stage, t, now);
    OpsSingle(inner);
    OpsSingle(Block(Pipeline, [inner]));
    assert Sibling(stage, t, now, now)[1..] == [Block(Pipeline, [inner])];
  }

  lemma OpsAround(stmts: seq<Stmt>, j: nat, child: seq<Stmt>, was: nat, now: nat)
    requires j < |stmts|
    ensures Ops(Around(stmts, j, child, was, now)) == Images(Ops(stmts[..j]), was, now) + Ops(child) + Images(Ops(stmts[j + 1..]), was, now)
  {
    var a, b := Rewired(stmts[..j], was, now), Rewired(stmts[j + 1..], was, now);
    OpsJoin(a + child, b);
    OpsJoin(a, child);
    OpsRewired(stmts[..j], was, now);
    OpsRewired(stmts[j + 1..], was, now);
  }

  /** What statement `j` becomes, the whole becomes. */
  lemma AroundImages(stmts: seq<Stmt>, j: nat, child: seq<Stmt>, was: nat, now: nat, more: set<Op>)
    requires j < |stmts| && Ops(child) <= Images(OpsIn(stmts[j]), was, now) + more
    ensures Ops(Around(stmts, j, child, was, now)) <= Images(Ops(stmts), was, now) + more
  {
    OpsAround(stmts, j, child, was, now);
    OpsSplit(stmts, j);
  }

  // ---------------------------------------------------------------------------------------------
  // How often an identity occurs
  // ---------------------------------------------------------------------------------------------

  function Count(stmts: seq<Stmt>, id: nat): nat
    decreases stmts, 1
  {
    if stmts == [] then 0 else CountIn(stmts[0], id) + Count(stmts[1..], id)
  }

  function CountIn(s: Stmt, id: nat): nat
    decreases s, 0
  {
    match s
    case Do(op) => if op.id == id then 1 else 0
    case Block(_, body) => Count(body, id)
  }

  lemma {:induction false} CountJoin(a: seq<Stmt>, b: seq<Stmt>, id: nat)
    ensures Count(a + b, id) == Count(a, id) + Count(b, id)
  {
    if a == [] {
      assert a + b == b;
    } else {
      assert (a + b)[0] == a[0] && (a + b)[1..] == a[1..] + b;
      CountJoin(a[1..], b, id);
    }
  }

  lemma CountSingle(s: Stmt, id: nat)
    ensures Count([s], id) == CountIn(s, id)
  {
    assert [s][1..] == [];
  }

  lemma {:induction false} OpIsCounted(stmts: seq<Stmt>, op: Op)
    requires op in Ops(stmts)
    ensures Count(stmts, op.id) > 0
    decreases stmts
  {
    if op in Ops(stmts[1..]) {
      OpIsCounted(stmts[1..], op);
    } else if stmts[0].Block? {
      OpIsCounted(stmts[0].body, op);
    }
  }

  lemma {:induction false} NoneCounted(stmts: seq<Stmt>, id: nat)
    requires forall op :: op in Ops(stmts) ==> op.id != id
    ensures Count(stmts, id) == 0
    decreases stmts
  {
    if stmts != [] {
      OpsParts(stmts);
      NoneCounted(stmts[1..], id);
      if stmts[0].Block? {
        NoneCounted(stmts[0].body, id);
      }
    }
  }

  lemma {:induction false} CountedOnce(stmts: seq<Stmt>, a: Op, b: Op)
    requires a in Ops(stmts) && b in Ops(stmts) && a.id == b.id && Count(stmts, a.id) <= 1
    ensures a == b
    decreases stmts
  {
    if a in Ops(stmts[1..]) {
      OpIsCounted(stmts[1..], a);
      NotCountedNotIn(stmts[0], b);
      CountedOnce(stmts[1..], a, b);
    } else {
      CountedIn(stmts[0], a);
      if b in Ops(stmts[1..]) {
        OpIsCounted(stmts[1..], b);
      }
      if stmts[0].Block? {
        CountedOnce(stmts[0].body, a, b);
      }
    }
  }

  lemma CountedIn(s: Stmt, op: Op)
    requires op in OpsIn(s)
    ensures CountIn(s, op.id) > 0
  {
    if s.Block? {
      OpIsCounted(s.body, op);
    }
  }

  lemma NotCountedNotIn(s: Stmt, op: Op)
    ensures CountIn(s, op.id) == 0 ==> op !in OpsIn(s)
  {
    if op in OpsIn(s) {
      CountedIn(s, op);
    }
  }

  lemma {:induction false} CountRewired(stmts: seq<Stmt>, was: nat, now: nat, id: nat)
    ensures Count(Rewired(stmts, was, now), id) == Count(stmts, id)
    decreases stmts
  {
    if stmts != [] {
      CountRewired(stmts[1..], was, now, id);
      assert Rewired(stmts, was, now)[1..] == Rewired(stmts[1..], was, now);
      if stmts[0].Block? {
        CountRewired(stmts[0].body, was, now, id);
      }
    }
  }

  function One(id: nat, other: nat): nat {
    if id == other then 1 else 0
  }

  lemma {:induction false} CountErased(stmts: seq<Stmt>, t: Op, id: nat)
    requires Has(stmts, t)
    ensures Count(Erased(stmts, t), id) + One(id, t.id) == Count(stmts, id)
    decreases stmts
  {
    if HasIn(stmts[0], t) {
      CountJoin(ErasedIn(stmts[0], t), stmts[1..], id);
      if stmts[0].Block? {
        CountErased(stmts[0].body, t, id);
        CountSingle(Block(stmts[0].kind, Erased(stmts[0].body, t)), id);
      }
    } else {
      CountErased(stmts[1..], t, id);
      assert Erased(stmts, t)[1..] == Erased(stmts[1..], t);
    }
  }

  lemma {:induction false} CountSlice(stmts: seq<Stmt>, t: Op, dest: nat, id: nat)
    requires t.Transfer? && Has(stmts, t)
    ensures Count(Slice(stmts, t, dest), id) == One(id, t.id)
    decreases stmts
  {
    if HasIn(stmts[0], t) {
      match stmts[0]
      case Do(op) => CountSingle(Do(t.(dest := dest)), id);
      case Block(kind, body) =>
        CountSlice(body, t, dest, id);
        CountSingle(Block(kind, Slice(body, t, dest)), id);
    } else {
      CountSlice(stmts[1..], t, dest, id);
    }
  }

  lemma CountSibling(stage: seq<Stmt>, t: Op, now: nat, id: nat)
    requires t.Transfer? && Has(stage, t)
    ensures Count(Sibling(stage, t, now, now), id) == One(id, t.id) + One(id, now)
  {
    var inner := Block(Stage, Slice(stage, t, now));
    CountSlice(stage, t, now, id);
    CountSingle(inner, id);
    CountSingle(Block(Pipeline, [inner]), id);
    assert Sibling(stage, t, now, now)[1..] == [Block(Pipeline, [inner])];
  }

  lemma CountAround(stmts: seq<Stmt>, j: nat, child: seq<Stmt>, was: nat, now: nat, id: nat)
    requires j < |stmts|
    ensures Count(Around(stmts, j, child, was, now), id) + CountIn(stmts[j], id) == Count(stmts, id) + Count(child, id)
  {
    var a, b := Rewired(stmts[..j], was, now), Rewired(stmts[j + 1..], was, now);
    CountJoin(a + child, b, id);
    CountJoin(a, child, id);
    CountRewired(stmts[..j], was, now, id);
    CountRewired(stmts[j + 1..], was, now, id);
    assert stmts == stmts[..j] + ([stmts[j]] + stmts[j + 1..]);
    CountJoin(stmts[..j], [stmts[j]] + stmts[j + 1..], id);
  }

  lemma {:induction false} CountOut(stmts: seq<Stmt>, path: seq<nat>, stage: nat, t: Op, now: nat, id: nat)
    requires ValidPath(stmts, path, stage, t)
    ensures Count(OutOf(stmts, path, stage, t, now), id) + One(id, t.id) == Count(stmts, id)
    decreases |path|
  {
    var Block(kind, body) := stmts[path[0]];
    var body';
    if |path| == 1 {
      var donor := Block(Stage, Erased(body[stage].body, t));
      body' := Around(body, stage, [donor], t.dest, now);
      CountErased(body[stage].body, t, id);
      CountSingle(donor, id);
      CountAround(body, stage, [donor], t.dest, now, id);
    } else {
      body' := OutOf(body, path[1..], stage, t, now);
      CountOut(body, path[1..], stage, t, now, id);
    }
    CountSingle(Block(kind, body'), id);
    CountAround(stmts, path[0], [Block(kind, body')], t.dest, now, id);
  }

  lemma {:induction false} DonorHas(stmts: seq<Stmt>, path: seq<nat>, stage: nat, t: Op)
    requires ValidPath(stmts, path, stage, t)
    ensures Has(Donor(stmts, path, stage, t), t)
    decreases |path|
  {
    if |path| > 1 {
      DonorHas(stmts[path[0]].body, path[1..], stage, t);
    }
  }

  /** A hoist adds the new allocation; apart from that every identity occurs as often as before. */
  lemma {:induction false} CountHoisted(stmts: seq<Stmt>, path: seq<nat>, at: nat, stage: nat, t: Op, now: nat, id: nat)
    requires ValidPath(stmts, path, stage, t) && at + 1 < |path|
    ensures Count(HoistedAt(stmts, path, at, stage, t, now), id) == Count(stmts, id) + One(id, now)
    decreases |path|
  {
    var Block(kind, body) := stmts[path[0]];
    if at == 0 {
      var sibling, out := Sibling(Donor(stmts, path, stage, t), t, now, now), Block(kind, OutOf(body, path[1..], stage, t, now));
      CountOut(body, path[1..], stage, t, now, id);
      DonorHas(stmts, path, stage, t);
      CountSibling(Donor(stmts, path, stage, t), t, now, id);
      CountSingle(out, id);
      CountJoin(sibling, [out], id);
      CountAround(stmts, path[0], sibling + [out], t.dest, now, id);
    } else {
      var inner := Block(kind, HoistedAt(body, path[1..], at - 1, stage, t, now));
      CountHoisted(body, path[1..], at - 1, stage, t, now, id);
      CountSingle(inner, id);
      CountAround(stmts, path[0], [inner], t.dest, now, id);
    }
  }

  lemma {:induction false} CountDonor(stmts: seq<Stmt>, path: seq<nat>, stage: nat, t: Op, id: nat)
    requires ValidPath(stmts, path, stage, t)
    ensures Count(Donor(stmts, path, stage, t), id) <= Count(stmts, id)
    decreases |path|
  {
    var body := stmts[path[0]].body;
    CountPart(stmts, path[0], id);
    if |path| == 1 {
      CountPart(body, stage, id);
    } else {
      CountDonor(body, path[1..], stage, t, id);
    }
  }

  lemma CountPart(stmts: seq<Stmt>, j: nat, id: nat)
    requires j < |stmts|
    ensures CountIn(stmts[j], id) <= Count(stmts, id)
  {
    CountAround(stmts, j, [], 0, 0, id);
  }

  // ---------------------------------------------------------------------------------------------
  // The operations after a hoist
  // ---------------------------------------------------------------------------------------------

  /** Nothing but the transfer has to do with its destination. */
  ghost predicate Lone(stage: seq<Stmt>, t: Op)
    requires t.Transfer?
  {
    t.source != t.dest && forall op :: op in Ops(stage) && op != t ==> !Reads(op, t.dest) && !WritesTo(op, t.dest)
  }

  lemma RenamedAllSame(bs: seq<nat>, was: nat, now: nat)
    requires was !in bs
    ensures RenamedAll(bs, was, now) == bs
  {
  }

  lemma KeptOp(op: Op, was: nat, now: nat)
    requires !Reads(op, was) && !WritesTo(op, was)
    ensures RewiredOp(op, was, now) == op
  {
    match op
    case Transfer(_, source, _, _) => assert source in Sources(op);
    case Push(_, source, _) => assert source in Sources(op);
    case Compute(_, _, sources, dests, _) =>
      RenamedAllSame(sources, was, now);
      RenamedAllSame(dests, was, now);
    case Alloc(_, _) =>
  }

  /** The donor stage and the sibling pipeline hold the operations that the stage held, rewired, and the new allocation. */
  lemma DonorImages(stage: seq<Stmt>, t: Op, now: nat)
    requires t.Transfer? && Has(stage, t) && Lone(stage, t) && Count(stage, t.id) <= 1
    ensures Ops(Erased(stage, t)) <= Images(Ops(stage), t.dest, now)
    ensures Ops(Sibling(stage, t, now, now)) <= Images(Ops(stage), t.dest, now) + {Alloc(now, now)}
  {
    OpsErased(stage, t);
    CountErased(stage, t, t.id);
    forall op | op in Ops(Erased(stage, t)) ensures op in Images(Ops(stage), t.dest, now) {
      OpIsCounted(Erased(stage, t), op);
      KeptOp(op, t.dest, now);
    }
    HasIsOp(stage, t);
    OpsSibling(stage, t, now);
    assert RewiredOp(t, t.dest, now) == t.(dest := now);
  }

  /** The donor stage at the end of the path holds the transfer once, and nothing else to do with its destination. */
  ghost predicate Apt(stmts: seq<Stmt>, path: seq<nat>, stage: nat, t: Op)
    requires ValidPath(stmts, path, stage, t)
  {
    Lone(Donor(stmts, path, stage, t), t) && Count(Donor(stmts, path, stage, t), t.id) <= 1
  }

  lemma {:induction false} OutImages(stmts: seq<Stmt>, path: seq<nat>, stage: nat, t: Op, now: nat)
    requires ValidPath(stmts, path, stage, t) && Apt(stmts, path, stage, t)
    ensures Ops(OutOf(stmts, path, stage, t, now)) <= Images(Ops(stmts), t.dest, now)
    decreases |path|
  {
    var Block(kind, body) := stmts[path[0]];
    var body';
    if |path| == 1 {
      var donor := Block(Stage, Erased(body[stage].body, t));
      body' := Around(body, stage, [donor], t.dest, now);
      DonorImages(body[stage].body, t, now);
      OpsSingle(donor);
      AroundImages(body, stage, [donor], t.dest, now, {});
    } else {
      body' := OutOf(body, path[1..], stage, t, now);
      OutImages(body, path[1..], stage, t, now);
    }
    OpsSingle(Block(kind, body'));
    AroundImages(stmts, path[0], [Block(kind, body')], t.dest, now, {});
  }

  lemma {:induction false} DonorOps(stmts: seq<Stmt>, path: seq<nat>, stage: nat, t: Op)
    requires ValidPath(stmts, path, stage, t)
    ensures Ops(Donor(stmts, path, stage, t)) <= Ops(stmts)
    decreases |path|
  {
    var body := stmts[path[0]].body;
    OpsSplit(stmts, path[0]);
    if |path| == 1 {
      OpsSplit(body, stage);
    } else {
      DonorOps(body, path[1..], stage, t);
    }
  }

  /** After a hoist there are the operations that there were, rewired, and the new allocation. */
  lemma {:induction false} HoistedImages(stmts: seq<Stmt>, path: seq<nat>, at: nat, stage: nat, t: Op, now: nat)
    requires ValidPath(stmts, path, stage, t) && at + 1 < |path| && Apt(stmts, path, stage, t)
    ensures Ops(HoistedAt(stmts, path, at, stage, t, now)) <= Images(Ops(stmts), t.dest, now) + {Alloc(now, now)}
    decreases |path|
  {
    var Block(kind, body) := stmts[path[0]];
    if at == 0 {
      var donor, out := Donor(stmts, path, stage, t), Block(kind, OutOf(body, path[1..], stage, t, now));
      var sibling := Sibling(donor, t, now, now);
      OutImages(body, path[1..], stage, t, now);
      DonorHas(stmts, path, stage, t);
      DonorImages(donor, t, now);
      DonorOps(body, path[1..], stage, t);
      OpsSingle(out);
      OpsJoin(sibling, [out]);
      AroundImages(stmts, path[0], sibling + [out], t.dest, now, {Alloc(now, now)});
    } else {
      var inner := Block(kind, HoistedAt(body, path[1..], at - 1, stage, t, now));
      HoistedImages(body, path[1..], at - 1, stage, t, now);
      OpsSingle(inner);
      AroundImages(stmts, path[0], [inner], t.dest, now, {Alloc(now, now)});
    }
  }
}
