/**
 * Hoisting a transfer keeps the order of the others and their reads: what is read only after the
 * operation that writes it still is.
 */
module HoistedOrder {
  import opened Sequences
  import opened TransferHoisting
  import opened TransferRuns
  import opened HoistedReads
  import opened HoistedOps

  // ---------------------------------------------------------------------------------------------
  // Reads that come after a transfer, by its identity and its destination
  // ---------------------------------------------------------------------------------------------

  predicate DoneId(stmts: seq<Stmt>, id: nat, done: bool)
    decreases stmts, 1
  {
    if stmts == [] then done else DoneId(stmts[1..], id, DoneIdIn(stmts[0], id, done))
  }

  predicate DoneIdIn(s: Stmt, id: nat, done: bool)
    decreases s, 0
  {
    match s
    case Do(op) => done || op.id == id
    case Block(kind, body) => if kind.Loop? && kind.trip == 0 then done else DoneId(body, id, done)
  }

  /** The buffer is read only where the operation `id` has been run. */
  predicate FollowsId(stmts: seq<Stmt>, id: nat, buffer: nat, done: bool)
    decreases stmts, 1
  {
    stmts == [] || (FollowsIdIn(stmts[0], id, buffer, done) && FollowsId(stmts[1..], id, buffer, DoneIdIn(stmts[0], id, done)))
  }

  predicate FollowsIdIn(s: Stmt, id: nat, buffer: nat, done: bool)
    decreases s, 0
  {
    match s
    case Do(op) => Reads(op, buffer) ==> done
    case Block(_, body) => FollowsId(body, id, buffer, done)
  }

  lemma {:induction false} FollowsById(stmts: seq<Stmt>, t: Op, done: bool)
    requires t.Transfer? && forall op :: op in Ops(stmts) && op.id == t.id ==> op == t
    ensures DoneAfter(stmts, t, done) == DoneId(stmts, t.id, done)
    ensures Follows(stmts, t, done) == FollowsId(stmts, t.id, t.dest, done)
    decreases stmts
  {
    if stmts != [] {
      OpsParts(stmts);
      match stmts[0] {
        case Do(op) =>
        case Block(_, body) => FollowsById(body, t, done);
      }
      FollowsById(stmts[1..], t, DoneAfterOne(stmts[0], t, done));
    }
  }

  lemma {:induction false} FollowsJoin(a: seq<Stmt>, b: seq<Stmt>, id: nat, buffer: nat, done: bool)
    ensures DoneId(a + b, id, done) == DoneId(b, id, DoneId(a, id, done))
    ensures FollowsId(a + b, id, buffer, done) == (FollowsId(a, id, buffer, done) && FollowsId(b, id, buffer, DoneId(a, id, done)))
  {
    if a == [] {
      assert a + b == b;
    } else {
      assert (a + b)[0] == a[0] && (a + b)[1..] == a[1..] + b;
      FollowsJoin(a[1..], b, id, buffer, DoneIdIn(a[0], id, done));
    }
  }

  lemma FollowsSingle(s: Stmt, id: nat, buffer: nat, done: bool)
    ensures DoneId([s], id, done) == DoneIdIn(s, id, done)
    ensures FollowsId([s], id, buffer, done) == FollowsIdIn(s, id, buffer, done)
  {
    assert [s][1..] == [];
  }

  lemma {:induction false} DoneIdOr(stmts: seq<Stmt>, id: nat, done: bool)
    ensures DoneId(stmts, id, done) == (done || DoneId(stmts, id, false))
    decreases stmts
  {
    if stmts != [] {
      if stmts[0].Block? {
        DoneIdOr(stmts[0].body, id, done);
      }
      DoneIdOr(stmts[1..], id, DoneIdIn(stmts[0], id, done));
      DoneIdOr(stmts[1..], id, DoneIdIn(stmts[0], id, false));
    }
  }

  /** Once the operation has been run nothing is wrong any more. */
  lemma {:induction false} FollowsAlways(stmts: seq<Stmt>, id: nat, buffer: nat)
    ensures FollowsId(stmts, id, buffer, true) && DoneId(stmts, id, true)
    decreases stmts
  {
    if stmts != [] {
      if stmts[0].Block? {
        FollowsAlways(stmts[0].body, id, buffer);
      }
      assert DoneIdIn(stmts[0], id, true) && FollowsIdIn(stmts[0], id, buffer, true);
      FollowsAlways(stmts[1..], id, buffer);
    }
  }

  lemma {:induction false} FollowsUnread(stmts: seq<Stmt>, id: nat, buffer: nat, done: bool)
    requires forall op :: op in Ops(stmts) ==> !Reads(op, buffer)
    ensures FollowsId(stmts, id, buffer, done)
    decreases stmts
  {
    if stmts != [] {
      OpsParts(stmts);
      if stmts[0].Block? {
        FollowsUnread(stmts[0].body, id, buffer, done);
      }
      FollowsUnread(stmts[1..], id, buffer, DoneIdIn(stmts[0], id, done));
    }
  }

  /** A buffer that is read where the operation is not has the operation run before. */
  lemma {:induction false} ReadNeedsDone(stmts: seq<Stmt>, id: nat, buffer: nat, done: bool, op: Op)
    requires op in Ops(stmts) && Reads(op, buffer) && Count(stmts, id) == 0
    requires FollowsId(stmts, id, buffer, done)
    ensures done
    decreases stmts
  {
    if op in Ops(stmts[1..]) {
      DoneElsewhere(stmts[0], id, done);
      ReadNeedsDone(stmts[1..], id, buffer, DoneIdIn(stmts[0], id, done), op);
    } else if stmts[0].Block? {
      ReadNeedsDone(stmts[0].body, id, buffer, done, op);
    }
  }

  lemma {:induction false} DoneElsewhere(s: Stmt, id: nat, done: bool)
    requires CountIn(s, id) == 0
    ensures DoneIdIn(s, id, done) == done
    decreases s
  {
    if s.Block? {
      AllDoneElsewhere(s.body, id, done);
    }
  }

  lemma {:induction false} AllDoneElsewhere(stmts: seq<Stmt>, id: nat, done: bool)
    requires Count(stmts, id) == 0
    ensures DoneId(stmts, id, done) == done
    decreases stmts
  {
    if stmts != [] {
      DoneElsewhere(stmts[0], id, done);
      AllDoneElsewhere(stmts[1..], id, done);
    }
  }

  // ---------------------------------------------------------------------------------------------
  // Rewired statements, the donor stage and the sibling pipeline
  // ---------------------------------------------------------------------------------------------

  ghost predicate Without(ops: set<Op>, buffer: nat) {
    forall op :: op in ops ==> !Reads(op, buffer) && !WritesTo(op, buffer)
  }

  lemma RenamedReads(op: Op, was: nat, now: nat, buffer: nat)
    requires !Reads(op, now) && now != was && buffer != now
    ensures Reads(RewiredOp(op, was, now), Renamed(buffer, was, now)) <==> Reads(op, buffer)
  {
    match op
    case Transfer(_, source, _, _) => assert source in Sources(op);
    case Push(_, source, _) => assert source in Sources(op);
    case Compute(_, _, sources, _, _) => RenamedMembers(sources, was, now);
    case Alloc(_, _) =>
  }

  lemma {:induction false} FollowsRewired(stmts: seq<Stmt>, was: nat, now: nat, id: nat, buffer: nat, done: bool)
    requires Without(Ops(stmts), now) && now != was && buffer != now
    ensures DoneId(Rewired(stmts, was, now), id, done) == DoneId(stmts, id, done)
    ensures FollowsId(Rewired(stmts, was, now), id, Renamed(buffer, was, now), done) == FollowsId(stmts, id, buffer, done)
    decreases stmts
  {
    if stmts != [] {
      OpsParts(stmts);
      assert Rewired(stmts, was, now)[1..] == Rewired(stmts[1..], was, now);
      match stmts[0] {
        case Do(op) => RenamedReads(op, was, now, buffer);
        case Block(_, body) => FollowsRewired(body, was, now, id, buffer, done);
      }
      FollowsRewired(stmts[1..], was, now, id, buffer, DoneIdIn(stmts[0], id, done));
    }
  }

  lemma {:induction false} FollowsErased(stmts: seq<Stmt>, t: Op, id: nat, buffer: nat, done: bool)
    requires id != t.id
    ensures DoneId(Erased(stmts, t), id, done) == DoneId(stmts, id, done)
    ensures FollowsId(stmts, id, buffer, done) ==> FollowsId(Erased(stmts, t), id, buffer, done)
    decreases stmts
  {
    if stmts != [] {
      if HasIn(stmts[0], t) {
        FollowsJoin(ErasedIn(stmts[0], t), stmts[1..], id, buffer, done);
        if stmts[0].Do? {
          assert FollowsIdIn(stmts[0], id, buffer, done) ==> DoneIdIn(stmts[0], id, done) == done;
        } else {
          FollowsErased(stmts[0].body, t, id, buffer, done);
          var left := Block(stmts[0].kind, Erased(stmts[0].body, t));
          FollowsSingle(left, id, buffer, done);
          assert DoneIdIn(left, id, done) == DoneIdIn(stmts[0], id, done);
          assert FollowsIdIn(stmts[0], id, buffer, done) ==> FollowsIdIn(left, id, buffer, done);
        }
      } else {
        assert Erased(stmts, t)[1..] == Erased(stmts[1..], t);
        FollowsErased(stmts[1..], t, id, buffer, DoneIdIn(stmts[0], id, done));
      }
    }
  }

  /** The operation `id` writes the buffer, which is the old one if it is the transfer; the new buffer is new. */
  ghost predicate Fits(ops: set<Op>, t: Op, now: nat, id: nat, buffer: nat) {
    && t.Transfer? && now != t.dest && buffer != now && Without(ops, now)
    && (id == t.id ==> buffer == t.dest)
    && forall op :: op in ops && op.id == id ==> WritesTo(op, buffer)
  }

  /** With the new statements the buffer, renamed, is still read only after the operation, which is done no later. */
  ghost predicate Carries(stmts: seq<Stmt>, stmts': seq<Stmt>, t: Op, now: nat, id: nat, buffer: nat, done: bool, done': bool)
    requires t.Transfer?
  {
    && FollowsId(stmts', id, Renamed(buffer, t.dest, now), done')
    && (DoneId(stmts, id, done) ==> DoneId(stmts', id, done'))
  }

  lemma RewiredCarries(stmts: seq<Stmt>, t: Op, now: nat, id: nat, buffer: nat, done: bool, done': bool)
    requires Fits(Ops(stmts), t, now, id, buffer) && FollowsId(stmts, id, buffer, done) && (done ==> done')
    ensures Carries(stmts, Rewired(stmts, t.dest, now), t, now, id, buffer, done, done')
  {
    FollowsAlways(stmts, id, buffer);
    FollowsRewired(stmts, t.dest, now, id, buffer, done');
    DoneIdOr(stmts, id, done);
    DoneIdOr(stmts, id, done');
  }

  lemma DonorCarries(stage: seq<Stmt>, t: Op, now: nat, id: nat, buffer: nat, done: bool, done': bool)
    requires Fits(Ops(stage), t, now, id, buffer) && FollowsId(stage, id, buffer, done) && (done ==> done')
    requires id == t.id && DoneId(stage, id, false) ==> done'
    ensures Carries(stage, Erased(stage, t), t, now, id, buffer, done, done')
  {
    DoneIdOr(stage, id, done);
    DoneIdOr(Erased(stage, t), id, done');
    if id != t.id {
      FollowsErased(stage, t, id, buffer, false);
      FollowsAlways(stage, id, buffer);
      FollowsErased(stage, t, id, buffer, done');
    }
    if buffer == t.dest {
      OpsErased(stage, t);
      FollowsUnread(Erased(stage, t), id, now, done');
    }
  }

  /** Where the stage runs the transfer, the slice does. */
  lemma {:induction false} SliceIsDone(stmts: seq<Stmt>, t: Op, now: nat)
    requires t.Transfer? && Has(stmts, t) && Count(stmts, t.id) <= 1 && DoneId(stmts, t.id, false)
    ensures DoneId(Slice(stmts, t, now), t.id, false)
    decreases stmts
  {
    if HasIn(stmts[0], t) {
      HasIsOp([stmts[0]], t);
      OpsSingle(stmts[0]);
      OpIsCounted([stmts[0]], t);
      CountSingle(stmts[0], t.id);
      AllDoneElsewhere(stmts[1..], t.id, DoneIdIn(stmts[0], t.id, false));
      assert Slice(stmts, t, now) == SliceIn(stmts[0], t, now) && DoneIdIn(stmts[0], t.id, false);
      match stmts[0]
      case Do(op) => FollowsSingle(Do(t.(dest := now)), t.id, 0, false);
      case Block(kind, body) =>
        SliceIsDone(body, t, now);
        FollowsSingle(Block(kind, Slice(body, t, now)), t.id, 0, false);
    } else {
      HasIsOp(stmts[1..], t);
      OpIsCounted(stmts[1..], t);
      DoneElsewhere(stmts[0], t.id, false);
      SliceIsDone(stmts[1..], t, now);
    }
  }

  /** The sibling runs the transfer if the stage does, and reads nothing but its source. */
  lemma SiblingCarries(stage: seq<Stmt>, t: Op, now: nat, id: nat, buffer: nat, done: bool)
    requires t.Transfer? && Has(stage, t) && Count(stage, t.id) <= 1 && (buffer == t.source ==> done)
    ensures FollowsId(Sibling(stage, t, now, now), id, buffer, done)
    ensures done ==> DoneId(Sibling(stage, t, now, now), id, done)
    ensures id == t.id && DoneId(stage, id, false) ==> DoneId(Sibling(stage, t, now, now), id, done)
  {
    var sibling := Sibling(stage, t, now, now);
    var slice := Slice(stage, t, now);
    DoneIdOr(sibling, id, done);
    if done {
      FollowsAlways(sibling, id, buffer);
    } else {
      OpsSibling(stage, t, now);
      FollowsUnread(sibling, id, buffer, done);
    }
    if id == t.id && DoneId(stage, id, false) {
      SliceIsDone(stage, t, now);
      assert sibling[1..] == [Block(Pipeline, [Block(Stage, slice)])];
      FollowsSingle(Block(Pipeline, [Block(Stage, slice)]), id, 0, DoneIdIn(sibling[0], id, false));
      FollowsSingle(Block(Stage, slice), id, 0, DoneIdIn(sibling[0], id, false));
      DoneIdOr(slice, id, DoneIdIn(sibling[0], id, false));
    }
  }

  // ---------------------------------------------------------------------------------------------
  // Around one statement
  // ---------------------------------------------------------------------------------------------

  lemma FollowsSplit(stmts: seq<Stmt>, j: nat, id: nat, buffer: nat, done: bool)
    requires j < |stmts|
    ensures var at := DoneId(stmts[..j], id, done);
      && DoneId(stmts, id, done) == DoneId(stmts[j + 1..], id, DoneIdIn(stmts[j], id, at))
      && (FollowsId(stmts, id, buffer, done) ==>
        && FollowsId(stmts[..j], id, buffer, done) && FollowsIdIn(stmts[j], id, buffer, at)
        && FollowsId(stmts[j + 1..], id, buffer, DoneIdIn(stmts[j], id, at)))
  {
    assert stmts == stmts[..j] + ([stmts[j]] + stmts[j + 1..]);
    FollowsJoin(stmts[..j], [stmts[j]] + stmts[j + 1..], id, buffer, done);
    FollowsJoin([stmts[j]], stmts[j + 1..], id, buffer, DoneId(stmts[..j], id, done));
    FollowsSingle(stmts[j], id, buffer, DoneId(stmts[..j], id, done));
  }

  /** If statement `j` and what is there instead carry the order, so do the statements around it. */
  lemma AroundCarries(stmts: seq<Stmt>, j: nat, child: seq<Stmt>, t: Op, now: nat, id: nat, buffer: nat, done: bool, done': bool, at: bool, at': bool)
    requires j < |stmts| && Fits(Ops(stmts), t, now, id, buffer) && FollowsId(stmts, id, buffer, done) && (done ==> done')
    requires at == DoneId(stmts[..j], id, done) && at' == DoneId(Rewired(stmts[..j], t.dest, now), id, done')
    requires Carries([stmts[j]], child, t, now, id, buffer, at, at')
    ensures Carries(stmts, Around(stmts, j, child, t.dest, now), t, now, id, buffer, done, done')
  {
    var a, b := Rewired(stmts[..j], t.dest, now), Rewired(stmts[j + 1..], t.dest, now);
    var buffer' := Renamed(buffer, t.dest, now);
    FollowsSplit(stmts, j, id, buffer, done);
    OpsSplit(stmts, j);
    FollowsSingle(stmts[j], id, buffer, at);
    RewiredCarries(stmts[..j], t, now, id, buffer, done, done');
    RewiredCarries(stmts[j + 1..], t, now, id, buffer, DoneIdIn(stmts[j], id, at), DoneId(child, id, at'));
    FollowsJoin(a + child, b, id, buffer', done');
    FollowsJoin(a, child, id, buffer', done');
  }

  lemma Before(stmts: seq<Stmt>, j: nat, t: Op, now: nat, id: nat, buffer: nat, done: bool, done': bool)
    requires j < |stmts| && Fits(Ops(stmts), t, now, id, buffer) && FollowsId(stmts, id, buffer, done) && (done ==> done')
    ensures var at, at' := DoneId(stmts[..j], id, done), DoneId(Rewired(stmts[..j], t.dest, now), id, done');
      FollowsIdIn(stmts[j], id, buffer, at) && (at ==> at') && (done' ==> at') && Fits(OpsIn(stmts[j]), t, now, id, buffer)
  {
    FollowsSplit(stmts, j, id, buffer, done);
    OpsSplit(stmts, j);
    RewiredCarries(stmts[..j], t, now, id, buffer, done, done');
    DoneIdOr(Rewired(stmts[..j], t.dest, now), id, done');
  }

  lemma BlockCarries(kind: Kind, body: seq<Stmt>, body': seq<Stmt>, t: Op, now: nat, id: nat, buffer: nat, done: bool, done': bool)
    requires t.Transfer? && (done ==> done') && Carries(body, body', t, now, id, buffer, done, done')
    ensures Carries([Block(kind, body)], [Block(kind, body')], t, now, id, buffer, done, done')
  {
    FollowsSingle(Block(kind, body), id, buffer, done);
    FollowsSingle(Block(kind, body'), id, Renamed(buffer, t.dest, now), done');
  }

  // ---------------------------------------------------------------------------------------------
  // From the target loop down to the donor stage, and up to the program
  // ---------------------------------------------------------------------------------------------

  lemma {:induction false} OutCarries(stmts: seq<Stmt>, path: seq<nat>, stage: nat, t: Op, now: nat, id: nat, buffer: nat, done: bool, done': bool)
    requires ValidPath(stmts, path, stage, t) && Fits(Ops(stmts), t, now, id, buffer)
    requires FollowsId(stmts, id, buffer, done) && (done ==> done')
    requires id == t.id && DoneId(Donor(stmts, path, stage, t), id, false) ==> done'
    ensures Carries(stmts, OutOf(stmts, path, stage, t, now), t, now, id, buffer, done, done')
    decreases |path|
  {
    var j := path[0];
    var Block(kind, body) := stmts[j];
    var at, at' := DoneId(stmts[..j], id, done), DoneId(Rewired(stmts[..j], t.dest, now), id, done');
    Before(stmts, j, t, now, id, buffer, done, done');
    var body';
    if |path| == 1 {
      body' := Around(body, stage, [Block(Stage, Erased(body[stage].body, t))], t.dest, now);
      StagesCarry(body, stage, t, now, id, buffer, at, at');
    } else {
      body' := OutOf(body, path[1..], stage, t, now);
      OutCarries(body, path[1..], stage, t, now, id, buffer, at, at');
    }
    BlockCarries(kind, body, body', t, now, id, buffer, at, at');
    AroundCarries(stmts, j, [Block(kind, body')], t, now, id, buffer, done, done', at, at');
  }

  lemma StagesCarry(body: seq<Stmt>, stage: nat, t: Op, now: nat, id: nat, buffer: nat, done: bool, done': bool)
    requires stage < |body| && IsStage(body[stage]) && Fits(Ops(body), t, now, id, buffer)
    requires FollowsId(body, id, buffer, done) && (done ==> done')
    requires id == t.id && DoneId(body[stage].body, id, false) ==> done'
    ensures Carries(body, Around(body, stage, [Block(Stage, Erased(body[stage].body, t))], t.dest, now), t, now, id, buffer, done, done')
  {
    var donor := body[stage].body;
    var at, at' := DoneId(body[..stage], id, done), DoneId(Rewired(body[..stage], t.dest, now), id, done');
    Before(body, stage, t, now, id, buffer, done, done');
    DonorCarries(donor, t, now, id, buffer, at, at');
    BlockCarries(Stage, donor, Erased(donor, t), t, now, id, buffer, at, at');
    AroundCarries(body, stage, [Block(Stage, Erased(donor, t))], t, now, id, buffer, done, done', at, at');
  }

  /** What nothing in the loop writes, the transfer reads from before the loop. */
  lemma SourceIsDone(body: seq<Stmt>, t: Op, now: nat, id: nat, done: bool)
    requires t.Transfer? && t in Ops(body) && Fits(Ops(body), t, now, id, t.source) && FollowsId(body, id, t.source, done)
    requires !RegionWritesTo(body, t.source, None)
    ensures done
  {
    RegionIsOps(body, t.source, None);
    NoneCounted(body, id);
    ReadNeedsDone(body, id, t.source, done, t);
  }

  lemma TargetCarries(kind: Kind, body: seq<Stmt>, path: seq<nat>, stage: nat, t: Op, now: nat, id: nat, buffer: nat, done: bool, done': bool)
    requires ValidPath(body, path, stage, t) && Fits(Ops(body), t, now, id, buffer) && Apt(body, path, stage, t)
    requires FollowsId(body, id, buffer, done) && (done ==> done')
    requires !RegionWritesTo(body, t.source, None)
    ensures Carries([Block(kind, body)],
      Sibling(Donor(body, path, stage, t), t, now, now) + [Block(kind, OutOf(body, path, stage, t, now))], t, now, id, buffer, done, done')
  {
    var donor := Donor(body, path, stage, t);
    var sibling, out := Sibling(donor, t, now, now), OutOf(body, path, stage, t, now);
    var buffer' := Renamed(buffer, t.dest, now);
    DonorHas(body, path, stage, t);
    DonorOps(body, path, stage, t);
    HasIsOp(donor, t);
    assert t.source in Sources(t) && t.source != now;
    if buffer' == t.source {
      SourceIsDone(body, t, now, id, done);
    }
    SiblingCarries(donor, t, now, id, buffer', done');
    var at' := DoneId(sibling, id, done');
    OutCarries(body, path, stage, t, now, id, buffer, done, at');
    BlockCarries(kind, body, out, t, now, id, buffer, done, at');
    FollowsJoin(sibling, [Block(kind, out)], id, buffer', done');
  }

  /** After a hoist every buffer, renamed, is still read only after the operation that writes it. */
  lemma {:induction false} HoistedCarries(stmts: seq<Stmt>, path: seq<nat>, at: nat, stage: nat, t: Op, now: nat,
      id: nat, buffer: nat, done: bool, done': bool)
    requires ValidPath(stmts, path, stage, t) && at + 1 < |path| && LegalFrom(stmts, path, at, stage, t)
    requires Fits(Ops(stmts), t, now, id, buffer) && Apt(stmts, path, stage, t)
    requires FollowsId(stmts, id, buffer, done) && (done ==> done')
    ensures Carries(stmts, HoistedAt(stmts, path, at, stage, t, now), t, now, id, buffer, done, done')
    decreases |path|
  {
    var j := path[0];
    var Block(kind, body) := stmts[j];
    var before, before' := DoneId(stmts[..j], id, done), DoneId(Rewired(stmts[..j], t.dest, now), id, done');
    Before(stmts, j, t, now, id, buffer, done, done');
    var child;
    if at == 0 {
      child := Sibling(Donor(stmts, path, stage, t), t, now, now) + [Block(kind, OutOf(body, path[1..], stage, t, now))];
      TargetCarries(kind, body, path[1..], stage, t, now, id, buffer, before, before');
    } else {
      var inner := HoistedAt(body, path[1..], at - 1, stage, t, now);
      child := [Block(kind, inner)];
      HoistedCarries(body, path[1..], at - 1, stage, t, now, id, buffer, before, before');
      BlockCarries(kind, body, inner, t, now, id, buffer, before, before');
    }
    AroundCarries(stmts, j, child, t, now, id, buffer, done, done', before, before');
  }
}
