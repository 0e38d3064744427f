/**
 * Hoisting until nothing changes, seen as a whole: what a program must be like for every hoist of a run
 * to keep what is read, and that every hoist leaves it so.
 */
module HoistedRuns {
  import opened Sequences
  import opened TransferHoisting
  import opened TransferRuns
  import opened HoistedReads
  import opened HoistedOps
  import opened HoistedOrder

  // ---------------------------------------------------------------------------------------------
  // Stages that do not read what they transfer
  // ---------------------------------------------------------------------------------------------

  /** None of the operations reads the destination of a transfer among them. */
  ghost predicate Quiet(ops: set<Op>) {
    forall t, op :: t in ops && op in ops && t.Transfer? ==> !Reads(op, t.dest)
  }

  /** No stage reads what is transferred in it. */
  ghost predicate QuietStages(stmts: seq<Stmt>)
    decreases stmts, 1
  {
    stmts == [] || (QuietIn(stmts[0]) && QuietStages(stmts[1..]))
  }

  ghost predicate QuietIn(s: Stmt)
    decreases s, 0
  {
    s.Block? ==> (s.kind == Stage ==> Quiet(Ops(s.body))) && QuietStages(s.body)
  }

  lemma {:induction false} QuietJoin(a: seq<Stmt>, b: seq<Stmt>)
    ensures QuietStages(a + b) == (QuietStages(a) && QuietStages(b))
  {
    if a == [] {
      assert a + b == b;
    } else {
      assert (a + b)[0] == a[0] && (a + b)[1..] == a[1..] + b;
      QuietJoin(a[1..], b);
    }
  }

  lemma QuietSingle(s: Stmt)
    ensures QuietStages([s]) == QuietIn(s)
  {
    assert [s][1..] == [];
  }

  lemma QuietSplit(stmts: seq<Stmt>, j: nat)
    requires j < |stmts| && QuietStages(stmts)
    ensures QuietStages(stmts[..j]) && QuietIn(stmts[j]) && QuietStages(stmts[j + 1..])
  {
    assert stmts == stmts[..j] + ([stmts[j]] + stmts[j + 1..]);
    QuietJoin(stmts[..j], [stmts[j]] + stmts[j + 1..]);
    QuietJoin([stmts[j]], stmts[j + 1..]);
    QuietSingle(stmts[j]);
  }

  lemma {:induction false} QuietOfOps(stmts: seq<Stmt>)
    requires Quiet(Ops(stmts))
    ensures QuietStages(stmts)
    decreases stmts
  {
    if stmts != [] {
      OpsParts(stmts);
      if stmts[0].Block? {
        QuietOfOps(stmts[0].body);
      }
      QuietOfOps(stmts[1..]);
    }
  }

  lemma QuietImages(ops: set<Op>, was: nat, now: nat)
    requires Quiet(ops) && Without(ops, now) && now != was
    ensures Quiet(Images(ops, was, now) + {Alloc(now, now)})
  {
    forall t', op' | t' in Images(ops, was, now) && op' in Images(ops, was, now) && t'.Transfer?
      ensures !Reads(op', t'.dest)
    {
      var t :| t in ops && t' == RewiredOp(t, was, now);
      var op :| op in ops && op' == RewiredOp(op, was, now);
      assert WritesTo(t, t.dest);
      RenamedReads(op, was, now, t.dest);
    }
  }

  lemma {:induction false} QuietRewired(stmts: seq<Stmt>, was: nat, now: nat)
    requires QuietStages(stmts) && Without(Ops(stmts), now) && now != was
    ensures QuietStages(Rewired(stmts, was, now))
    decreases stmts
  {
    if stmts != [] {
      OpsParts(stmts);
      assert Rewired(stmts, was, now)[1..] == Rewired(stmts[1..], was, now);
      QuietRewired(stmts[1..], was, now);
      if stmts[0].Block? {
        QuietRewired(stmts[0].body, was, now);
        OpsRewired(stmts[0].body, was, now);
        if stmts[0].kind == Stage {
          QuietImages(Ops(stmts[0].body), was, now);
        }
      }
    }
  }

  lemma {:induction false} QuietErased(stmts: seq<Stmt>, t: Op)
    requires QuietStages(stmts)
    ensures QuietStages(Erased(stmts, t))
    decreases stmts
  {
    if stmts != [] {
      if HasIn(stmts[0], t) {
        QuietJoin(ErasedIn(stmts[0], t), stmts[1..]);
        if stmts[0].Block? {
          QuietErased(stmts[0].body, t);
          OpsErased(stmts[0].body, t);
          QuietSingle(Block(stmts[0].kind, Erased(stmts[0].body, t)));
        }
      } else {
        QuietErased(stmts[1..], t);
        assert Erased(stmts, t)[1..] == Erased(stmts[1..], t);
      }
    }
  }

  lemma QuietAround(stmts: seq<Stmt>, j: nat, child: seq<Stmt>, was: nat, now: nat)
    requires j < |stmts| && QuietStages(stmts) && Without(Ops(stmts), now) && now != was && QuietStages(child)
    ensures QuietStages(Around(stmts, j, child, was, now))
  {
    var a, b := Rewired(stmts[..j], was, now), Rewired(stmts[j + 1..], was, now);
    QuietSplit(stmts, j);
    OpsSplit(stmts, j);
    QuietRewired(stmts[..j], was, now);
    QuietRewired(stmts[j + 1..], was, now);
    QuietJoin(a + child, b);
    QuietJoin(a, child);
  }

  lemma QuietBlock(kind: Kind, body: seq<Stmt>, body': seq<Stmt>, was: nat, now: nat)
    requires QuietIn(Block(kind, body)) && Without(Ops(body), now) && now != was
    requires Ops(body') <= Images(Ops(body), was, now) + {Alloc(now, now)} && QuietStages(body')
    ensures QuietStages([Block(kind, body')])
  {
    QuietSingle(Block(kind, body'));
    if kind == Stage {
      QuietImages(Ops(body), was, now);
    }
  }

  lemma {:induction false} OutIsQuiet(stmts: seq<Stmt>, path: seq<nat>, stage: nat, t: Op, now: nat)
    requires ValidPath(stmts, path, stage, t) && Apt(stmts, path, stage, t)
    requires QuietStages(stmts) && Without(Ops(stmts), now) && now != t.dest
    ensures QuietStages(OutOf(stmts, path, stage, t, now))
    decreases |path|
  {
    var j := path[0];
    var Block(kind, body) := stmts[j];
    QuietSplit(stmts, j);
    OpsSplit(stmts, j);
    var body';
    if |path| == 1 {
      var donor := body[stage].body;
      body' := Around(body, stage, [Block(Stage, Erased(donor, t))], t.dest, now);
      QuietSplit(body, stage);
      QuietErased(donor, t);
      OpsErased(donor, t);
      QuietSingle(Block(Stage, Erased(donor, t)));
      QuietAround(body, stage, [Block(Stage, Erased(donor, t))], t.dest, now);
      QuietSingle(Block(kind, body'));
    } else {
      body' := OutOf(body, path[1..], stage, t, now);
      OutIsQuiet(body, path[1..], stage, t, now);
      OutImages(body, path[1..], stage, t, now);
      QuietBlock(kind, body, body', t.dest, now);
    }
    QuietAround(stmts, j, [Block(kind, body')], t.dest, now);
  }

  lemma TargetIsQuiet(kind: Kind, body: seq<Stmt>, path: seq<nat>, stage: nat, t: Op, now: nat)
    requires ValidPath(body, path, stage, t) && Apt(body, path, stage, t)
    requires QuietIn(Block(kind, body)) && Without(Ops(body), now) && now != t.dest && now != t.source
    ensures QuietStages(Sibling(Donor(body, path, stage, t), t, now, now) + [Block(kind, OutOf(body, path, stage, t, now))])
  {
    var donor, out := Donor(body, path, stage, t), OutOf(body, path, stage, t, now);
    OutIsQuiet(body, path, stage, t, now);
    OutImages(body, path, stage, t, now);
    QuietBlock(kind, body, out, t.dest, now);
    SiblingIsQuiet(donor, t, now);
    QuietJoin(Sibling(donor, t, now, now), [Block(kind, out)]);
  }

  lemma SiblingIsQuiet(stage: seq<Stmt>, t: Op, now: nat)
    requires t.Transfer? && t.source != now
    ensures QuietStages(Sibling(stage, t, now, now))
  {
    OpsSibling(stage, t, now);
    QuietOfOps(Sibling(stage, t, now, now));
  }

  /** After a hoist still no stage reads what is transferred in it. */
  lemma {:induction false} HoistedIsQuiet(stmts: seq<Stmt>, path: seq<nat>, at: nat, stage: nat, t: Op, now: nat)
    requires ValidPath(stmts, path, stage, t) && at + 1 < |path| && Apt(stmts, path, stage, t)
    requires QuietStages(stmts) && Without(Ops(stmts), now) && now != t.dest && now != t.source
    ensures QuietStages(HoistedAt(stmts, path, at, stage, t, now))
    decreases |path|
  {
    var j := path[0];
    var Block(kind, body) := stmts[j];
    QuietSplit(stmts, j);
    OpsSplit(stmts, j);
    assert QuietIn(Block(kind, body)) && Without(Ops(body), now) && Apt(body, path[1..], stage, t);
    var child;
    if at == 0 {
      child := Sibling(Donor(stmts, path, stage, t), t, now, now) + [Block(kind, OutOf(body, path[1..], stage, t, now))];
      TargetIsQuiet(kind, body, path[1..], stage, t, now);
    } else {
      var inner := HoistedAt(body, path[1..], at - 1, stage, t, now);
      child := [Block(kind, inner)];
      HoistedIsQuiet(body, path[1..], at - 1, stage, t, now);
      HoistedImages(body, path[1..], at - 1, stage, t, now);
      QuietBlock(kind, body, inner, t.dest, now);
    }
    QuietAround(stmts, j, child, t.dest, now);
  }

  // ---------------------------------------------------------------------------------------------
  // Orderly programs
  // ---------------------------------------------------------------------------------------------

  /** The identity of the operation and its buffers are numbered below `next`. */
  ghost predicate Numbered(op: Op, next: nat) {
    op.id < next && (forall b: nat :: Reads(op, b) ==> b < next) && forall b: nat :: WritesTo(op, b) ==> b < next
  }

  /**
   * No two operations have the same identity, new numbers are new, every transfer runs before whatever
   * reads its destination, and no stage reads what is transferred in it.
   */
  ghost predicate Orderly(program: seq<Stmt>, next: nat) {
    && (forall id: nat :: Count(program, id) <= 1)
    && (forall op :: op in Ops(program) ==> Numbered(op, next))
    && (forall t :: t in Ops(program) && t.Transfer? ==> Follows(program, t, false))
    && QuietStages(program)
  }

  lemma OneOfEach(program: seq<Stmt>, t: Op)
    requires t in Ops(program) && forall id: nat :: Count(program, id) <= 1
    ensures forall op :: op in Ops(program) && op.id == t.id ==> op == t
  {
    forall op | op in Ops(program) && op.id == t.id ensures op == t {
      CountedOnce(program, op, t);
    }
  }

  lemma {:induction false} OnceIsSole(stmts: seq<Stmt>, t: Op, now: nat)
    requires Count(stmts, t.id) <= 1 && Without(Ops(stmts), now)
    requires forall op :: op in Ops(stmts) && op.id == t.id ==> op == t
    ensures Sole(stmts, t, now)
    decreases stmts
  {
    if stmts != [] {
      OpsParts(stmts);
      OnceIsSole(stmts[1..], t, now);
      if stmts[0].Block? {
        OnceIsSole(stmts[0].body, t, now);
      }
      if HasIn(stmts[0], t) && Has(stmts[1..], t) {
        HasIsOp([stmts[0]], t);
        HasIsOp(stmts[1..], t);
        OpsSingle(stmts[0]);
        CountedIn(stmts[0], t);
        OpIsCounted(stmts[1..], t);
      }
    }
  }

  lemma {:induction false} DonorIsQuiet(stmts: seq<Stmt>, path: seq<nat>, stage: nat, t: Op)
    requires ValidPath(stmts, path, stage, t) && QuietStages(stmts)
    ensures Quiet(Ops(Donor(stmts, path, stage, t)))
    decreases |path|
  {
    var body := stmts[path[0]].body;
    QuietSplit(stmts, path[0]);
    if |path| == 1 {
      QuietSplit(body, stage);
    } else {
      DonorIsQuiet(body, path[1..], stage, t);
    }
  }

  /** Below the target loop nothing but the transfer writes its destination. */
  lemma {:induction false} DonorIsUnwritten(stmts: seq<Stmt>, path: seq<nat>, at: nat, stage: nat, t: Op)
    requires ValidPath(stmts, path, stage, t) && at + 1 < |path| && LegalFrom(stmts, path, at, stage, t)
    ensures forall op :: op in Ops(Donor(stmts, path, stage, t)) && op.id != t.id ==> !WritesTo(op, t.dest)
    decreases |path|
  {
    var body := stmts[path[0]].body;
    if at == 0 {
      RegionIsOps(body, t.dest, Some(t.id));
      DonorOps(body, path[1..], stage, t);
    } else {
      DonorIsUnwritten(body, path[1..], at - 1, stage, t);
    }
  }

  lemma {:induction false} UnreadOfOps(stmts: seq<Stmt>, buffer: nat)
    requires forall op :: op in Ops(stmts) ==> !Reads(op, buffer)
    ensures Unread(stmts, buffer)
    decreases stmts
  {
    if stmts != [] {
      OpsParts(stmts);
      UnreadOfOps(stmts[1..], buffer);
      if stmts[0].Block? {
        UnreadOfOps(stmts[0].body, buffer);
      }
    }
  }

  lemma {:induction false} DonorIsUnread(stmts: seq<Stmt>, path: seq<nat>, stage: nat, t: Op)
    requires ValidPath(stmts, path, stage, t) && forall op :: op in Ops(Donor(stmts, path, stage, t)) ==> !Reads(op, t.dest)
    ensures DonorUnread(stmts, path, stage, t)
    decreases |path|
  {
    var body := stmts[path[0]].body;
    if |path| == 1 {
      UnreadOfOps(body[stage].body, t.dest);
    } else {
      DonorIsUnread(body, path[1..], stage, t);
    }
  }

  /** In an orderly program every hoist that is legal keeps what is read. */
  lemma OrderlyIsSuitable(program: seq<Stmt>, after: seq<Stmt>, next: nat, spot: Spot)
    requires Orderly(program, next) && HoistedTo(program, after, next, spot)
    ensures var Spot(path, _, stage, t) := spot;
      && t in Ops(program) && Without(Ops(program), next) && next != t.dest && next != t.source
      && Suitable(program, t, next) && DonorUnread(program, path, stage, t) && Apt(program, path, stage, t)
  {
    var Spot(path, at, stage, t) := spot;
    var donor := Donor(program, path, stage, t);
    DonorHas(program, path, stage, t);
    DonorOps(program, path, stage, t);
    HasIsOp(donor, t);
    OneOfEach(program, t);
    assert Numbered(t, next) && WritesTo(t, t.dest) && t.source in Sources(t);
    OnceIsSole(program, t, next);
    DonorIsQuiet(program, path, stage, t);
    DonorIsUnwritten(program, path, at, stage, t);
    DonorIsUnread(program, path, stage, t);
    CountDonor(program, path, stage, t, t.id);
  }

  lemma RenamedBelow(bs: seq<nat>, was: nat, now: nat, b: nat)
    requires b in RenamedAll(bs, was, now)
    ensures b == now || b in bs
  {
  }

  lemma ImageIsNumbered(op: Op, was: nat, next: nat)
    requires Numbered(op, next)
    ensures Numbered(RewiredOp(op, was, next), next + 1)
  {
    var op' := RewiredOp(op, was, next);
    forall b: nat | Reads(op', b) ensures b == next || Reads(op, b) {
      if op.Compute? {
        RenamedBelow(op.sources, was, next, b);
      } else if op.Transfer? || op.Push? {
        assert op.source in Sources(op);
      }
    }
    forall b: nat | WritesTo(op', b) ensures b == next || WritesTo(op, b) {
      if op.Compute? {
        RenamedBelow(op.dests, was, next, b);
      }
    }
  }

  /** Every transfer of the hoisted program still runs before whatever reads its destination. */
  lemma HoistedFollows(program: seq<Stmt>, after: seq<Stmt>, next: nat, spot: Spot, u': Op)
    requires Orderly(program, next) && HoistedTo(program, after, next, spot)
    requires u' in Ops(after) && u'.Transfer? && forall id: nat :: Count(after, id) <= 1
    ensures Follows(after, u', false)
  {
    var Spot(path, at, stage, t) := spot;
    OrderlyIsSuitable(program, after, next, spot);
    HoistedImages(program, path, at, stage, t, next);
    var u :| u in Ops(program) && u' == RewiredOp(u, t.dest, next);
    OneOfEach(program, u);
    OneOfEach(program, t);
    OneOfEach(after, u');
    FollowsById(program, u, false);
    FollowsById(after, u', false);
    assert WritesTo(u, u.dest);
    HoistedCarries(program, path, at, stage, t, next, u.id, u.dest, false, false);
  }

  lemma CountedOnceAfter(program: seq<Stmt>, after: seq<Stmt>, next: nat, spot: Spot, id: nat)
    requires Orderly(program, next) && HoistedTo(program, after, next, spot)
    ensures Count(after, id) <= 1
  {
    CountHoisted(program, spot.path, spot.at, spot.stage, spot.transfer, next, id);
    if id == next {
      forall op | op in Ops(program) ensures op.id != id {
        assert Numbered(op, next);
      }
      NoneCounted(program, id);
    }
  }

  /** Every hoist leaves an orderly program orderly. */
  lemma StaysOrderly(program: seq<Stmt>, after: seq<Stmt>, next: nat, spot: Spot)
    requires Orderly(program, next) && HoistedTo(program, after, next, spot)
    ensures Orderly(after, next + 1)
  {
    var Spot(path, at, stage, t) := spot;
    OrderlyIsSuitable(program, after, next, spot);
    forall id: nat ensures Count(after, id) <= 1 {
      CountedOnceAfter(program, after, next, spot, id);
    }
    HoistedImages(program, path, at, stage, t, next);
    forall op' | op' in Ops(after) ensures Numbered(op', next + 1) {
      if op' != Alloc(next, next) {
        var op :| op in Ops(program) && op' == RewiredOp(op, t.dest, next);
        ImageIsNumbered(op, t.dest, next);
      }
    }
    forall u' | u' in Ops(after) && u'.Transfer? ensures Follows(after, u', false) {
      HoistedFollows(program, after, next, spot, u');
    }
    HoistedIsQuiet(program, path, at, stage, t, next);
  }

  // ---------------------------------------------------------------------------------------------
  // Whole runs
  // ---------------------------------------------------------------------------------------------

  /** The transfers that are hoisted, by identity. */
  ghost function Moved(spots: seq<Spot>): set<nat> {
    set i | 0 <= i < |spots| :: spots[i].transfer.id
  }

  /** The buffers that the hoisted transfers filled. */
  ghost function Replaced(spots: seq<Spot>): set<nat> {
    set i | 0 <= i < |spots| && spots[i].transfer.Transfer? :: spots[i].transfer.dest
  }

  /** All is the same but for what the `moved` transfers themselves have read, the `replaced` buffers and the new ones. */
  ghost predicate SameButFor<V>(moved: set<nat>, replaced: set<nat>, next: nat, s: State<V>, h: State<V>) {
    && s.pushed == h.pushed
    && (forall b: nat :: b < next && b !in replaced ==> s.memory(b) == h.memory(b))
    && forall id: nat :: id !in moved ==> s.seen(id) == h.seen(id)
  }

  lemma {:induction false} RunStaysOrderly(programs: seq<seq<Stmt>>, spots: seq<Spot>, next: nat, i: nat)
    requires Hoists(programs, spots, next) && Orderly(programs[0], next) && i <= |spots|
    ensures Orderly(programs[i], next + i)
  {
    if i > 0 {
      RunStaysOrderly(programs, spots, next, i - 1);
      assert HoistedTo(programs[i - 1], programs[i - 1 + 1], next + (i - 1), spots[i - 1]);
      StaysOrderly(programs[i - 1], programs[i], next + (i - 1), spots[i - 1]);
    }
  }

  lemma OneHoistKeepsReads<V>(m: Meaning<V>, program: seq<Stmt>, after: seq<Stmt>, next: nat, spot: Spot, env: Env, s: State<V>)
    requires Orderly(program, next) && HoistedTo(program, after, next, spot)
    ensures Apart(spot.transfer, next, Exec(m, program, env, s), Exec(m, after, env, s))
  {
    OrderlyIsSuitable(program, after, next, spot);
    HoistedLinked(m, program, spot.path, spot.at, spot.stage, spot.transfer, next, env, s, s);
  }

  lemma MovedNext(spots: seq<Spot>, n: nat)
    requires n < |spots|
    ensures Moved(spots[..n + 1]) == Moved(spots[..n]) + {spots[n].transfer.id}
    ensures spots[n].transfer.Transfer? ==> Replaced(spots[..n + 1]) == Replaced(spots[..n]) + {spots[n].transfer.dest}
  {
    var more := spots[..n + 1];
    assert more == spots[..n] + [spots[n]] && more[n] == spots[n];
    assert forall i :: 0 <= i < n ==> spots[..n][i] == more[i];
  }

  lemma SameButForNext<V>(moved: set<nat>, replaced: set<nat>, next: nat, t: Op, now: nat, s: State<V>, h: State<V>, h': State<V>)
    requires SameButFor(moved, replaced, next, s, h) && t.Transfer? && Apart(t, now, h, h') && next <= now
    ensures SameButFor(moved + {t.id}, replaced + {t.dest}, next, s, h')
  {
  }

  lemma {:induction false} FirstHoistsKeepReads<V>(m: Meaning<V>, programs: seq<seq<Stmt>>, spots: seq<Spot>, next: nat, n: nat,
      env: Env, s: State<V>)
    requires Hoists(programs, spots, next) && Orderly(programs[0], next) && n <= |spots|
    ensures SameButFor(Moved(spots[..n]), Replaced(spots[..n]), next, Exec(m, programs[0], env, s), Exec(m, programs[n], env, s))
  {
    if n > 0 {
      var k: nat := n - 1;
      FirstHoistsKeepReads(m, programs, spots, next, k, env, s);
      RunStaysOrderly(programs, spots, next, k);
      assert HoistedTo(programs[k], programs[k + 1], next + k, spots[k]);
      OneHoistKeepsReads(m, programs[k], programs[n], next + k, spots[k], env, s);
      MovedNext(spots, k);
      SameButForNext(Moved(spots[..k]), Replaced(spots[..k]), next, spots[k].transfer, next + k,
        Exec(m, programs[0], env, s), Exec(m, programs[k], env, s), Exec(m, programs[n], env, s));
    }
  }

  /**
   * However many transfers of an orderly program are hoisted: everything that any other operation reads
   * is as before, everything that is pushed, and all buffers that no hoisted transfer filled.
   */
  lemma RunKeepsReads<V>(m: Meaning<V>, programs: seq<seq<Stmt>>, spots: seq<Spot>, next: nat, env: Env, s: State<V>)
    requires Hoists(programs, spots, next) && Orderly(programs[0], next)
    ensures SameButFor(Moved(spots), Replaced(spots), next,
      Exec(m, programs[0], env, s), Exec(m, programs[|spots|], env, s))
  {
    FirstHoistsKeepReads(m, programs, spots, next, |spots|, env, s);
    assert spots[..|spots|] == spots;
  }
}
