/**
 * What hoisting a transfer does to the data that is read: the program and what the hoist has made of it,
 * run side by side.
 */
module HoistedReads {
  import opened Sequences
  import opened TransferHoisting
  import opened TransferRuns

  /** All is the same but for the old and the new buffer, and what the transfer itself has read. */
  ghost predicate Apart<V>(t: Op, now: nat, s: State<V>, h: State<V>)
    requires t.Transfer?
  {
    && s.pushed == h.pushed
    && (forall b: nat :: b != t.dest && b != now ==> s.memory(b) == h.memory(b))
    && (forall id: nat :: id != t.id ==> s.seen(id) == h.seen(id))
  }

  /** The new buffer holds what the old one does, once the transfer has been run. */
  ghost predicate Linked<V>(t: Op, now: nat, done: bool, s: State<V>, h: State<V>)
    requires t.Transfer?
  {
    Apart(t, now, s, h) && (done ==> s.memory(t.dest) == h.memory(now))
  }

  ghost predicate Still<V>(t: Op, now: nat, s: State<V>, h: State<V>, s': State<V>, h': State<V>)
    requires t.Transfer?
  {
    s'.memory(t.source) == s.memory(t.source) && s'.memory(t.dest) == s.memory(t.dest) && h'.memory(now) == h.memory(now)
  }

  // ---------------------------------------------------------------------------------------------
  // Statements that are rewired
  // ---------------------------------------------------------------------------------------------

  lemma RenamedMembers(bs: seq<nat>, was: nat, now: nat)
    requires now !in bs && now != was
    ensures forall b: nat :: b != was && b != now ==> (b in RenamedAll(bs, was, now) <==> b in bs)
    ensures now in RenamedAll(bs, was, now) <==> was in bs
    ensures was !in RenamedAll(bs, was, now)
  {
    var r := RenamedAll(bs, was, now);
    forall b: nat | b != was && b in bs ensures b in r {
      var k :| 0 <= k < |bs| && bs[k] == b;
      assert r[k] == b;
    }
    if was in bs {
      var k :| 0 <= k < |bs| && bs[k] == was;
      assert r[k] == now;
    }
  }

  lemma SameContents<V>(t: Op, now: nat, done: bool, s: State<V>, h: State<V>, buffers: seq<nat>)
    requires t.Transfer? && Linked(t, now, done, s, h) && now !in buffers && (t.dest in buffers ==> done)
    ensures Held(RenamedAll(buffers, t.dest, now), h.memory) == Held(buffers, s.memory)
  {
    forall k | 0 <= k < |buffers| ensures h.memory(Renamed(buffers[k], t.dest, now)) == s.memory(buffers[k]) {
      assert buffers[k] in buffers;
    }
  }

  lemma StepLinked<V>(m: Meaning<V>, op: Op, t: Op, now: nat, done: bool, env: Env, s: State<V>, h: State<V>)
    requires t.Transfer? && now != t.dest && Linked(t, now, done, s, h) && !Reads(op, now) && !WritesTo(op, now)
    requires Reads(op, t.dest) ==> done
    ensures var s', h' := Step(m, op, env, s), Step(m, RewiredOp(op, t.dest, now), env, h);
      && Linked(t, now, done, s', h') && h'.memory(t.dest) == h.memory(t.dest)
      && (!WritesTo(op, t.source) && !WritesTo(op, t.dest) ==> Still(t, now, s, h, s', h'))
  {
    match op
    case Transfer(_, source, _, _) => assert source in Sources(op);
    case Push(_, source, _) => assert source in Sources(op);
    case Compute(_, _, sources, dests, _) =>
      SameContents(t, now, done, s, h, sources);
      RenamedMembers(dests, t.dest, now);
    case Alloc(_, _) =>
  }

  lemma {:induction false} ExecLinked<V>(m: Meaning<V>, stmts: seq<Stmt>, t: Op, now: nat, done: bool, env: Env, s: State<V>, h: State<V>)
    requires t.Transfer? && now != t.dest && Linked(t, now, done, s, h)
    requires !Has(stmts, t) && Sole(stmts, t, now) && Follows(stmts, t, done)
    ensures var s', h' := Exec(m, stmts, env, s), Exec(m, Rewired(stmts, t.dest, now), env, h);
      && Linked(t, now, done, s', h') && h'.memory(t.dest) == h.memory(t.dest)
      && (Calm(stmts, t) ==> Still(t, now, s, h, s', h'))
    decreases stmts, 0
  {
    if stmts != [] {
      var rewired := Rewired(stmts, t.dest, now);
      assert rewired[1..] == Rewired(stmts[1..], t.dest, now);
      assert Calm(stmts, t) ==> CalmIn(stmts[0], t);
      match stmts[0] {
        case Do(op) => StepLinked(m, op, t, now, done, env, s, h);
        case Block(kind, body) =>
          DoneWithout(body, t, done);
          if kind.Loop? {
            IterateLinked(m, kind.iv, body, t, now, done, env, s, h, 0, kind.trip);
          } else {
            ExecLinked(m, body, t, now, done, env, s, h);
          }
      }
      ExecLinked(m, stmts[1..], t, now, done, env, ExecOne(m, stmts[0], env, s), ExecOne(m, rewired[0], env, h));
    }
  }

  lemma {:induction false} IterateLinked<V>(m: Meaning<V>, iv: nat, body: seq<Stmt>, t: Op, now: nat, done: bool, env: Env,
      s: State<V>, h: State<V>, i: nat, trip: nat)
    requires t.Transfer? && now != t.dest && Linked(t, now, done, s, h)
    requires !Has(body, t) && Sole(body, t, now) && Follows(body, t, done)
    ensures var s', h' := Iterate(m, iv, body, env, s, i, trip), Iterate(m, iv, Rewired(body, t.dest, now), env, h, i, trip);
      && Linked(t, now, done, s', h') && h'.memory(t.dest) == h.memory(t.dest)
      && (Calm(body, t) ==> Still(t, now, s, h, s', h'))
    decreases body, 1, if i <= trip then trip - i else 0
  {
    if i < trip {
      ExecLinked(m, body, t, now, done, Bound(env, iv, i), s, h);
      IterateLinked(m, iv, body, t, now, done, env,
        Exec(m, body, Bound(env, iv, i), s), Exec(m, Rewired(body, t.dest, now), Bound(env, iv, i), h), i + 1, trip);
    }
  }

  // ---------------------------------------------------------------------------------------------
  // The donor stage, which is not rewired
  // ---------------------------------------------------------------------------------------------

  /** The buffer is not read, but perhaps in loops that run no time. */
  predicate Unread(stmts: seq<Stmt>, buffer: nat) {
    stmts == [] || (UnreadIn(stmts[0], buffer) && Unread(stmts[1..], buffer))
  }

  predicate UnreadIn(s: Stmt, buffer: nat) {
    match s
    case Do(op) => !Reads(op, buffer)
    case Block(kind, body) => (kind.Loop? && kind.trip == 0) || Unread(body, buffer)
  }

  /** The transfer is dropped wherever it is. */
  function Dropped(stmts: seq<Stmt>, t: Op): seq<Stmt>
    decreases stmts, 1
  {
    if stmts == [] then [] else DroppedIn(stmts[0], t) + Dropped(stmts[1..], t)
  }

  function DroppedIn(s: Stmt, t: Op): seq<Stmt>
    decreases s, 0
  {
    match s
    case Do(op) => if op == t then [] else [s]
    case Block(kind, body) => [Block(kind, Dropped(body, t))]
  }

  lemma {:induction false} ErasedIsDropped(stmts: seq<Stmt>, t: Op, now: nat)
    requires Sole(stmts, t, now)
    ensures Erased(stmts, t) == Dropped(stmts, t) && (!Has(stmts, t) ==> Dropped(stmts, t) == stmts)
    decreases stmts
  {
    if stmts != [] {
      ErasedIsDropped(stmts[1..], t, now);
      assert stmts == [stmts[0]] + stmts[1..];
      if stmts[0].Block? {
        ErasedIsDropped(stmts[0].body, t, now);
      }
    }
  }

  /** Besides the rest being the same: the source holds `v`, the old buffer `y` and, hoisted, `x`, the new buffer `u`. */
  ghost predicate Donating<V>(t: Op, now: nat, v: V, y: V, x: V, u: V, s: State<V>, h: State<V>)
    requires t.Transfer?
  {
    && Apart(t, now, s, h) && s.memory(t.source) == v && s.memory(t.dest) == y && h.memory(t.dest) == x && h.memory(now) == u
  }

  lemma StepDonating<V>(m: Meaning<V>, op: Op, t: Op, now: nat, env: Env, v: V, y: V, x: V, u: V, s: State<V>, h: State<V>)
    requires t.Transfer? && Donating(t, now, v, y, x, u, s, h)
    requires !Reads(op, now) && !WritesTo(op, now) && !Reads(op, t.dest) && !WritesTo(op, t.dest) && !WritesTo(op, t.source)
    ensures Donating(t, now, v, y, x, u, Step(m, op, env, s), Step(m, op, env, h))
  {
    assert Held(Sources(op), s.memory) == Held(Sources(op), h.memory) by {
      forall k | 0 <= k < |Sources(op)| ensures s.memory(Sources(op)[k]) == h.memory(Sources(op)[k]) {
        assert Sources(op)[k] in Sources(op);
      }
    }
    match op
    case Transfer(_, source, _, _) => assert source in Sources(op);
    case Push(_, source, _) => assert source in Sources(op);
    case Compute(_, _, _, _, _) =>
    case Alloc(_, _) =>
  }

  /** When nothing else in it reads the destination, the donor stage does the same without the transfer. */
  lemma {:induction false} ExecDonating<V>(m: Meaning<V>, stmts: seq<Stmt>, t: Op, now: nat, env: Env,
      v: V, y: V, x: V, u: V, s: State<V>, h: State<V>)
    requires t.Transfer? && now != t.source && now != t.dest && t.source != t.dest && Donating(t, now, v, y, x, u, s, h)
    requires Sole(stmts, t, now) && Calm(stmts, t) && Unread(stmts, t.dest)
    ensures Donating(t, now, v, Left(m, stmts, t, env, v, y), x, u, Exec(m, stmts, env, s), Exec(m, Dropped(stmts, t), env, h))
    decreases stmts, 1
  {
    if stmts != [] {
      OneDonating(m, stmts[0], t, now, env, v, y, x, u, s, h);
      ExecJoin(m, DroppedIn(stmts[0], t), Dropped(stmts[1..], t), env, h);
      ExecDonating(m, stmts[1..], t, now, env, v, LeftByOne(m, stmts[0], t, env, v, y), x, u,
        ExecOne(m, stmts[0], env, s), Exec(m, DroppedIn(stmts[0], t), env, h));
    }
  }

  lemma {:induction false} OneDonating<V>(m: Meaning<V>, stmt: Stmt, t: Op, now: nat, env: Env, v: V, y: V, x: V, u: V, s: State<V>, h: State<V>)
    requires t.Transfer? && now != t.source && now != t.dest && t.source != t.dest && Donating(t, now, v, y, x, u, s, h)
    requires SoleIn(stmt, t, now) && CalmIn(stmt, t) && UnreadIn(stmt, t.dest)
    ensures Donating(t, now, v, LeftByOne(m, stmt, t, env, v, y), x, u, ExecOne(m, stmt, env, s), Exec(m, DroppedIn(stmt, t), env, h))
    decreases stmt, 0
  {
    match stmt
    case Do(op) =>
      if op != t {
        StepDonating(m, op, t, now, env, v, y, x, u, s, h);
        ExecSingle(m, stmt, env, h);
      }
    case Block(kind, body) =>
      ExecSingle(m, Block(kind, Dropped(body, t)), env, h);
      if kind.Loop? {
        IterateDonating(m, kind.iv, body, t, now, env, v, y, x, u, s, h, 0, kind.trip);
      } else {
        ExecDonating(m, body, t, now, env, v, y, x, u, s, h);
      }
  }

  lemma {:induction false} IterateDonating<V>(m: Meaning<V>, iv: nat, body: seq<Stmt>, t: Op, now: nat, env: Env, v: V, y: V, x: V, u: V,
      s: State<V>, h: State<V>, i: nat, trip: nat)
    requires t.Transfer? && now != t.source && now != t.dest && t.source != t.dest && Donating(t, now, v, y, x, u, s, h)
    requires Sole(body, t, now) && Calm(body, t) && (i < trip ==> Unread(body, t.dest))
    ensures Donating(t, now, v, LeftByLoop(m, iv, body, t, env, v, y, i, trip), x, u,
      Iterate(m, iv, body, env, s, i, trip), Iterate(m, iv, Dropped(body, t), env, h, i, trip))
    decreases body, 2, if i <= trip then trip - i else 0
  {
    if i < trip {
      ExecDonating(m, body, t, now, Bound(env, iv, i), v, y, x, u, s, h);
      IterateDonating(m, iv, body, t, now, env, v, Left(m, body, t, Bound(env, iv, i), v, y), x, u,
        Exec(m, body, Bound(env, iv, i), s), Exec(m, Dropped(body, t), Bound(env, iv, i), h), i + 1, trip);
    }
  }

  // ---------------------------------------------------------------------------------------------
  // Around one statement
  // ---------------------------------------------------------------------------------------------

  /** What holds of the statements holds of those before, of the one in place `j`, and of those after. */
  lemma {:induction false} Split(stmts: seq<Stmt>, j: nat, t: Op, now: nat, done: bool)
    requires t.Transfer? && j < |stmts| && HasIn(stmts[j], t) && Sole(stmts, t, now)
    ensures !Has(stmts[..j], t) && !Has(stmts[j + 1..], t) && Sole(stmts[..j], t, now) && Sole(stmts[j + 1..], t, now)
    ensures stmts[j].Block? ==> Sole(stmts[j].body, t, now)
    ensures Follows(stmts, t, done) ==>
      && Follows(stmts[..j], t, done) && FollowsIn(stmts[j], t, done) && Follows(stmts[j + 1..], t, DoneAfterOne(stmts[j], t, done))
    ensures Calm(stmts, t) ==> Calm(stmts[..j], t) && Calm(stmts[j + 1..], t) && (stmts[j].Block? ==> Calm(stmts[j].body, t))
    ensures DoneAfter(stmts, t, done) == DoneAfterOne(stmts[j], t, done)
    decreases j
  {
    assert Calm(stmts, t) ==> CalmIn(stmts[0], t);
    if j > 0 {
      HasLater(stmts[1..], j - 1, t);
      NotIn(stmts[0], t, done);
      Split(stmts[1..], j - 1, t, now, done);
      assert stmts[..j][0] == stmts[0] && stmts[..j][1..] == stmts[1..][..j - 1];
      assert stmts[1..][j..] == stmts[j + 1..];
    } else {
      DoneWithout(stmts[1..], t, DoneAfterOne(stmts[0], t, done));
      assert stmts[..0] == [];
    }
  }

  lemma {:induction false} HasLater(stmts: seq<Stmt>, j: nat, t: Op)
    requires j < |stmts| && HasIn(stmts[j], t)
    ensures Has(stmts, t)
    decreases j
  {
    if j > 0 {
      HasLater(stmts[1..], j - 1, t);
    }
  }

  lemma NotIn(s: Stmt, t: Op, done: bool)
    requires !HasIn(s, t)
    ensures DoneAfterOne(s, t, done) == done
  {
    if s.Block? {
      DoneWithout(s.body, t, done);
    }
  }

  lemma ExecAround<V>(m: Meaning<V>, stmts: seq<Stmt>, j: nat, child: seq<Stmt>, was: nat, now: nat, env: Env, s: State<V>, h: State<V>)
    requires j < |stmts|
    ensures Exec(m, stmts, env, s) == Exec(m, stmts[j + 1..], env, ExecOne(m, stmts[j], env, Exec(m, stmts[..j], env, s)))
    ensures Exec(m, Around(stmts, j, child, was, now), env, h)
      == Exec(m, Rewired(stmts[j + 1..], was, now), env, Exec(m, child, env, Exec(m, Rewired(stmts[..j], was, now), env, h)))
  {
    var a, b := Rewired(stmts[..j], was, now), Rewired(stmts[j + 1..], was, now);
    ExecJoin(m, a + child, b, env, h);
    ExecJoin(m, a, child, env, h);
    assert stmts == stmts[..j] + ([stmts[j]] + stmts[j + 1..]);
    ExecJoin(m, stmts[..j], [stmts[j]] + stmts[j + 1..], env, s);
    ExecJoin(m, [stmts[j]], stmts[j + 1..], env, Exec(m, stmts[..j], env, s));
    ExecSingle(m, stmts[j], env, Exec(m, stmts[..j], env, s));
  }

  /** Up to statement `j`, the runs stay linked. */
  lemma BeforeLinked<V>(m: Meaning<V>, stmts: seq<Stmt>, j: nat, t: Op, now: nat, done: bool, env: Env, s: State<V>, h: State<V>)
    requires t.Transfer? && now != t.dest && j < |stmts| && HasIn(stmts[j], t) && Sole(stmts, t, now) && Follows(stmts, t, done)
    requires Linked(t, now, done, s, h)
    ensures var s', h' := Exec(m, stmts[..j], env, s), Exec(m, Rewired(stmts[..j], t.dest, now), env, h);
      && Linked(t, now, done, s', h') && h'.memory(t.dest) == h.memory(t.dest)
      && (Calm(stmts, t) ==> Still(t, now, s, h, s', h'))
  {
    Split(stmts, j, t, now, done);
    ExecLinked(m, stmts[..j], t, now, done, env, s, h);
  }

  /** When statement `j` and what is there instead keep the runs linked, so do the statements around it. */
  lemma AfterLinked<V>(m: Meaning<V>, stmts: seq<Stmt>, j: nat, child: seq<Stmt>, t: Op, now: nat, done: bool, env: Env,
      s: State<V>, h: State<V>, s2: State<V>, h2: State<V>)
    requires t.Transfer? && now != t.dest && j < |stmts| && HasIn(stmts[j], t) && Sole(stmts, t, now) && Follows(stmts, t, done)
    requires s2 == ExecOne(m, stmts[j], env, Exec(m, stmts[..j], env, s))
    requires h2 == Exec(m, child, env, Exec(m, Rewired(stmts[..j], t.dest, now), env, h))
    requires Linked(t, now, DoneAfterOne(stmts[j], t, done), s2, h2)
    ensures var s', h' := Exec(m, stmts, env, s), Exec(m, Around(stmts, j, child, t.dest, now), env, h);
      && Linked(t, now, DoneAfter(stmts, t, done), s', h') && h'.memory(t.dest) == h2.memory(t.dest)
      && (Calm(stmts, t) ==> Still(t, now, s2, h2, s', h'))
  {
    Split(stmts, j, t, now, done);
    ExecAround(m, stmts, j, child, t.dest, now, env, s, h);
    ExecLinked(m, stmts[j + 1..], t, now, DoneAfterOne(stmts[j], t, done), env, s2, h2);
  }

  // ---------------------------------------------------------------------------------------------
  // From the target loop down to the donor stage
  // ---------------------------------------------------------------------------------------------

  /** Below the hoisted transfer: the source holds `v` and the new buffer `u`, and so does the old one once the transfer has been run. */
  ghost predicate Beside<V>(t: Op, now: nat, v: V, u: V, done: bool, s: State<V>, h: State<V>)
    requires t.Transfer?
  {
    Linked(t, now, done, s, h) && s.memory(t.source) == v && h.memory(now) == u
  }

  /** The transfer is nested in the statements as it should be, and the new buffer holds what it leaves. */
  ghost predicate Below<V>(m: Meaning<V>, stmts: seq<Stmt>, donor: seq<Stmt>, t: Op, now: nat, env: Env, v: V, u: V, done: bool)
    requires t.Transfer?
  {
    && now != t.source && now != t.dest && t.source != t.dest
    && Sole(stmts, t, now) && Calm(stmts, t) && Follows(stmts, t, done)
    && u == Left(m, donor, t, env, v, u)
  }

  lemma {:induction false} PathHas(stmts: seq<Stmt>, path: seq<nat>, stage: nat, t: Op)
    requires ValidPath(stmts, path, stage, t)
    ensures HasIn(stmts[path[0]], t)
    decreases |path|
  {
    var body := stmts[path[0]].body;
    if |path| == 1 {
      assert HasIn(body[stage], t);
      HasLater(body, stage, t);
    } else {
      PathHas(body, path[1..], stage, t);
      HasLater(body, path[1], t);
    }
  }

  /** Nothing that is run in the donor stage reads the destination. */
  predicate DonorUnread(stmts: seq<Stmt>, path: seq<nat>, stage: nat, t: Op)
    requires ValidPath(stmts, path, stage, t)
    decreases |path|
  {
    var Block(kind, body) := stmts[path[0]];
    if |path| == 1 then Unread(body[stage].body, t.dest)
    else (kind.Loop? && kind.trip == 0) || DonorUnread(body, path[1..], stage, t)
  }

  /** The stages of the pipeline, with the donor stage among them. */
  lemma StagesBeside<V>(m: Meaning<V>, body: seq<Stmt>, stage: nat, t: Op, now: nat, env: Env, v: V, u: V, done: bool, s: State<V>, h: State<V>)
    requires t.Transfer? && stage < |body| && IsStage(body[stage]) && Has(body[stage].body, t)
    requires Below(m, body, body[stage].body, t, now, env, v, u, done) && Beside(t, now, v, u, done, s, h) && Unread(body[stage].body, t.dest)
    ensures Beside(t, now, v, u, DoneAfter(body, t, done),
      Exec(m, body, env, s), Exec(m, Around(body, stage, [Block(Stage, Erased(body[stage].body, t))], t.dest, now), env, h))
  {
    var donor := body[stage].body;
    var child := Block(Stage, Erased(donor, t));
    var s1, h1 := Exec(m, body[..stage], env, s), Exec(m, Rewired(body[..stage], t.dest, now), env, h);
    BeforeLinked(m, body, stage, t, now, done, env, s, h);
    Split(body, stage, t, now, done);
    DonorBeside(m, donor, t, now, env, v, u, done, s1, h1);
    ExecSingle(m, child, env, h1);
    AfterLinked(m, body, stage, [child], t, now, done, env, s, h, Exec(m, donor, env, s1), Exec(m, Erased(donor, t), env, h1));
  }

  lemma DonorBeside<V>(m: Meaning<V>, donor: seq<Stmt>, t: Op, now: nat, env: Env, v: V, u: V, done: bool, s: State<V>, h: State<V>)
    requires t.Transfer? && Below(m, donor, donor, t, now, env, v, u, done) && Beside(t, now, v, u, done, s, h) && Unread(donor, t.dest)
    ensures Beside(t, now, v, u, DoneAfter(donor, t, done), Exec(m, donor, env, s), Exec(m, Erased(donor, t), env, h))
  {
    var y := s.memory(t.dest);
    ErasedIsDropped(donor, t, now);
    ExecDonating(m, donor, t, now, env, v, y, h.memory(t.dest), u, s, h);
    if DoneAfter(donor, t, false) {
      LeftAnew(m, donor, t, env, v, y, u);
    } else {
      NothingLeft(m, donor, t, env, v, y);
    }
  }

  lemma {:induction false} OutBeside<V>(m: Meaning<V>, stmts: seq<Stmt>, path: seq<nat>, stage: nat, t: Op, now: nat, env: Env,
      v: V, u: V, done: bool, s: State<V>, h: State<V>)
    requires ValidPath(stmts, path, stage, t) && LegalPath(stmts, path, stage, t) && DonorUnread(stmts, path, stage, t)
    requires Below(m, stmts, Donor(stmts, path, stage, t), t, now, env, v, u, done) && Beside(t, now, v, u, done, s, h)
    ensures Beside(t, now, v, u, DoneAfter(stmts, t, done), Exec(m, stmts, env, s), Exec(m, OutOf(stmts, path, stage, t, now), env, h))
    decreases |path|, 0, 0
  {
    var j := path[0];
    var s1, h1 := Exec(m, stmts[..j], env, s), Exec(m, Rewired(stmts[..j], t.dest, now), env, h);
    PathHas(stmts, path, stage, t);
    BeforeLinked(m, stmts, j, t, now, done, env, s, h);
    Split(stmts, j, t, now, done);
    var kind, body := stmts[j].kind, stmts[j].body;
    var body';
    if |path| == 1 {
      body' := Around(body, stage, [Block(Stage, Erased(body[stage].body, t))], t.dest, now);
      StagesBeside(m, body, stage, t, now, env, v, u, done, s1, h1);
    } else {
      body' := OutOf(body, path[1..], stage, t, now);
      LoopBeside(m, kind.iv, body, path[1..], stage, t, now, env, v, u, done, s1, h1, 0, kind.trip);
    }
    ExecSingle(m, Block(kind, body'), env, h1);
    AfterLinked(m, stmts, j, [Block(kind, body')], t, now, done, env, s, h,
      ExecOne(m, stmts[j], env, s1), ExecOne(m, Block(kind, body'), env, h1));
  }

  lemma {:induction false} LoopBeside<V>(m: Meaning<V>, iv: nat, body: seq<Stmt>, path: seq<nat>, stage: nat, t: Op, now: nat, env: Env,
      v: V, u: V, done: bool, s: State<V>, h: State<V>, i: nat, trip: nat)
    requires ValidPath(body, path, stage, t) && LegalPath(body, path, stage, t) && iv !in t.uses
    requires i < trip ==> DonorUnread(body, path, stage, t)
    requires Below(m, body, Donor(body, path, stage, t), t, now, env, v, u, done) && Beside(t, now, v, u, done, s, h)
    ensures Beside(t, now, v, u, if i < trip then DoneAfter(body, t, done) else done,
      Iterate(m, iv, body, env, s, i, trip), Iterate(m, iv, OutOf(body, path, stage, t, now), env, h, i, trip))
    decreases |path|, 1, if i <= trip then trip - i else 0
  {
    if i < trip {
      var inner, done1 := Bound(env, iv, i), DoneAfter(body, t, done);
      LeftIsLocal(m, Donor(body, path, stage, t), t, env, inner, v, u);
      OutBeside(m, body, path, stage, t, now, inner, v, u, done, s, h);
      DoneStays(body, t);
      if done1 {
        FollowsWhenDone(body, t, done);
      }
      LoopBeside(m, iv, body, path, stage, t, now, env, v, u, done1,
        Exec(m, body, inner, s), Exec(m, OutOf(body, path, stage, t, now), inner, h), i + 1, trip);
    }
  }

  // ---------------------------------------------------------------------------------------------
  // The target loop, and the statements around it
  // ---------------------------------------------------------------------------------------------

  /** What the program must be like: the transfer runs before whatever reads its destination. */
  ghost predicate Suitable(stmts: seq<Stmt>, t: Op, now: nat)
    requires t.Transfer?
  {
    Sole(stmts, t, now) && Follows(stmts, t, false)
  }

  lemma DonorIsSole(stmts: seq<Stmt>, path: seq<nat>, stage: nat, t: Op, now: nat)
    requires ValidPath(stmts, path, stage, t) && Sole(stmts, t, now)
    ensures Has(Donor(stmts, path, stage, t), t) && Sole(Donor(stmts, path, stage, t), t, now)
    decreases |path|
  {
    var j := path[0];
    PathHas(stmts, path, stage, t);
    Split(stmts, j, t, now, false);
    if |path| == 1 {
      Split(stmts[j].body, stage, t, now, false);
    } else {
      DonorIsSole(stmts[j].body, path[1..], stage, t, now);
    }
  }

  /** The sibling pipeline and then the target loop, against the loop as it was. */
  lemma TargetLinked<V>(m: Meaning<V>, kind: Kind, body: seq<Stmt>, path: seq<nat>, stage: nat, t: Op, now: nat, env: Env, s: State<V>, h: State<V>)
    requires ValidPath(body, path, stage, t) && LegalPath(body, path, stage, t)
    requires kind.Loop? && LegalFor(t, Frame(kind.iv, body, path[0]))
    requires Suitable(body, t, now) && (kind.trip > 0 ==> DonorUnread(body, path, stage, t)) && Apart(t, now, s, h)
    ensures var donor, block := Donor(body, path, stage, t), Block(kind, body);
      Linked(t, now, DoneAfterOne(block, t, false), ExecOne(m, block, env, s),
        Exec(m, Sibling(donor, t, now, now) + [Block(kind, OutOf(body, path, stage, t, now))], env, h))
  {
    var donor := Donor(body, path, stage, t);
    PathHas(body, path, stage, t);
    HasLater(body, path[0], t);
    LegalIsCalm(body, t, now);
    BuffersDiffer(body, t, now);
    DonorIsSole(body, path, stage, t, now);
    var h1 := Exec(m, Sibling(donor, t, now, now), env, h);
    SiblingRuns(m, donor, t, now, now, env, h);
    var v, u := s.memory(t.source), h1.memory(now);
    LoopBeside(m, kind.iv, body, path, stage, t, now, env, v, u, false, s, h1, 0, kind.trip);
    var out := Block(kind, OutOf(body, path, stage, t, now));
    ExecJoin(m, Sibling(donor, t, now, now), [out], env, h);
    ExecSingle(m, out, env, h1);
  }

  lemma {:induction false} HoistedLinked<V>(m: Meaning<V>, stmts: seq<Stmt>, path: seq<nat>, at: nat, stage: nat, t: Op, now: nat, env: Env,
      s: State<V>, h: State<V>)
    requires ValidPath(stmts, path, stage, t) && at + 1 < |path| && LegalFrom(stmts, path, at, stage, t)
    requires Suitable(stmts, t, now) && DonorUnread(stmts, path, stage, t) && Apart(t, now, s, h)
    ensures Linked(t, now, DoneAfter(stmts, t, false), Exec(m, stmts, env, s), Exec(m, HoistedAt(stmts, path, at, stage, t, now), env, h))
    decreases |path|, 0, 0
  {
    var j := path[0];
    var s1, h1 := Exec(m, stmts[..j], env, s), Exec(m, Rewired(stmts[..j], t.dest, now), env, h);
    PathHas(stmts, path, stage, t);
    HasLater(stmts, j, t);
    BuffersDiffer(stmts, t, now);
    BeforeLinked(m, stmts, j, t, now, false, env, s, h);
    Split(stmts, j, t, now, false);
    var kind, body := stmts[j].kind, stmts[j].body;
    var child;
    if at == 0 {
      child := Sibling(Donor(stmts, path, stage, t), t, now, now) + [Block(kind, OutOf(body, path[1..], stage, t, now))];
      TargetLinked(m, kind, body, path[1..], stage, t, now, env, s1, h1);
    } else {
      var inner := Block(kind, HoistedAt(body, path[1..], at - 1, stage, t, now));
      child := [inner];
      if kind.Loop? {
        HoistedLoopLinked(m, kind.iv, body, path[1..], at - 1, stage, t, now, env, s1, h1, 0, kind.trip);
      } else {
        HoistedLinked(m, body, path[1..], at - 1, stage, t, now, env, s1, h1);
      }
      ExecSingle(m, inner, env, h1);
    }
    AfterLinked(m, stmts, j, child, t, now, false, env, s, h, ExecOne(m, stmts[j], env, s1), Exec(m, child, env, h1));
  }

  lemma {:induction false} HoistedLoopLinked<V>(m: Meaning<V>, iv: nat, body: seq<Stmt>, path: seq<nat>, at: nat, stage: nat,
      t: Op, now: nat, env: Env, s: State<V>, h: State<V>, i: nat, trip: nat)
    requires ValidPath(body, path, stage, t) && at + 1 < |path| && LegalFrom(body, path, at, stage, t)
    requires Suitable(body, t, now) && (i < trip ==> DonorUnread(body, path, stage, t)) && Apart(t, now, s, h)
    ensures var s', h' := Iterate(m, iv, body, env, s, i, trip), Iterate(m, iv, HoistedAt(body, path, at, stage, t, now), env, h, i, trip);
      Apart(t, now, s', h') && (i < trip ==> Linked(t, now, DoneAfter(body, t, false), s', h'))
    decreases |path|, 1, if i <= trip then trip - i else 0
  {
    if i < trip {
      var inner := Bound(env, iv, i);
      HoistedLinked(m, body, path, at, stage, t, now, inner, s, h);
      HoistedLoopLinked(m, iv, body, path, at, stage, t, now, env,
        Exec(m, body, inner, s), Exec(m, HoistedAt(body, path, at, stage, t, now), inner, h), i + 1, trip);
    }
  }

  // ---------------------------------------------------------------------------------------------
  // The program that a hoist returns
  // ---------------------------------------------------------------------------------------------

  /**
   * From states that are the same but for the two buffers, whatever is moved and computed: everything that
   * any operation but the transfer reads is as before, what is pushed is, and all other buffers are.
   */
  ghost predicate KeepsReads<V(!new)>(before: seq<Stmt>, after: seq<Stmt>, t: Op, now: nat)
    requires t.Transfer?
  {
    forall m: Meaning<V>, env: Env, s: State<V>, h: State<V> ::
      Apart(t, now, s, h) ==> Apart(t, now, Exec(m, before, env, s), Exec(m, after, env, h))
  }

  /**
   * A transfer that runs before whatever reads its destination is hoisted: all reads see what they did, if
   * nothing else in the donor stage reads the destination. Afterwards the new buffer holds what the old one did.
   */
  lemma HoistKeepsReads<V(!new)>(program: seq<Stmt>, next: nat, r: Hoist, spot: Spot)
    requires r.Done? && Explained(program, None, [], next, r, spot) && Suitable(program, spot.transfer, next)
    requires DonorUnread(program, spot.path, spot.stage, spot.transfer)
    ensures KeepsReads<V>(program, r.stmts, spot.transfer, next)
    ensures DoneAfter(program, spot.transfer, false) ==>
      forall m: Meaning<V>, env: Env, s: State<V>, h: State<V> :: Apart(spot.transfer, next, s, h) ==>
        Exec(m, program, env, s).memory(r.was) == Exec(m, r.stmts, env, h).memory(next)
  {
    var Spot(path, at, stage, t) := spot;
    forall m: Meaning<V>, env: Env, s: State<V>, h: State<V> | Apart(t, next, s, h)
      ensures Linked(t, next, DoneAfter(program, t, false), Exec(m, program, env, s), Exec(m, r.stmts, env, h))
    {
      HoistedLinked(m, program, path, at, stage, t, next, env, s, h);
    }
  }
}
