/**
 * The reads that hoisting a transfer does not keep: those in the donor stage, which is not rewired.
 */
module LostReads {
  import opened Sequences
  import opened TransferHoisting
  import opened TransferRuns
  import opened HoistedReads

  // ---------------------------------------------------------------------------------------------
  // What has been read stays read
  // ---------------------------------------------------------------------------------------------

  ghost predicate Grown<V>(s: State<V>, s': State<V>) {
    forall id: nat :: s.seen(id) <= s'.seen(id)
  }

  lemma {:induction false} ExecGrows<V>(m: Meaning<V>, stmts: seq<Stmt>, env: Env, s: State<V>)
    ensures Grown(s, Exec(m, stmts, env, s))
    decreases stmts, 1
  {
    if stmts != [] {
      OneGrows(m, stmts[0], env, s);
      ExecGrows(m, stmts[1..], env, ExecOne(m, stmts[0], env, s));
    }
  }

  lemma {:induction false} OneGrows<V>(m: Meaning<V>, stmt: Stmt, env: Env, s: State<V>)
    ensures Grown(s, ExecOne(m, stmt, env, s))
    decreases stmt, 0
  {
    if stmt.Block? {
      if stmt.kind.Loop? {
        IterateGrows(m, stmt.kind.iv, stmt.body, env, s, 0, stmt.kind.trip);
      } else {
        ExecGrows(m, stmt.body, env, s);
      }
    }
  }

  lemma {:induction false} IterateGrows<V>(m: Meaning<V>, iv: nat, body: seq<Stmt>, env: Env, s: State<V>, i: nat, trip: nat)
    ensures Grown(s, Iterate(m, iv, body, env, s, i, trip))
    decreases body, 2, if i <= trip then trip - i else 0
  {
    if i < trip {
      ExecGrows(m, body, Bound(env, iv, i), s);
      IterateGrows(m, iv, body, env, Exec(m, body, Bound(env, iv, i), s), i + 1, trip);
    }
  }

  /** Some operation other than the transfer has read different data. */
  ghost predicate Differ<V>(t: Op, s: State<V>, h: State<V>) {
    exists id: nat, k: nat :: id != t.id && DifferAt(s.seen(id), h.seen(id), k)
  }

  predicate DifferAt<V(==)>(a: seq<V>, b: seq<V>, k: nat) {
    k < |a| && k < |b| && a[k] != b[k]
  }

  lemma DifferStays<V>(t: Op, s: State<V>, h: State<V>, s': State<V>, h': State<V>)
    requires Differ(t, s, h) && Grown(s, s') && Grown(h, h')
    ensures Differ(t, s', h')
  {
    var id: nat, k: nat :| id != t.id && DifferAt(s.seen(id), h.seen(id), k);
    assert DifferAt(s'.seen(id), h'.seen(id), k);
  }

  // ---------------------------------------------------------------------------------------------
  // In the donor stage
  // ---------------------------------------------------------------------------------------------

  /** Whatever is moved becomes `a`. */
  ghost predicate Moves<V(!new)>(m: Meaning<V>, a: V) {
    forall counters: seq<nat>, v: V :: m.moved(counters, v) == a
  }

  lemma {:induction false} MovedStays<V(!new)>(m: Meaning<V>, stmts: seq<Stmt>, t: Op, env: Env, v: V, a: V)
    requires t.Transfer? && Moves(m, a)
    ensures Left(m, stmts, t, env, v, a) == a
    decreases stmts, 1
  {
    if stmts != [] {
      if stmts[0].Block? {
        var kind, body := stmts[0].kind, stmts[0].body;
        if kind.Loop? {
          MovedStaysByLoop(m, kind.iv, body, t, env, v, a, 0, kind.trip);
        } else {
          MovedStays(m, body, t, env, v, a);
        }
      }
      MovedStays(m, stmts[1..], t, env, v, a);
    }
  }

  lemma {:induction false} MovedStaysByLoop<V(!new)>(m: Meaning<V>, iv: nat, body: seq<Stmt>, t: Op, env: Env, v: V, a: V, i: nat, trip: nat)
    requires t.Transfer? && Moves(m, a)
    ensures LeftByLoop(m, iv, body, t, env, v, a, i, trip) == a
    decreases body, 2, if i <= trip then trip - i else 0
  {
    if i < trip {
      MovedStays(m, body, t, Bound(env, iv, i), v, a);
      MovedStaysByLoop(m, iv, body, t, env, v, a, i + 1, trip);
    }
  }

  lemma MovedIsLeft<V(!new)>(m: Meaning<V>, stmt: Stmt, t: Op, env: Env, v: V, y: V, a: V, done: bool)
    requires t.Transfer? && Moves(m, a) && (done ==> y == a) && DoneAfterOne(stmt, t, done)
    ensures LeftByOne(m, stmt, t, env, v, y) == a
  {
    assert [stmt][1..] == [];
    assert Left(m, [stmt], t, env, v, y) == LeftByOne(m, stmt, t, env, v, y);
    MovedStays(m, [stmt], t, env, v, a);
    if DoneAfter([stmt], t, false) {
      LeftAnew(m, [stmt], t, env, v, y, a);
    } else {
      NothingLeft(m, [stmt], t, env, v, y);
    }
  }

  lemma StepDiffers<V>(m: Meaning<V>, op: Op, t: Op, env: Env, s: State<V>, h: State<V>)
    requires t.Transfer? && op.id != t.id && Reads(op, t.dest) && s.seen(op.id) == h.seen(op.id)
    requires s.memory(t.dest) != h.memory(t.dest)
    ensures Differ(t, Step(m, op, env, s), Step(m, op, env, h))
  {
    var k :| 0 <= k < |Sources(op)| && Sources(op)[k] == t.dest;
    assert DifferAt(Step(m, op, env, s).seen(op.id), Step(m, op, env, h).seen(op.id), |s.seen(op.id)| + k);
  }

  /** The first read after the transfer finds what was moved; hoisted, it finds what was there before. */
  lemma {:induction false} DonorDiffers<V(!new)>(m: Meaning<V>, stmts: seq<Stmt>, t: Op, now: nat, env: Env, v: V, y: V, x: V, u: V, a: V, done: bool,
      s: State<V>, h: State<V>)
    requires t.Transfer? && now != t.source && now != t.dest && t.source != t.dest && Donating(t, now, v, y, x, u, s, h)
    requires Moves(m, a) && a != x && (done ==> y == a)
    requires Sole(stmts, t, now) && Calm(stmts, t) && Follows(stmts, t, done) && !Unread(stmts, t.dest)
    ensures Differ(t, Exec(m, stmts, env, s), Exec(m, Dropped(stmts, t), env, h))
    decreases stmts, 1
  {
    var s1, h1 := ExecOne(m, stmts[0], env, s), Exec(m, DroppedIn(stmts[0], t), env, h);
    ExecJoin(m, DroppedIn(stmts[0], t), Dropped(stmts[1..], t), env, h);
    if UnreadIn(stmts[0], t.dest) {
      var done1 := DoneAfterOne(stmts[0], t, done);
      OneDonating(m, stmts[0], t, now, env, v, y, x, u, s, h);
      if done1 {
        MovedIsLeft(m, stmts[0], t, env, v, y, a, done);
      }
      DonorDiffers(m, stmts[1..], t, now, env, v, LeftByOne(m, stmts[0], t, env, v, y), x, u, a, done1, s1, h1);
    } else {
      OneDiffers(m, stmts[0], t, now, env, v, y, x, u, a, done, s, h);
      ExecGrows(m, stmts[1..], env, s1);
      ExecGrows(m, Dropped(stmts[1..], t), env, h1);
      DifferStays(t, s1, h1, Exec(m, stmts, env, s), Exec(m, Dropped(stmts, t), env, h));
    }
  }

  lemma {:induction false} OneDiffers<V(!new)>(m: Meaning<V>, stmt: Stmt, t: Op, now: nat, env: Env, v: V, y: V, x: V, u: V, a: V, done: bool,
      s: State<V>, h: State<V>)
    requires t.Transfer? && now != t.source && now != t.dest && t.source != t.dest && Donating(t, now, v, y, x, u, s, h)
    requires Moves(m, a) && a != x && (done ==> y == a)
    requires SoleIn(stmt, t, now) && CalmIn(stmt, t) && FollowsIn(stmt, t, done) && !UnreadIn(stmt, t.dest)
    ensures Differ(t, ExecOne(m, stmt, env, s), Exec(m, DroppedIn(stmt, t), env, h))
    decreases stmt, 0
  {
    match stmt
    case Do(op) =>
      ExecSingle(m, stmt, env, h);
      StepDiffers(m, op, t, env, s, h);
    case Block(kind, body) =>
      ExecSingle(m, Block(kind, Dropped(body, t)), env, h);
      var inner := if kind.Loop? then Bound(env, kind.iv, 0) else env;
      DonorDiffers(m, body, t, now, inner, v, y, x, u, a, done, s, h);
      if kind.Loop? {
        LoopDiffers(m, kind, body, Dropped(body, t), t, env, s, h);
      }
  }

  /** What differs after the first iteration differs after the loop. */
  lemma LoopDiffers<V>(m: Meaning<V>, kind: Kind, body: seq<Stmt>, body': seq<Stmt>, t: Op, env: Env, s: State<V>, h: State<V>)
    requires kind.Loop? && kind.trip > 0
    requires Differ(t, Exec(m, body, Bound(env, kind.iv, 0), s), Exec(m, body', Bound(env, kind.iv, 0), h))
    ensures Differ(t, ExecOne(m, Block(kind, body), env, s), ExecOne(m, Block(kind, body'), env, h))
  {
    var s1, h1 := Exec(m, body, Bound(env, kind.iv, 0), s), Exec(m, body', Bound(env, kind.iv, 0), h);
    IterateGrows(m, kind.iv, body, env, s1, 1, kind.trip);
    IterateGrows(m, kind.iv, body', env, h1, 1, kind.trip);
    assert ExecOne(m, Block(kind, body), env, s) == Iterate(m, kind.iv, body, env, s1, 1, kind.trip);
    assert ExecOne(m, Block(kind, body'), env, h) == Iterate(m, kind.iv, body', env, h1, 1, kind.trip);
    DifferStays(t, s1, h1, ExecOne(m, Block(kind, body), env, s), ExecOne(m, Block(kind, body'), env, h));
  }

  // ---------------------------------------------------------------------------------------------
  // Around it
  // ---------------------------------------------------------------------------------------------

  /** What differs after statement `j` differs after the statements around it. */
  lemma AfterDiffers<V>(m: Meaning<V>, stmts: seq<Stmt>, j: nat, child: seq<Stmt>, t: Op, now: nat, env: Env,
      s: State<V>, h: State<V>, s2: State<V>, h2: State<V>)
    requires t.Transfer? && j < |stmts|
    requires s2 == ExecOne(m, stmts[j], env, Exec(m, stmts[..j], env, s))
    requires h2 == Exec(m, child, env, Exec(m, Rewired(stmts[..j], t.dest, now), env, h))
    requires Differ(t, s2, h2)
    ensures Differ(t, Exec(m, stmts, env, s), Exec(m, Around(stmts, j, child, t.dest, now), env, h))
  {
    ExecAround(m, stmts, j, child, t.dest, now, env, s, h);
    ExecGrows(m, stmts[j + 1..], env, s2);
    ExecGrows(m, Rewired(stmts[j + 1..], t.dest, now), env, h2);
    DifferStays(t, s2, h2, Exec(m, stmts, env, s), Exec(m, Around(stmts, j, child, t.dest, now), env, h));
  }

  /** The statements are as they should be, and the old buffer does not hold `a` in the hoisted run. */
  ghost predicate Ready<V(!new)>(m: Meaning<V>, stmts: seq<Stmt>, t: Op, now: nat, a: V, s: State<V>, h: State<V>)
    requires t.Transfer?
  {
    Suitable(stmts, t, now) && Moves(m, a) && Apart(t, now, s, h) && h.memory(t.dest) != a
  }

  lemma StagesDiffer<V(!new)>(m: Meaning<V>, body: seq<Stmt>, stage: nat, t: Op, now: nat, env: Env, a: V, s: State<V>, h: State<V>)
    requires t.Transfer? && stage < |body| && IsStage(body[stage]) && Has(body[stage].body, t)
    requires Ready(m, body, t, now, a, s, h) && Calm(body, t) && !Unread(body[stage].body, t.dest)
    ensures Differ(t, Exec(m, body, env, s), Exec(m, Around(body, stage, [Block(Stage, Erased(body[stage].body, t))], t.dest, now), env, h))
  {
    var donor := body[stage].body;
    var child := Block(Stage, Erased(donor, t));
    var s1, h1 := Exec(m, body[..stage], env, s), Exec(m, Rewired(body[..stage], t.dest, now), env, h);
    Split(body, stage, t, now, false);
    BuffersDiffer(donor, t, now);
    BeforeLinked(m, body, stage, t, now, false, env, s, h);
    ErasedIsDropped(donor, t, now);
    DonorDiffers(m, donor, t, now, env, s1.memory(t.source), s1.memory(t.dest), h1.memory(t.dest), h1.memory(now), a, false, s1, h1);
    ExecSingle(m, child, env, h1);
    AfterDiffers(m, body, stage, [child], t, now, env, s, h, Exec(m, donor, env, s1), Exec(m, Erased(donor, t), env, h1));
  }

  lemma {:induction false} OutDiffers<V(!new)>(m: Meaning<V>, stmts: seq<Stmt>, path: seq<nat>, stage: nat, t: Op, now: nat, env: Env, a: V,
      s: State<V>, h: State<V>)
    requires ValidPath(stmts, path, stage, t) && LegalPath(stmts, path, stage, t) && !DonorUnread(stmts, path, stage, t)
    requires Ready(m, stmts, t, now, a, s, h) && Calm(stmts, t)
    ensures Differ(t, Exec(m, stmts, env, s), Exec(m, OutOf(stmts, path, stage, t, now), env, h))
    decreases |path|
  {
    var j := path[0];
    var s1, h1 := Exec(m, stmts[..j], env, s), Exec(m, Rewired(stmts[..j], t.dest, now), env, h);
    PathHas(stmts, path, stage, t);
    HasLater(stmts, j, t);
    BuffersDiffer(stmts, t, now);
    BeforeLinked(m, stmts, j, t, now, false, env, s, h);
    Split(stmts, j, t, now, false);
    var kind, body := stmts[j].kind, stmts[j].body;
    var body';
    if |path| == 1 {
      body' := Around(body, stage, [Block(Stage, Erased(body[stage].body, t))], t.dest, now);
      StagesDiffer(m, body, stage, t, now, env, a, s1, h1);
    } else {
      body' := OutOf(body, path[1..], stage, t, now);
      OutDiffers(m, body, path[1..], stage, t, now, Bound(env, kind.iv, 0), a, s1, h1);
      LoopDiffers(m, kind, body, body', t, env, s1, h1);
    }
    ExecSingle(m, Block(kind, body'), env, h1);
    AfterDiffers(m, stmts, j, [Block(kind, body')], t, now, env, s, h,
      ExecOne(m, stmts[j], env, s1), ExecOne(m, Block(kind, body'), env, h1));
  }

  lemma TargetDiffers<V(!new)>(m: Meaning<V>, kind: Kind, body: seq<Stmt>, path: seq<nat>, stage: nat, t: Op, now: nat, env: Env, a: V,
      s: State<V>, h: State<V>)
    requires ValidPath(body, path, stage, t) && LegalPath(body, path, stage, t) && !DonorUnread(body, path, stage, t)
    requires kind.Loop? && kind.trip > 0 && LegalFor(t, Frame(kind.iv, body, path[0])) && Ready(m, body, t, now, a, s, h)
    ensures var donor, block := Donor(body, path, stage, t), Block(kind, body);
      Differ(t, ExecOne(m, block, env, s),
        Exec(m, Sibling(donor, t, now, now) + [Block(kind, OutOf(body, path, stage, t, now))], env, h))
  {
    var donor := Donor(body, path, stage, t);
    PathHas(body, path, stage, t);
    HasLater(body, path[0], t);
    LegalIsCalm(body, t, now);
    BuffersDiffer(body, t, now);
    DonorIsSole(body, path, stage, t, now);
    SiblingRuns(m, donor, t, now, now, env, h);
    var h1 := Exec(m, Sibling(donor, t, now, now), env, h);
    OutDiffers(m, body, path, stage, t, now, Bound(env, kind.iv, 0), a, s, h1);
    LoopDiffers(m, kind, body, OutOf(body, path, stage, t, now), t, env, s, h1);
    var out := Block(kind, OutOf(body, path, stage, t, now));
    ExecJoin(m, Sibling(donor, t, now, now), [out], env, h);
    ExecSingle(m, out, env, h1);
  }

  lemma {:induction false} HoistedDiffers<V(!new)>(m: Meaning<V>, stmts: seq<Stmt>, path: seq<nat>, at: nat, stage: nat,
      t: Op, now: nat, env: Env, a: V, s: State<V>, h: State<V>)
    requires ValidPath(stmts, path, stage, t) && at + 1 < |path| && LegalFrom(stmts, path, at, stage, t)
    requires Ready(m, stmts, t, now, a, s, h) && !DonorUnread(stmts, path, stage, t)
    ensures Differ(t, Exec(m, stmts, env, s), Exec(m, HoistedAt(stmts, path, at, stage, t, now), env, h))
    decreases |path|
  {
    var j := path[0];
    var s1, h1 := Exec(m, stmts[..j], env, s), Exec(m, Rewired(stmts[..j], t.dest, now), env, h);
    PathHas(stmts, path, stage, t);
    HasLater(stmts, j, t);
    BuffersDiffer(stmts, t, now);
    BeforeLinked(m, stmts, j, t, now, false, env, s, h);
    Split(stmts, j, t, now, false);
    var kind, body := stmts[j].kind, stmts[j].body;
    var child;
    if at == 0 {
      child := Sibling(Donor(stmts, path, stage, t), t, now, now) + [Block(kind, OutOf(body, path[1..], stage, t, now))];
      TargetDiffers(m, kind, body, path[1..], stage, t, now, env, a, s1, h1);
    } else {
      var body' := HoistedAt(body, path[1..], at - 1, stage, t, now);
      child := [Block(kind, body')];
      HoistedDiffers(m, body, path[1..], at - 1, stage, t, now, if kind.Loop? then Bound(env, kind.iv, 0) else env, a, s1, h1);
      if kind.Loop? {
        LoopDiffers(m, kind, body, body', t, env, s1, h1);
      }
      ExecSingle(m, Block(kind, body'), env, h1);
    }
    AfterDiffers(m, stmts, j, child, t, now, env, s, h, ExecOne(m, stmts[j], env, s1), Exec(m, child, env, h1));
  }

  // ---------------------------------------------------------------------------------------------
  // The program that a hoist returns
  // ---------------------------------------------------------------------------------------------

  /** The hoist keeps what is read exactly when nothing else that is run in the donor stage reads the destination. */
  lemma HoistKeepsReadsIff(program: seq<Stmt>, next: nat, r: Hoist, spot: Spot)
    requires r.Done? && Explained(program, None, [], next, r, spot) && Suitable(program, spot.transfer, next)
    ensures KeepsReads<bool>(program, r.stmts, spot.transfer, next) <==> DonorUnread(program, spot.path, spot.stage, spot.transfer)
  {
    var Spot(path, at, stage, t) := spot;
    if DonorUnread(program, path, stage, t) {
      HoistKeepsReads<bool>(program, next, r, spot);
    } else {
      var m := Meaning((counters: seq<nat>, v: bool) => true, (code: nat, counters: seq<nat>, vs: seq<bool>) => true);
      var s := State((b: nat) => false, [], (id: nat) => []);
      var env: Env := (c: nat) => 0;
      HoistedDiffers(m, program, path, at, stage, t, next, env, true, s, s);
      assert Apart(t, next, s, s);
    }
  }

  /** A stage in a loop that transfers and then sends on what it has transferred. */
  function SendsOn(t: Op, push: nat): seq<Stmt>
    requires t.Transfer?
  {
    [Block(Loop(0, 1), [Block(Pipeline, [Block(Stage, [Do(t), Do(Push(push, t.dest, []))])])])]
  }

  /** The transfer is legal, nothing in the loop interferes, and all is run in order; the stage reads the destination. */
  lemma SendsOnIsSuitable(t: Op, stage: seq<Stmt>, push: seq<Stmt>, next: nat)
    requires next > 2 && t == Transfer(0, 1, 2, []) && push == [Do(Push(1, 2, []))] && stage == [Do(t)] + push
    ensures LegalFor(t, Frame(0, [Block(Pipeline, [Block(Stage, stage)])], 0))
    ensures Suitable(stage, t, next) && !Unread(stage, 2) && Has(stage, t)
  {
    assert stage[1..] == push && push[1..] == [] && stage[0] == Do(t) && push[0] == Do(Push(1, 2, []));
    assert SoleIn(push[0], t, next) && SoleIn(stage[0], t, next) && FollowsIn(push[0], t, true) && !UnreadIn(push[0], 2);
    assert Sole(push[1..], t, next) && Follows(push[1..], t, true) && !HasIn(push[0], t) && !Has(push[1..], t);
    assert !RegionWritesTo(push[1..], 1, None) && !RegionWritesTo(push[1..], 2, Some(0)) && !RegionDefines(push[1..], 1);
    assert !WritesTo(push[0].op, 1) && !WritesTo(push[0].op, 2) && !push[0].op.Alloc?;
    assert !RegionWritesTo(push, 1, None) && !RegionWritesTo(push, 2, Some(0)) && !RegionDefines(push, 1);
    assert Sole(push, t, next) && Follows(push, t, true) && !Unread(push, 2);
    assert Interferes(stage, t) == Interferes(push, t);
    InterferesInBlock(Stage, stage, t);
    InterferesInBlock(Pipeline, [Block(Stage, stage)], t);
  }

  /** What makes the transfer illegal for a loop with this body. */
  predicate Interferes(body: seq<Stmt>, t: Op)
    requires t.Transfer?
  {
    RegionWritesTo(body, t.source, None) || RegionWritesTo(body, t.dest, Some(t.id)) || RegionDefines(body, t.source)
  }

  lemma InterferesInBlock(kind: Kind, body: seq<Stmt>, t: Op)
    requires t.Transfer?
    ensures Interferes([Block(kind, body)], t) == Interferes(body, t)
  {
    var stmts, none := [Block(kind, body)], [];
    assert stmts[0] == Block(kind, body) && stmts[1..] == none;
    assert !RegionWritesTo(none, t.source, None) && !RegionWritesTo(none, t.dest, Some(t.id)) && !RegionDefines(none, t.source);
  }

  lemma InOneBlock(kind: Kind, body: seq<Stmt>, t: Op, next: nat)
    requires t.Transfer? && Suitable(body, t, next)
    ensures Suitable([Block(kind, body)], t, next)
  {
    assert [Block(kind, body)][1..] == [];
  }

  /** After the hoist the transfer fills the new buffer, and what is sent on is what the old one holds. */
  lemma SendsOnHoisted(t: Op, push: nat, next: nat)
    requires t.Transfer? && t.uses == []
    ensures ValidPath(SendsOn(t, push), [0, 0], 0, t)
    ensures HoistedAt(SendsOn(t, push), [0, 0], 0, 0, t, next) ==
      [Do(Alloc(next, next)), Block(Pipeline, [Block(Stage, [Do(t.(dest := next))])]),
        Block(Loop(0, 1), [Block(Pipeline, [Block(Stage, [Do(Push(push, t.dest, []))])])])]
  {
    var donor := [Do(t), Do(Push(push, t.dest, []))];
    var pipeline := [Block(Stage, donor)];
    var inner, program := [Block(Pipeline, pipeline)], SendsOn(t, push);
    assert HasIn(donor[0], t) && Has(donor, t) && program[0].body == inner && inner[0].body == pipeline;
    assert [0, 0][1..] == [0] && ValidPath(inner, [0], 0, t) && ValidPath(program, [0, 0], 0, t);
    assert Slice(donor, t, next) == [Do(t.(dest := next))];
    assert Erased(donor, t) == donor[1..] == [Do(Push(push, t.dest, []))];
    assert pipeline[1..] == [] && inner[1..] == [] && program[1..] == [];
    var rest := Block(Stage, Erased(donor, t));
    assert Around(pipeline, 0, [rest], t.dest, next) == [rest];
    assert Around(inner, 0, [Block(Pipeline, [rest])], t.dest, next) == [Block(Pipeline, [rest])];
    assert OutOf(inner, [0], 0, t, next) == [Block(Pipeline, [rest])];
  }

  lemma SentBefore<V>(m: Meaning<V>, t: Op, push: nat, env: Env, s: State<V>)
    requires t.Transfer? && t.uses == []
    ensures Exec(m, SendsOn(t, push), env, s).pushed == s.pushed + [m.moved([], m.moved([], s.memory(t.source)))]
  {
    var donor := [Do(t), Do(Push(push, t.dest, []))];
    var inner, env' := [Block(Pipeline, [Block(Stage, donor)])], Bound(env, 0, 0);
    ExecSingle(m, Block(Loop(0, 1), inner), env, s);
    ExecSingle(m, Block(Pipeline, [Block(Stage, donor)]), env', s);
    ExecSingle(m, Block(Stage, donor), env', s);
    ExecSingle(m, donor[1], env', Step(m, t, env', s));
    assert donor[1..] == [donor[1]] && Held([], env') == [];
    assert Exec(m, donor, env', s) == Step(m, donor[1].op, env', Step(m, t, env', s));
    assert Iterate(m, 0, inner, env, s, 0, 1) == Exec(m, inner, env', s);
  }

  lemma ThreeRun<V>(m: Meaning<V>, a: Stmt, b: Stmt, c: Stmt, env: Env, s: State<V>)
    ensures Exec(m, [a, b, c], env, s) == ExecOne(m, c, env, ExecOne(m, b, env, ExecOne(m, a, env, s)))
  {
    ExecJoin(m, [a] + [b], [c], env, s);
    ExecJoin(m, [a], [b], env, s);
    ExecSingle(m, a, env, s);
    ExecSingle(m, b, env, ExecOne(m, a, env, s));
    ExecSingle(m, c, env, ExecOne(m, b, env, ExecOne(m, a, env, s)));
    assert [a, b, c] == [a] + [b] + [c];
  }

  lemma SentAfter<V>(m: Meaning<V>, t: Op, push: nat, next: nat, env: Env, s: State<V>)
    requires t.Transfer? && t.uses == [] && next != t.dest
    ensures ValidPath(SendsOn(t, push), [0, 0], 0, t)
    ensures Exec(m, HoistedAt(SendsOn(t, push), [0, 0], 0, 0, t, next), env, s).pushed == s.pushed + [m.moved([], s.memory(t.dest))]
  {
    SendsOnHoisted(t, push, next);
    var filling, sending := [Do(t.(dest := next))], [Do(Push(push, t.dest, []))];
    var sibling, loop := Block(Pipeline, [Block(Stage, filling)]), Block(Loop(0, 1), [Block(Pipeline, [Block(Stage, sending)])]);
    var env', s1 := Bound(env, 0, 0), Step(m, t.(dest := next), env, s);
    ThreeRun(m, Do(Alloc(next, next)), sibling, loop, env, s);
    ExecSingle(m, Block(Stage, filling), env, s);
    ExecSingle(m, filling[0], env, s);
    ExecSingle(m, loop, env, s1);
    ExecSingle(m, Block(Pipeline, [Block(Stage, sending)]), env', s1);
    ExecSingle(m, Block(Stage, sending), env', s1);
    ExecSingle(m, sending[0], env', s1);
    assert Held([], env') == [];
    assert Iterate(m, 0, loop.body, env, s1, 0, 1) == Exec(m, loop.body, env', s1);
  }

  /** When transfers leave data as it is, what was transferred is sent before the hoist, and what was there before it afterwards. */
  lemma SentOnIsOther(next: nat)
    requires next > 2
    ensures var t := Transfer(0, 1, 2, []);
      && ValidPath(SendsOn(t, 1), [0, 0], 0, t)
      && exists m: Meaning<bool>, env: Env, s: State<bool> ::
        Exec(m, SendsOn(t, 1), env, s).pushed != Exec(m, HoistedAt(SendsOn(t, 1), [0, 0], 0, 0, t, next), env, s).pushed
  {
    var t := Transfer(0, 1, 2, []);
    var m := Meaning((counters: seq<nat>, v: bool) => v, (code: nat, counters: seq<nat>, vs: seq<bool>) => true);
    var env: Env := (c: nat) => 0;
    var s: State<bool> := State((b: nat) => b == 1, [], (id: nat) => []);
    SentBefore(m, t, 1, env, s);
    SentAfter(m, t, 1, next, env, s);
    var before, after := Exec(m, SendsOn(t, 1), env, s).pushed, Exec(m, HoistedAt(SendsOn(t, 1), [0, 0], 0, 0, t, next), env, s).pushed;
    assert before[0] != after[0];
  }

  lemma SentOnIsLost(next: nat)
    requires next > 2
    ensures var t := Transfer(0, 1, 2, []);
      var program, spot := SendsOn(t, 1), Spot([0, 0], 0, 0, t);
      && ValidPath(program, spot.path, 0, t) && Suitable(program, t, next) && LegalFrom(program, spot.path, 0, 0, t)
      && !KeepsReads<bool>(program, HoistedAt(program, spot.path, 0, 0, t, next), t, next)
  {
    var t := Transfer(0, 1, 2, []);
    var program, spot := SendsOn(t, 1), Spot([0, 0], 0, 0, t);
    var stage := [Do(t), Do(Push(1, 2, []))];
    var pipelines := [Block(Pipeline, [Block(Stage, stage)])];
    SendsOnIsSuitable(t, stage, [Do(Push(1, 2, []))], next);
    InOneBlock(Stage, stage, t, next);
    InOneBlock(Pipeline, [Block(Stage, stage)], t, next);
    InOneBlock(Loop(0, 1), pipelines, t, next);
    assert spot.path[1..] == [0] && ValidPath(pipelines, [0], 0, t);
    HoistKeepsReadsIff(program, next, Done(HoistedAt(program, spot.path, 0, 0, t, next), 2, next), spot);
  }
}
