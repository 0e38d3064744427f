/**
 * What is read in runs of loops over operations on buffers, and what one transfer among them leaves in
 * its destination.
 */
module TransferRuns {
  import opened Sequences
  import opened TransferHoisting

  type Memory<V> = nat -> V

  /** The buffers, everything pushed into FIFOs so far, and what each operation has read so far. */
  datatype State<!V> = State(memory: Memory<V>, pushed: seq<V>, seen: nat -> seq<V>)

  /** What transfers and computations make of the values of the counters they use and of what they read. */
  datatype Meaning<!V> = Meaning(moved: (seq<nat>, V) -> V, computed: (nat, seq<nat>, seq<V>) -> V)

  type Env = nat -> nat

  /** All the buffers get the same value. */
  function Written<V>(memory: Memory<V>, buffers: seq<nat>, v: V): Memory<V> {
    (b: nat) => if b in buffers then v else memory(b)
  }

  /** What the counters hold, or the buffers. */
  function Held<V>(names: seq<nat>, values: nat -> V): (r: seq<V>)
    ensures |r| == |names| && forall k :: 0 <= k < |r| ==> r[k] == values(names[k])
  {
    seq(|names|, k requires 0 <= k < |names| => values(names[k]))
  }

  function Bound(env: Env, iv: nat, i: nat): Env {
    (v: nat) => if v == iv then i else env(v)
  }

  function Sources(op: Op): seq<nat> {
    match op
    case Transfer(_, source, _, _) => [source]
    case Push(_, source, _) => [source]
    case Compute(_, _, sources, _, _) => sources
    case Alloc(_, _) => []
  }

  predicate Reads(op: Op, buffer: nat) {
    buffer in Sources(op)
  }

  function Noted<V>(op: Op, s: State<V>): nat -> seq<V> {
    (id: nat) => if id == op.id then s.seen(id) + Held(Sources(op), s.memory) else s.seen(id)
  }

  function Step<V>(m: Meaning<V>, op: Op, env: Env, s: State<V>): State<V> {
    match op
    case Transfer(_, source, dest, uses) =>
      State(Written(s.memory, [dest], m.moved(Held(uses, env), s.memory(source))), s.pushed, Noted(op, s))
    case Push(_, source, uses) =>
      State(s.memory, s.pushed + [m.moved(Held(uses, env), s.memory(source))], Noted(op, s))
    case Compute(_, code, sources, dests, uses) =>
      State(Written(s.memory, dests, m.computed(code, Held(uses, env), Held(sources, s.memory))), s.pushed, Noted(op, s))
    case Alloc(_, _) => s
  }

  /** What is said to write a buffer are exactly the operations that can change it. */
  lemma WritesToIff(op: Op, buffer: nat)
    ensures WritesTo(op, buffer) <==>
      exists m: Meaning<bool>, env: Env, s: State<bool> :: Step(m, op, env, s).memory(buffer) != s.memory(buffer)
  {
    if WritesTo(op, buffer) {
      var m := Meaning((counters: seq<nat>, v: bool) => true, (code: nat, counters: seq<nat>, vs: seq<bool>) => true);
      var env: Env := (c: nat) => 0;
      var s: State<bool> := State((b: nat) => false, [], (id: nat) => []);
      assert Step(m, op, env, s).memory(buffer) != s.memory(buffer);
    }
  }

  function Exec<V>(m: Meaning<V>, stmts: seq<Stmt>, env: Env, s: State<V>): State<V>
    decreases stmts, 1
  {
    if stmts == [] then s else Exec(m, stmts[1..], env, ExecOne(m, stmts[0], env, s))
  }

  function ExecOne<V>(m: Meaning<V>, stmt: Stmt, env: Env, s: State<V>): State<V>
    decreases stmt, 0
  {
    match stmt
    case Do(op) => Step(m, op, env, s)
    case Block(kind, body) => if kind.Loop? then Iterate(m, kind.iv, body, env, s, 0, kind.trip) else Exec(m, body, env, s)
  }

  function Iterate<V>(m: Meaning<V>, iv: nat, body: seq<Stmt>, env: Env, s: State<V>, i: nat, trip: nat): State<V>
    decreases body, 2, if i <= trip then trip - i else 0
  {
    if i >= trip then s else Iterate(m, iv, body, env, Exec(m, body, Bound(env, iv, i), s), i + 1, trip)
  }

  lemma {:induction false} ExecJoin<V>(m: Meaning<V>, a: seq<Stmt>, b: seq<Stmt>, env: Env, s: State<V>)
    ensures Exec(m, a + b, env, s) == Exec(m, b, env, Exec(m, a, env, s))
  {
    if a == [] {
      assert a + b == b;
    } else {
      assert (a + b)[0] == a[0] && (a + b)[1..] == a[1..] + b;
      ExecJoin(m, a[1..], b, env, ExecOne(m, a[0], env, s));
    }
  }

  lemma ExecSingle<V>(m: Meaning<V>, stmt: Stmt, env: Env, s: State<V>)
    ensures Exec(m, [stmt], env, s) == ExecOne(m, stmt, env, s)
  {
    assert [stmt][1..] == [];
  }

  // ---------------------------------------------------------------------------------------------
  // Where the transfer has been run
  // ---------------------------------------------------------------------------------------------

  /** The transfer has been run when the statements have, provided it had been before, or is in them. */
  predicate DoneAfter(stmts: seq<Stmt>, t: Op, done: bool) {
    if stmts == [] then done else DoneAfter(stmts[1..], t, DoneAfterOne(stmts[0], t, done))
  }

  predicate DoneAfterOne(s: Stmt, t: Op, done: bool) {
    match s
    case Do(op) => done || op == t
    case Block(kind, body) => if kind.Loop? && kind.trip == 0 then done else DoneAfter(body, t, done)
  }

  /** The destination is read only where the transfer has been run. */
  predicate Follows(stmts: seq<Stmt>, t: Op, done: bool)
    requires t.Transfer?
    decreases stmts, 1
  {
    stmts == [] || (FollowsIn(stmts[0], t, done) && Follows(stmts[1..], t, DoneAfterOne(stmts[0], t, done)))
  }

  predicate FollowsIn(s: Stmt, t: Op, done: bool)
    requires t.Transfer?
    decreases s, 0
  {
    match s
    case Do(op) => Reads(op, t.dest) ==> done
    case Block(_, body) => Follows(body, t, done)
  }

  /** The transfer is there at most once, no other operation goes by its identity, and the new buffer is new. */
  predicate Sole(stmts: seq<Stmt>, t: Op, now: nat)
    decreases stmts, 1
  {
    stmts == [] || (SoleIn(stmts[0], t, now) && Sole(stmts[1..], t, now) && (HasIn(stmts[0], t) ==> !Has(stmts[1..], t)))
  }

  predicate SoleIn(s: Stmt, t: Op, now: nat)
    decreases s, 0
  {
    match s
    case Do(op) => (op.id == t.id ==> op == t) && !Reads(op, now) && !WritesTo(op, now)
    case Block(_, body) => Sole(body, t, now)
  }

  /** Nothing but the transfer writes its source or its destination. */
  predicate Calm(stmts: seq<Stmt>, t: Op)
    requires t.Transfer?
    decreases stmts, 1
  {
    stmts == [] || (CalmIn(stmts[0], t) && Calm(stmts[1..], t))
  }

  predicate CalmIn(s: Stmt, t: Op)
    requires t.Transfer?
    decreases s, 0
  {
    match s
    case Do(op) => !WritesTo(op, t.source) && (op == t || !WritesTo(op, t.dest))
    case Block(_, body) => Calm(body, t)
  }

  lemma {:induction false} DoneStays(stmts: seq<Stmt>, t: Op)
    ensures DoneAfter(stmts, t, true)
    decreases stmts
  {
    if stmts != [] {
      match stmts[0]
      case Do(op) => DoneStays(stmts[1..], t);
      case Block(kind, body) =>
        DoneStays(body, t);
        DoneStays(stmts[1..], t);
    }
  }

  lemma {:induction false} DoneWithout(stmts: seq<Stmt>, t: Op, done: bool)
    requires !Has(stmts, t)
    ensures DoneAfter(stmts, t, done) == done
    decreases stmts
  {
    if stmts != [] {
      match stmts[0]
      case Do(op) => DoneWithout(stmts[1..], t, done);
      case Block(kind, body) =>
        DoneWithout(body, t, done);
        DoneWithout(stmts[1..], t, done);
    }
  }

  lemma {:induction false} FollowsWhenDone(stmts: seq<Stmt>, t: Op, done: bool)
    requires t.Transfer? && Follows(stmts, t, done)
    ensures Follows(stmts, t, true)
    decreases stmts
  {
    if stmts != [] {
      if stmts[0].Block? {
        FollowsWhenDone(stmts[0].body, t, done);
        DoneStays(stmts[0].body, t);
      }
      assert FollowsIn(stmts[0], t, true) && DoneAfterOne(stmts[0], t, true);
      FollowsWhenDone(stmts[1..], t, DoneAfterOne(stmts[0], t, done));
    }
  }

  lemma {:induction false} LegalIsCalm(stmts: seq<Stmt>, t: Op, now: nat)
    requires t.Transfer? && Sole(stmts, t, now)
    requires !RegionWritesTo(stmts, t.source, None) && !RegionWritesTo(stmts, t.dest, Some(t.id))
    ensures Calm(stmts, t)
    decreases stmts
  {
    if stmts != [] {
      LegalIsCalm(stmts[1..], t, now);
      match stmts[0]
      case Do(op) =>
      case Block(_, body) => LegalIsCalm(body, t, now);
    }
  }

  /** Where the transfer is, nothing writing its source, source and destination differ, and neither is the new buffer. */
  lemma {:induction false} BuffersDiffer(stmts: seq<Stmt>, t: Op, now: nat)
    requires t.Transfer? && Has(stmts, t) && Sole(stmts, t, now)
    ensures now != t.source && now != t.dest && (Calm(stmts, t) ==> t.source != t.dest)
    decreases stmts
  {
    assert Calm(stmts, t) ==> CalmIn(stmts[0], t);
    match stmts[0]
    case Do(op) =>
      if op != t {
        BuffersDiffer(stmts[1..], t, now);
      }
    case Block(_, body) =>
      if Has(body, t) {
        BuffersDiffer(body, t, now);
      } else {
        BuffersDiffer(stmts[1..], t, now);
      }
  }

  // ---------------------------------------------------------------------------------------------
  // What the transfer leaves in its destination
  // ---------------------------------------------------------------------------------------------

  /** The destination, `y` before, when the source holds `v` and nothing else writes either. */
  function Left<V>(m: Meaning<V>, stmts: seq<Stmt>, t: Op, env: Env, v: V, y: V): V
    requires t.Transfer?
    decreases stmts, 1
  {
    if stmts == [] then y else Left(m, stmts[1..], t, env, v, LeftByOne(m, stmts[0], t, env, v, y))
  }

  function LeftByOne<V>(m: Meaning<V>, s: Stmt, t: Op, env: Env, v: V, y: V): V
    requires t.Transfer?
    decreases s, 0
  {
    match s
    case Do(op) => if op == t then m.moved(Held(t.uses, env), v) else y
    case Block(kind, body) => if kind.Loop? then LeftByLoop(m, kind.iv, body, t, env, v, y, 0, kind.trip) else Left(m, body, t, env, v, y)
  }

  function LeftByLoop<V>(m: Meaning<V>, iv: nat, body: seq<Stmt>, t: Op, env: Env, v: V, y: V, i: nat, trip: nat): V
    requires t.Transfer?
    decreases body, 2, if i <= trip then trip - i else 0
  {
    if i >= trip then y else LeftByLoop(m, iv, body, t, env, v, Left(m, body, t, Bound(env, iv, i), v, y), i + 1, trip)
  }

  ghost predicate Agree(uses: seq<nat>, env: Env, env': Env) {
    forall c: nat :: c in uses ==> env(c) == env'(c)
  }

  /** Only the counters that the transfer uses matter. */
  lemma {:induction false} LeftIsLocal<V>(m: Meaning<V>, stmts: seq<Stmt>, t: Op, env: Env, env': Env, v: V, y: V)
    requires t.Transfer? && Agree(t.uses, env, env')
    ensures Left(m, stmts, t, env, v, y) == Left(m, stmts, t, env', v, y)
    decreases stmts, 0
  {
    if stmts != [] {
      match stmts[0] {
        case Do(op) => assert Held(t.uses, env) == Held(t.uses, env');
        case Block(kind, body) =>
          if kind.Loop? {
            LoopLeftIsLocal(m, kind.iv, body, t, env, env', v, y, 0, kind.trip);
          } else {
            LeftIsLocal(m, body, t, env, env', v, y);
          }
      }
      LeftIsLocal(m, stmts[1..], t, env, env', v, LeftByOne(m, stmts[0], t, env, v, y));
    }
  }

  lemma {:induction false} LoopLeftIsLocal<V>(m: Meaning<V>, iv: nat, body: seq<Stmt>, t: Op, env: Env, env': Env, v: V, y: V, i: nat, trip: nat)
    requires t.Transfer? && Agree(t.uses, env, env')
    ensures LeftByLoop(m, iv, body, t, env, v, y, i, trip) == LeftByLoop(m, iv, body, t, env', v, y, i, trip)
    decreases body, 1, if i <= trip then trip - i else 0
  {
    if i < trip {
      LeftIsLocal(m, body, t, Bound(env, iv, i), Bound(env', iv, i), v, y);
      LoopLeftIsLocal(m, iv, body, t, env, env', v, Left(m, body, t, Bound(env, iv, i), v, y), i + 1, trip);
    }
  }

  /** Where the transfer is not run the destination stays. */
  lemma {:induction false} NothingLeft<V>(m: Meaning<V>, stmts: seq<Stmt>, t: Op, env: Env, v: V, y: V)
    requires t.Transfer? && !DoneAfter(stmts, t, false)
    ensures Left(m, stmts, t, env, v, y) == y
    decreases stmts, 0
  {
    if stmts != [] {
      if DoneAfterOne(stmts[0], t, false) {
        DoneStays(stmts[1..], t);
      }
      match stmts[0] {
        case Do(op) =>
        case Block(kind, body) =>
          if kind.Loop? {
            NothingLeftByLoop(m, kind.iv, body, t, env, v, y, 0, kind.trip);
          } else {
            NothingLeft(m, body, t, env, v, y);
          }
      }
      NothingLeft(m, stmts[1..], t, env, v, y);
    }
  }

  lemma {:induction false} NothingLeftByLoop<V>(m: Meaning<V>, iv: nat, body: seq<Stmt>, t: Op, env: Env, v: V, y: V, i: nat, trip: nat)
    requires t.Transfer? && (i < trip ==> !DoneAfter(body, t, false))
    ensures LeftByLoop(m, iv, body, t, env, v, y, i, trip) == y
    decreases body, 1, if i <= trip then trip - i else 0
  {
    if i < trip {
      NothingLeft(m, body, t, Bound(env, iv, i), v, y);
      NothingLeftByLoop(m, iv, body, t, env, v, y, i + 1, trip);
    }
  }

  /** Where it is run, what was there before does not matter. */
  lemma {:induction false} LeftAnew<V>(m: Meaning<V>, stmts: seq<Stmt>, t: Op, env: Env, v: V, y: V, z: V)
    requires t.Transfer? && DoneAfter(stmts, t, false)
    ensures Left(m, stmts, t, env, v, y) == Left(m, stmts, t, env, v, z)
    decreases stmts, 1
  {
    if DoneAfterOne(stmts[0], t, false) {
      LeftAnewByOne(m, stmts[0], t, env, v, y, z);
    } else {
      LeftAnew(m, stmts[1..], t, env, v, LeftByOne(m, stmts[0], t, env, v, y), LeftByOne(m, stmts[0], t, env, v, z));
    }
  }

  lemma {:induction false} LeftAnewByOne<V>(m: Meaning<V>, s: Stmt, t: Op, env: Env, v: V, y: V, z: V)
    requires t.Transfer? && DoneAfterOne(s, t, false)
    ensures LeftByOne(m, s, t, env, v, y) == LeftByOne(m, s, t, env, v, z)
    decreases s, 0
  {
    match s
    case Do(op) =>
    case Block(kind, body) =>
      LeftAnew(m, body, t, if kind.Loop? then Bound(env, kind.iv, 0) else env, v, y, z);
  }

  /** A loop whose counter it does not use leaves what one iteration does. */
  lemma {:induction false} LoopLeavesTheSame<V>(m: Meaning<V>, iv: nat, body: seq<Stmt>, t: Op, env: Env, v: V, y: V, i: nat, trip: nat)
    requires t.Transfer? && iv !in t.uses && i < trip && DoneAfter(body, t, false)
    ensures LeftByLoop(m, iv, body, t, env, v, y, i, trip) == Left(m, body, t, env, v, y)
    decreases trip - i
  {
    var y1 := Left(m, body, t, Bound(env, iv, i), v, y);
    LeftIsLocal(m, body, t, Bound(env, iv, i), env, v, y);
    if i + 1 < trip {
      LoopLeavesTheSame(m, iv, body, t, env, v, y1, i + 1, trip);
      LeftAnew(m, body, t, env, v, y1, y);
    }
  }

  // ---------------------------------------------------------------------------------------------
  // The sibling pipeline
  // ---------------------------------------------------------------------------------------------

  /** Nothing happens but to the new buffer. */
  ghost predicate OnlyNow<V>(t: Op, now: nat, s: State<V>, s': State<V>) {
    && s.pushed == s'.pushed
    && (forall b: nat :: b != now ==> s.memory(b) == s'.memory(b))
    && (forall id: nat :: id != t.id ==> s.seen(id) == s'.seen(id))
  }

  /** The slice leaves in the new buffer what the stage left in the old one, whichever loops are kept. */
  lemma {:induction false} SliceRuns<V>(m: Meaning<V>, stmts: seq<Stmt>, t: Op, now: nat, env: Env, y: V, s: State<V>)
    requires t.Transfer? && now != t.source && Has(stmts, t) && Sole(stmts, t, now)
    ensures var s' := Exec(m, Slice(stmts, t, now), env, s);
      OnlyNow(t, now, s, s') && (DoneAfter(stmts, t, false) ==> s'.memory(now) == Left(m, stmts, t, env, s.memory(t.source), y))
    decreases stmts, 1
  {
    if HasIn(stmts[0], t) {
      SliceOneRuns(m, stmts[0], t, now, env, y, s);
      DoneWithout(stmts[1..], t, DoneAfterOne(stmts[0], t, false));
      DoneWithout(stmts[1..], t, false);
      NothingLeft(m, stmts[1..], t, env, s.memory(t.source), LeftByOne(m, stmts[0], t, env, s.memory(t.source), y));
    } else {
      WithoutIn(m, stmts[0], t, env, s.memory(t.source), y);
      SliceRuns(m, stmts[1..], t, now, env, y, s);
    }
  }

  lemma WithoutIn<V>(m: Meaning<V>, s: Stmt, t: Op, env: Env, v: V, y: V)
    requires t.Transfer? && !HasIn(s, t)
    ensures LeftByOne(m, s, t, env, v, y) == y && !DoneAfterOne(s, t, false)
  {
    if s.Block? {
      DoneWithout(s.body, t, false);
      if s.kind.Loop? {
        NothingLeftByLoop(m, s.kind.iv, s.body, t, env, v, y, 0, s.kind.trip);
      } else {
        NothingLeft(m, s.body, t, env, v, y);
      }
    }
  }

  lemma {:induction false} SliceOneRuns<V>(m: Meaning<V>, stmt: Stmt, t: Op, now: nat, env: Env, y: V, s: State<V>)
    requires t.Transfer? && now != t.source && HasIn(stmt, t) && (stmt.Block? ==> Sole(stmt.body, t, now))
    ensures var s' := Exec(m, SliceIn(stmt, t, now), env, s);
      OnlyNow(t, now, s, s') && (DoneAfterOne(stmt, t, false) ==> s'.memory(now) == LeftByOne(m, stmt, t, env, s.memory(t.source), y))
    decreases stmt, 0
  {
    match stmt
    case Do(op) => ExecSingle(m, Do(t.(dest := now)), env, s);
    case Block(kind, body) =>
      if kind.Loop? && kind.iv !in t.uses {
        SliceRuns(m, body, t, now, env, y, s);
        if DoneAfterOne(stmt, t, false) {
          LoopLeavesTheSame(m, kind.iv, body, t, env, s.memory(t.source), y, 0, kind.trip);
        }
      } else {
        ExecSingle(m, Block(kind, Slice(body, t, now)), env, s);
        if kind.Loop? {
          SliceLoopRuns(m, kind.iv, body, t, now, env, y, s, 0, kind.trip);
        } else {
          SliceRuns(m, body, t, now, env, y, s);
        }
      }
  }

  lemma {:induction false} SliceLoopRuns<V>(m: Meaning<V>, iv: nat, body: seq<Stmt>, t: Op, now: nat, env: Env, y: V, s: State<V>, i: nat, trip: nat)
    requires t.Transfer? && now != t.source && Has(body, t) && Sole(body, t, now)
    ensures var s' := Iterate(m, iv, Slice(body, t, now), env, s, i, trip);
      && OnlyNow(t, now, s, s')
      && (i < trip && DoneAfter(body, t, false) ==> s'.memory(now) == LeftByLoop(m, iv, body, t, env, s.memory(t.source), y, i, trip))
    decreases body, 2, if i <= trip then trip - i else 0
  {
    if i < trip {
      var v := s.memory(t.source);
      var s1 := Exec(m, Slice(body, t, now), Bound(env, iv, i), s);
      SliceRuns(m, body, t, now, Bound(env, iv, i), y, s);
      SliceLoopRuns(m, iv, body, t, now, env, Left(m, body, t, Bound(env, iv, i), v, y), s1, i + 1, trip);
    }
  }

  /** The value the sibling pipeline leaves is one the stage itself would leave as it is. */
  lemma SiblingRuns<V>(m: Meaning<V>, stage: seq<Stmt>, t: Op, now: nat, id: nat, env: Env, s: State<V>)
    requires t.Transfer? && now != t.source && Has(stage, t) && Sole(stage, t, now)
    ensures var s' := Exec(m, Sibling(stage, t, now, id), env, s);
      OnlyNow(t, now, s, s') && s'.memory(now) == Left(m, stage, t, env, s.memory(t.source), s'.memory(now))
  {
    var slice := Slice(stage, t, now);
    var inner := Block(Stage, slice);
    ExecJoin(m, [Do(Alloc(id, now))], [Block(Pipeline, [inner])], env, s);
    assert Sibling(stage, t, now, id) == [Do(Alloc(id, now))] + [Block(Pipeline, [inner])];
    ExecSingle(m, Do(Alloc(id, now)), env, s);
    ExecSingle(m, Block(Pipeline, [inner]), env, s);
    ExecSingle(m, inner, env, s);
    var w := Exec(m, slice, env, s).memory(now);
    SliceRuns(m, stage, t, now, env, w, s);
    if !DoneAfter(stage, t, false) {
      NothingLeft(m, stage, t, env, s.memory(t.source), w);
    }
  }
}
