/**
 * What the exposed stages do when they run: one push per index tuple, one fold, one result.
 */
module ReductionRuns {
  import opened Arithmetic
  import opened LoopNests
  import opened ReductionLoopExposure

  /** The accumulator after the slices, in order. */
  function Fold<T>(combine: (T, T) -> T, start: T, slices: seq<T>): T {
    if slices == [] then start else Fold(combine, combine(start, slices[0]), slices[1..])
  }

  lemma {:induction false} FoldLast<T>(combine: (T, T) -> T, start: T, slices: seq<T>, x: T)
    ensures Fold(combine, start, slices + [x]) == combine(Fold(combine, start, slices), x)
  {
    if slices != [] {
      assert (slices + [x])[1..] == slices[1..] + [x];
      FoldLast(combine, combine(start, slices[0]), slices[1..], x);
    }
  }

  // ---------------------------------------------------------------------------------------------
  // Straight-line bodies
  // ---------------------------------------------------------------------------------------------

  ghost predicate Idle(op: Op) {
    op.Other?
  }

  /** All operations but the one at `k` leave the state alone. */
  ghost predicate OnlyAt(ops: seq<Op>, k: nat) {
    k < |ops| && forall j :: 0 <= j < |ops| && j != k ==> Idle(ops[j])
  }

  lemma {:induction false} IdleRuns<T>(m: Meaning<T>, ops: seq<Op>, env: seq<nat>, s: Outcome<T>)
    requires forall j :: 0 <= j < |ops| ==> Idle(ops[j])
    ensures Exec(m, Straight(ops), env, s) == s
  {
    if ops != [] {
      assert Straight(ops)[1..] == Straight(ops[1..]);
      IdleRuns(m, ops[1..], env, s);
    }
  }

  /** With `stmt` in place `k` the body does what `stmt` does. */
  lemma {:induction false} OnlyAtRuns<T>(m: Meaning<T>, ops: seq<Op>, k: nat, stmt: Stmt, env: seq<nat>, s: Outcome<T>)
    requires OnlyAt(ops, k)
    ensures Exec(m, Straight(ops)[k := stmt], env, s) == Exec(m, [stmt], env, s)
    decreases k
  {
    var body := Straight(ops)[k := stmt];
    if k == 0 {
      assert body[1..] == Straight(ops[1..]);
      var mid := Exec(m, [stmt], env, s);
      assert Exec(m, [stmt][1..], env, mid) == mid;
      IdleRuns(m, ops[1..], env, mid);
      ExecHead(m, body, env, s);
    } else {
      assert body[1..] == Straight(ops[1..])[k - 1 := stmt];
      assert body[0] == Do(ops[0]) && Idle(ops[0]);
      OnlyAtRuns(m, ops[1..], k - 1, stmt, env, s);
    }
  }

  lemma ExecHead<T>(m: Meaning<T>, body: seq<Stmt>, env: seq<nat>, s: Outcome<T>)
    requires body != []
    ensures Exec(m, body, env, s) == Exec(m, body[1..], env, Exec(m, [body[0]], env, s))
  {
    assert [body[0]][1..] == [];
  }

  // ---------------------------------------------------------------------------------------------
  // The load stage
  // ---------------------------------------------------------------------------------------------

  /** The slices that the transfer reads, one per index tuple. */
  function Slices<T>(m: Meaning<T>, op: Op, env: seq<nat>, ts: seq<seq<nat>>): (r: seq<T>)
    requires op.Load?
    ensures |r| == |ts| && forall k :: 0 <= k < |r| ==> r[k] == m.block(Offsets(op.indices, env + ts[k]), op.sizes)
  {
    if ts == [] then [] else [m.block(Offsets(op.indices, env + ts[0]), op.sizes)] + Slices(m, op, env, ts[1..])
  }

  lemma {:induction false} LoadRunsAll<T>(m: Meaning<T>, ops: seq<Op>, k: nat, env: seq<nat>, ts: seq<seq<nat>>, s: Outcome<T>)
    requires OnlyAt(ops, k) && ops[k].Load?
    ensures RunAll(m, Straight(ops), env, ts, s)
      == s.(state := s.state.(output := s.state.output + Slices(m, ops[k], env, ts)))
  {
    if ts == [] {
      assert s.state.output + [] == s.state.output;
    } else {
      var after := Exec(m, Straight(ops), env + ts[0], s);
      assert Straight(ops)[k := Do(ops[k])] == Straight(ops);
      OnlyAtRuns(m, ops, k, Do(ops[k]), env + ts[0], s);
      LoadRunsAll(m, ops, k, env, ts[1..], after);
      var block := m.block(Offsets(ops[k].indices, env + ts[0]), ops[k].sizes);
      assert s.state.output + ([block] + Slices(m, ops[k], env, ts[1..])) == (s.state.output + [block]) + Slices(m, ops[k], env, ts[1..]);
    }
  }

  lemma StraightIsUncarried(ops: seq<Op>)
    requires forall j :: 0 <= j < |ops| ==> ops[j] != Combine && ops[j] != Send
    ensures Uncarried(Straight(ops))
    decreases |ops|
  {
    if ops != [] {
      assert Straight(ops)[1..] == Straight(ops[1..]);
      StraightIsUncarried(ops[1..]);
    }
  }

  /** The rewritten load stage pushes one slice per index tuple, in lexicographic order. */
  lemma LoadStagePushes<T>(m: Meaning<T>, ops: seq<Op>, k: nat, sizes: seq<nat>, env: seq<nat>, s: Outcome<T>)
    requires OnlyAt(ops, k) && ops[k].Load?
    ensures Exec(m, Nest(sizes, Nothing, Straight(ops)), env, s)
      == s.(state := s.state.(output := s.state.output + Slices(m, ops[k], env, Tuples(sizes))))
  {
    StraightIsUncarried(ops);
    NestRuns(m, sizes, Nothing, Straight(ops), env, s);
    LoadRunsAll(m, ops, k, env, Tuples(sizes), s);
  }

  // ---------------------------------------------------------------------------------------------
  // The compute stage
  // ---------------------------------------------------------------------------------------------

  function Acc<T>(buffered: bool, s: Outcome<T>): T {
    if buffered then s.state.buffer else s.carried
  }

  /** After folding in `slices`, and sending the result or not. */
  ghost predicate Folded<T>(m: Meaning<T>, buffered: bool, s: Outcome<T>, slices: seq<T>, rest: seq<T>, sent: bool, r: Outcome<T>) {
    && r.state.input == rest
    && Acc(buffered, r) == Fold(m.combine, Acc(buffered, s), slices)
    && r.state.output == (if sent then s.state.output + [Acc(buffered, r)] else s.state.output)
    && r.state.stored == s.state.stored && r.state.stuck == s.state.stuck
    && (buffered ==> r.carried == s.carried)
  }

  lemma CounterReads(sizes: seq<nat>, env: seq<nat>, t: seq<nat>, k: nat)
    requires AllPositive(sizes) && InRange(t, sizes) && k < |sizes|
    ensures CounterIs(CountersFrom(|env|, |sizes|)[k], LastOf(sizes)[k], env + t) <==> t[k] == LastOf(sizes)[k]
  {
    assert (env + t)[|env| + k] == t[k];
  }

  lemma AllEqualMeansLast(sizes: seq<nat>, env: seq<nat>, t: seq<nat>)
    requires AllPositive(sizes) && InRange(t, sizes)
    requires AllEqual(CountersFrom(|env|, |sizes|), LastOf(sizes), env + t)
    ensures t == LastOf(sizes)
  {
    var last := LastOf(sizes);
    forall k | 0 <= k < |sizes| ensures t[k] == last[k] {
      assert CounterIs(CountersFrom(|env|, |sizes|)[k], last[k], env + t);
      CounterReads(sizes, env, t, k);
    }
  }

  lemma LastIsAllEqual(sizes: seq<nat>, env: seq<nat>)
    requires AllPositive(sizes)
    ensures AllEqual(CountersFrom(|env|, |sizes|), LastOf(sizes), env + LastOf(sizes))
  {
    forall k | 0 <= k < |sizes| ensures CounterIs(CountersFrom(|env|, |sizes|)[k], LastOf(sizes)[k], env + LastOf(sizes)) {
      CounterReads(sizes, env, LastOf(sizes), k);
    }
  }

  /** The counters of the nest are at the last tuple exactly when the tuple is the last. */
  lemma AllEqualIsLast(sizes: seq<nat>, env: seq<nat>, t: seq<nat>)
    requires AllPositive(sizes) && InRange(t, sizes)
    ensures AllEqual(CountersFrom(|env|, |sizes|), LastOf(sizes), env + t) <==> t == LastOf(sizes)
  {
    LastIsAllEqual(sizes, env);
    if t != LastOf(sizes) && AllEqual(CountersFrom(|env|, |sizes|), LastOf(sizes), env + t) {
      AllEqualMeansLast(sizes, env, t);
    }
  }

  lemma FoldOne<T>(combine: (T, T) -> T, start: T, x: T)
    ensures Fold(combine, start, [x]) == combine(start, x)
  {
    assert [x][1..] == [];
  }

  lemma ComputeOnce<T>(m: Meaning<T>, buffered: bool, sizes: seq<nat>, env: seq<nat>, t: seq<nat>, s: Outcome<T>)
    requires AllPositive(sizes) && InRange(t, sizes) && s.state.input != []
    ensures Folded(m, buffered, s, [s.state.input[0]], s.state.input[1..], t == LastOf(sizes),
      Exec(m, ComputeBody(buffered, CountersFrom(|env|, |sizes|), sizes), env + t, s))
  {
    var counters := CountersFrom(|env|, |sizes|);
    var body := ComputeBody(buffered, counters, sizes);
    AllEqualIsLast(sizes, env, t);
    var first := Step(m, Receive, env + t, s);
    var second := Step(m, if buffered then CombineInto else Combine, env + t, first);
    assert body[1..][1..] == [OnlyLast(counters, sizes, if buffered then SendBuffer else Send)];
    ComputeSends(m, buffered, sizes, env, t, second);
    assert Exec(m, body, env + t, s) == Exec(m, body[1..], env + t, first);
    assert Exec(m, body[1..], env + t, first) == Exec(m, body[1..][1..], env + t, second);
    FoldOne(m.combine, Acc(buffered, s), s.state.input[0]);
  }

  lemma ComputeSends<T>(m: Meaning<T>, buffered: bool, sizes: seq<nat>, env: seq<nat>, t: seq<nat>, s: Outcome<T>)
    requires AllPositive(sizes) && InRange(t, sizes)
    ensures Exec(m, [OnlyLast(CountersFrom(|env|, |sizes|), sizes, if buffered then SendBuffer else Send)], env + t, s)
      == if t == LastOf(sizes) then s.(state := s.state.(output := s.state.output + [Acc(buffered, s)])) else s
  {
    AllEqualIsLast(sizes, env, t);
    var op := if buffered then SendBuffer else Send;
    var guarded := [OnlyLast(CountersFrom(|env|, |sizes|), sizes, op)];
    assert Exec(m, [Do(op)], env + t, s) == Step(m, op, env + t, s) by {
      assert [Do(op)][1..] == [];
    }
    assert guarded[1..] == [];
    assert guarded[0] == If(CountersFrom(|env|, |sizes|), LastOf(sizes), [Do(op)]);
  }

  /** As long as the last tuple does not come, slices are folded in and nothing is sent. */
  lemma {:induction false} ComputeRunsQuietly<T>(m: Meaning<T>, buffered: bool, sizes: seq<nat>, env: seq<nat>, ts: seq<seq<nat>>, s: Outcome<T>)
    requires AllPositive(sizes) && |ts| <= |s.state.input|
    requires forall k :: 0 <= k < |ts| ==> InRange(ts[k], sizes) && ts[k] != LastOf(sizes)
    ensures Folded(m, buffered, s, s.state.input[..|ts|], s.state.input[|ts|..], false,
      RunAll(m, ComputeBody(buffered, CountersFrom(|env|, |sizes|), sizes), env, ts, s))
  {
    if ts != [] {
      var body := ComputeBody(buffered, CountersFrom(|env|, |sizes|), sizes);
      var after := Exec(m, body, env + ts[0], s);
      ComputeOnce(m, buffered, sizes, env, ts[0], s);
      FoldOne(m.combine, Acc(buffered, s), s.state.input[0]);
      ComputeRunsQuietly(m, buffered, sizes, env, ts[1..], after);
      assert s.state.input[..|ts|][0] == s.state.input[0];
      assert s.state.input[..|ts|][1..] == s.state.input[1..][..|ts| - 1];
      assert s.state.input[|ts|..] == s.state.input[1..][|ts| - 1..];
    }
  }

  /** Over all tuples the slices are folded in order, and the result is sent once. */
  lemma ComputeRunsAll<T>(m: Meaning<T>, buffered: bool, sizes: seq<nat>, env: seq<nat>, s: Outcome<T>)
    requires AllPositive(sizes) && |Tuples(sizes)| <= |s.state.input|
    ensures Folded(m, buffered, s, s.state.input[..|Tuples(sizes)|], s.state.input[|Tuples(sizes)|..], true,
      RunAll(m, ComputeBody(buffered, CountersFrom(|env|, |sizes|), sizes), env, Tuples(sizes), s))
  {
    var ts := Tuples(sizes);
    var body := ComputeBody(buffered, CountersFrom(|env|, |sizes|), sizes);
    OnlyTheLastIsLast(sizes, 0);
    var n := |ts| - 1;
    OnlyTheLastIsLast(sizes, n);
    assert ts == ts[..n] + [ts[n]];
    forall k | 0 <= k < |ts| ensures InRange(ts[k], sizes) && (k < n ==> ts[k] != LastOf(sizes)) {
      TuplesInRange(sizes, ts[k]);
      OnlyTheLastIsLast(sizes, k);
    }
    RunAllJoin(m, body, env, ts[..n], [ts[n]], s);
    ComputeRunsQuietly(m, buffered, sizes, env, ts[..n], s);
    var almost := RunAll(m, body, env, ts[..n], s);
    ComputeOnce(m, buffered, sizes, env, ts[n], almost);
    FoldOne(m.combine, Acc(buffered, almost), almost.state.input[0]);
    assert RunAll(m, body, env, [ts[n]], almost) == Exec(m, body, env + ts[n], almost);
    assert s.state.input[..n + 1] == s.state.input[..n] + [s.state.input[n]];
    assert s.state.input[n..][0] == s.state.input[n] && s.state.input[n..][1..] == s.state.input[n + 1..];
    FoldLast(m.combine, Acc(buffered, s), s.state.input[..n], s.state.input[n]);
  }

  // ---------------------------------------------------------------------------------------------
  // The conditional store stage, and all stages together
  // ---------------------------------------------------------------------------------------------

  lemma {:induction false} EachUncarried(body: seq<Stmt>)
    requires forall j :: 0 <= j < |body| ==> Uncarried([body[j]])
    ensures Uncarried(body)
  {
    if body != [] {
      assert Uncarried([body[0]]);
      EachUncarried(body[1..]);
    }
  }

  lemma {:induction false} ExecJoin<T>(m: Meaning<T>, a: seq<Stmt>, b: seq<Stmt>, env: seq<nat>, s: Outcome<T>)
    ensures Exec(m, a + b, env, s) == Exec(m, b, env, Exec(m, a, env, s))
    decreases |a|
  {
    if a == [] {
      assert a + b == b;
    } else {
      assert (a + b)[0] == a[0] && (a + b)[1..] == a[1..] + b;
      ExecHead(m, a, env, s);
      ExecHead(m, a + b, env, s);
      ExecJoin(m, a[1..], b, env, Exec(m, [a[0]], env, s));
    }
  }

  /** The operations without the one in place `k`. */
  function WithoutAt(ops: seq<Op>, k: nat): seq<Op>
    requires k < |ops|
  {
    ops[..k] + ops[k + 1..]
  }

  /** In the last iteration the guarded body runs all operations in order, in any other it leaves out the one in place `k`. */
  lemma GuardedRuns<T>(m: Meaning<T>, ops: seq<Op>, k: nat, sizes: seq<nat>, env: seq<nat>, t: seq<nat>, s: Outcome<T>)
    requires k < |ops| && AllPositive(sizes) && InRange(t, sizes)
    ensures Exec(m, GuardedAt(ops, k, CountersFrom(|env|, |sizes|), sizes), env + t, s)
      == Exec(m, Straight(if t == LastOf(sizes) then ops else WithoutAt(ops, k)), env + t, s)
  {
    var guarded := OnlyLast(CountersFrom(|env|, |sizes|), sizes, ops[k]);
    ExecReplaced(m, ops, k, guarded, env + t, s);
    AllEqualIsLast(sizes, env, t);
    var mid := Exec(m, Straight(ops[..k]), env + t, s);
    assert [guarded][1..] == [] && guarded == If(CountersFrom(|env|, |sizes|), LastOf(sizes), [Do(ops[k])]);
    if t == LastOf(sizes) {
      ExecReplaced(m, ops, k, Do(ops[k]), env + t, s);
      assert Straight(ops)[k := Do(ops[k])] == Straight(ops);
    } else {
      assert Straight(WithoutAt(ops, k)) == Straight(ops[..k]) + Straight(ops[k + 1..]);
      ExecJoin(m, Straight(ops[..k]), Straight(ops[k + 1..]), env + t, s);
    }
  }

  lemma ExecReplaced<T>(m: Meaning<T>, ops: seq<Op>, k: nat, stmt: Stmt, env: seq<nat>, s: Outcome<T>)
    requires k < |ops|
    ensures Exec(m, Straight(ops)[k := stmt], env, s)
      == Exec(m, Straight(ops[k + 1..]), env, Exec(m, [stmt], env, Exec(m, Straight(ops[..k]), env, s)))
  {
    var before, after := Straight(ops[..k]), Straight(ops[k + 1..]);
    assert Straight(ops)[k := stmt] == before + ([stmt] + after);
    ExecJoin(m, before, [stmt] + after, env, s);
    ExecJoin(m, [stmt], after, env, Exec(m, before, env, s));
  }

  lemma {:induction false} GuardedRunsAll<T>(m: Meaning<T>, ops: seq<Op>, k: nat, sizes: seq<nat>, env: seq<nat>, ts: seq<seq<nat>>, s: Outcome<T>)
    requires k < |ops| && AllPositive(sizes)
    requires forall j :: 0 <= j < |ts| ==> InRange(ts[j], sizes) && ts[j] != LastOf(sizes)
    ensures RunAll(m, GuardedAt(ops, k, CountersFrom(|env|, |sizes|), sizes), env, ts, s) == RunAll(m, Straight(WithoutAt(ops, k)), env, ts, s)
  {
    if ts != [] {
      GuardedRuns(m, ops, k, sizes, env, ts[0], s);
      GuardedRunsAll(m, ops, k, sizes, env, ts[1..], Exec(m, Straight(WithoutAt(ops, k)), env + ts[0], s));
    }
  }

  /**
   * Whatever else the stage does: all iterations but the last run it without the guarded operation, and the
   * last one runs all of it in order.
   */
  lemma ConditionalStageRuns<T>(m: Meaning<T>, ops: seq<Op>, k: nat, sizes: seq<nat>, env: seq<nat>, s: Outcome<T>)
    returns (init: seq<seq<nat>>)
    requires k < |ops| && AllPositive(sizes) && forall j :: 0 <= j < |ops| ==> ops[j] != Combine && ops[j] != Send
    ensures Tuples(sizes) == init + [LastOf(sizes)]
    ensures Exec(m, Nest(sizes, Nothing, GuardedAt(ops, k, CountersFrom(|env|, |sizes|), sizes)), env, s)
      == Exec(m, Straight(ops), env + LastOf(sizes), RunAll(m, Straight(WithoutAt(ops, k)), env, init, s))
  {
    var body, last := GuardedAt(ops, k, CountersFrom(|env|, |sizes|), sizes), LastOf(sizes);
    init := TuplesEnd(sizes);
    UncarriedGuarded(ops, k, CountersFrom(|env|, |sizes|), sizes);
    NestRuns(m, sizes, Nothing, body, env, s);
    RunAllJoin(m, body, env, init, [last], s);
    GuardedRunsAll(m, ops, k, sizes, env, init, s);
    var almost := RunAll(m, body, env, init, s);
    GuardedRuns(m, ops, k, sizes, env, last, almost);
    assert RunAll(m, body, env, [last], almost) == Exec(m, body, env + last, almost);
  }

  lemma UncarriedGuarded(ops: seq<Op>, k: nat, counters: seq<nat>, sizes: seq<nat>)
    requires k < |ops| && AllPositive(sizes) && forall j :: 0 <= j < |ops| ==> ops[j] != Combine && ops[j] != Send
    ensures Uncarried(GuardedAt(ops, k, counters, sizes))
  {
    var body := GuardedAt(ops, k, counters, sizes);
    forall j | 0 <= j < |body| ensures Uncarried([body[j]]) {
      assert [Do(ops[j])][1..] == [] && Uncarried([Do(ops[j])]);
      assert [body[j]][1..] == [];
    }
    EachUncarried(body);
  }

  /** What a store does: it takes the next tensor, if there is one. */
  function Stored<T>(s: Outcome<T>): Outcome<T> {
    if s.state.input == [] then s.(state := s.state.(stuck := true))
    else s.(state := s.state.(stored := s.state.stored + [s.state.input[0]], input := s.state.input[1..]))
  }

  lemma StoreOnce<T>(m: Meaning<T>, ops: seq<Op>, k: nat, sizes: seq<nat>, env: seq<nat>, t: seq<nat>, s: Outcome<T>)
    requires OnlyAt(ops, k) && ops[k] == Store && AllPositive(sizes) && InRange(t, sizes)
    ensures Exec(m, GuardedAt(ops, k, CountersFrom(|env|, |sizes|), sizes), env + t, s)
      == if t == LastOf(sizes) then Stored(s) else s
  {
    var guarded := OnlyLast(CountersFrom(|env|, |sizes|), sizes, Store);
    AllEqualIsLast(sizes, env, t);
    OnlyAtRuns(m, ops, k, guarded, env + t, s);
    assert Exec(m, [Do(Store)], env + t, s) == Step(m, Store, env + t, s) by {
      assert [Do(Store)][1..] == [];
    }
    assert [guarded][1..] == [];
    assert [guarded][0] == If(CountersFrom(|env|, |sizes|), LastOf(sizes), [Do(Store)]);
  }

  lemma {:induction false} StoreRunsQuietly<T>(m: Meaning<T>, ops: seq<Op>, k: nat, sizes: seq<nat>, env: seq<nat>, ts: seq<seq<nat>>, s: Outcome<T>)
    requires OnlyAt(ops, k) && ops[k] == Store && AllPositive(sizes)
    requires forall j :: 0 <= j < |ts| ==> InRange(ts[j], sizes) && ts[j] != LastOf(sizes)
    ensures RunAll(m, GuardedAt(ops, k, CountersFrom(|env|, |sizes|), sizes), env, ts, s) == s
  {
    if ts != [] {
      StoreOnce(m, ops, k, sizes, env, ts[0], s);
      StoreRunsQuietly(m, ops, k, sizes, env, ts[1..], s);
    }
  }

  /** All tuples but the last come first. */
  lemma TuplesEnd(sizes: seq<nat>) returns (init: seq<seq<nat>>)
    requires AllPositive(sizes)
    ensures Tuples(sizes) == init + [LastOf(sizes)] && InRange(LastOf(sizes), sizes)
    ensures forall k :: 0 <= k < |init| ==> InRange(init[k], sizes) && init[k] != LastOf(sizes)
  {
    var ts := Tuples(sizes);
    OnlyTheLastIsLast(sizes, 0);
    var n := |ts| - 1;
    OnlyTheLastIsLast(sizes, n);
    init := ts[..n];
    forall k | 0 <= k < |ts| ensures InRange(ts[k], sizes) && (k < n ==> ts[k] != LastOf(sizes)) {
      TuplesInRange(sizes, ts[k]);
      OnlyTheLastIsLast(sizes, k);
    }
  }

  /** The rewritten store stage stores exactly once. */
  lemma StoreStageStoresOnce<T>(m: Meaning<T>, ops: seq<Op>, k: nat, sizes: seq<nat>, env: seq<nat>, s: Outcome<T>)
    requires OnlyAt(ops, k) && ops[k] == Store && AllPositive(sizes)
    ensures Exec(m, Nest(sizes, Nothing, GuardedAt(ops, k, CountersFrom(|env|, |sizes|), sizes)), env, s) == Stored(s)
  {
    var body := GuardedAt(ops, k, CountersFrom(|env|, |sizes|), sizes);
    var last := LastOf(sizes);
    UncarriedGuarded(ops, k, CountersFrom(|env|, |sizes|), sizes);
    NestRuns(m, sizes, Nothing, body, env, s);
    var init := TuplesEnd(sizes);
    RunAllJoin(m, body, env, init, [last], s);
    StoreRunsQuietly(m, ops, k, sizes, env, init, s);
    StoreOnce(m, ops, k, sizes, env, last, s);
    assert RunAll(m, body, env, [last], s) == Exec(m, body, env + last, s);
  }

  /** The compute stage as exposed, or once its accumulator is a buffer. */
  function ComputeStage(buffered: bool, level: nat, sizes: seq<nat>): seq<Stmt>
    requires sizes != [] && AllPositive(sizes)
  {
    var body := ComputeBody(buffered, CountersFrom(level, |sizes|), sizes);
    if buffered then [Do(Fill)] + Nest(sizes, Nothing, body) else CarryingNest(sizes, body)
  }

  lemma ComputeBodyIsUncarried(counters: seq<nat>, sizes: seq<nat>)
    requires AllPositive(sizes)
    ensures Uncarried(ComputeBody(true, counters, sizes))
  {
    var body := ComputeBody(true, counters, sizes);
    assert Uncarried([Do(SendBuffer)]);
    forall j | 0 <= j < |body| ensures Uncarried([body[j]]) {
    }
    EachUncarried(body);
  }

  /** The slices have been folded in order, and the result sent exactly once. */
  ghost predicate Computed<T>(m: Meaning<T>, start: T, n: nat, s: Outcome<T>, r: Outcome<T>)
    requires n <= |s.state.input|
  {
    && r.state.output == s.state.output + [Fold(m.combine, start, s.state.input[..n])]
    && r.state.input == s.state.input[n..]
    && r.state.stored == s.state.stored && r.state.stuck == s.state.stuck && r.carried == s.carried
  }

  lemma BufferStageFolds<T>(m: Meaning<T>, sizes: seq<nat>, env: seq<nat>, s: Outcome<T>)
    requires sizes != [] && AllPositive(sizes) && |Tuples(sizes)| <= |s.state.input|
    ensures Computed(m, m.zero, |Tuples(sizes)|, s, Exec(m, ComputeStage(true, |env|, sizes), env, s))
  {
    var body := ComputeBody(true, CountersFrom(|env|, |sizes|), sizes);
    var filled := Step(m, Fill, env, s);
    ComputeBodyIsUncarried(CountersFrom(|env|, |sizes|), sizes);
    NestRuns(m, sizes, Nothing, body, env, filled);
    ComputeRunsAll(m, true, sizes, env, filled);
    assert ComputeStage(true, |env|, sizes)[1..] == Nest(sizes, Nothing, body);
  }

  lemma CarryingStageFolds<T>(m: Meaning<T>, sizes: seq<nat>, env: seq<nat>, s: Outcome<T>)
    requires sizes != [] && AllPositive(sizes) && |Tuples(sizes)| <= |s.state.input|
    ensures Computed(m, m.empty, |Tuples(sizes)|, s, Exec(m, ComputeStage(false, |env|, sizes), env, s))
  {
    CarryingNestRuns(m, sizes, ComputeBody(false, CountersFrom(|env|, |sizes|), sizes), env, s);
    ComputeRunsAll(m, false, sizes, env, s.(carried := m.empty));
  }

  /** It takes one slice per index tuple, folds them in order, and sends the result exactly once. */
  lemma ComputeStageFolds<T>(m: Meaning<T>, buffered: bool, sizes: seq<nat>, env: seq<nat>, s: Outcome<T>)
    requires sizes != [] && AllPositive(sizes) && |Tuples(sizes)| <= |s.state.input|
    ensures Computed(m, if buffered then m.zero else m.empty, |Tuples(sizes)|, s,
      Exec(m, ComputeStage(buffered, |env|, sizes), env, s))
  {
    if buffered {
      BufferStageFolds(m, sizes, env, s);
    } else {
      CarryingStageFolds(m, sizes, env, s);
    }
  }

  /** A stage starts with what came through its FIFO. */
  function Fed<T>(input: seq<T>, any: T): Outcome<T> {
    Outcome(State(input, [], any, any, [], false), any)
  }

  lemma FedLoad<T>(m: Meaning<T>, sizes: seq<nat>, loads: seq<Op>, lk: nat, any: T)
    requires OnlyAt(loads, lk) && loads[lk].Load?
    ensures Exec(m, Nest(sizes, Nothing, Straight(loads)), [], Fed([], any)).state.output == Slices(m, loads[lk], [], Tuples(sizes))
  {
    LoadStagePushes(m, loads, lk, sizes, [], Fed([], any));
  }

  lemma FedCompute<T>(m: Meaning<T>, buffered: bool, sizes: seq<nat>, slices: seq<T>, any: T)
    requires sizes != [] && AllPositive(sizes) && |slices| == |Tuples(sizes)|
    ensures var r := Exec(m, ComputeStage(buffered, 0, sizes), [], Fed(slices, any));
      && r.state.output == [Fold(m.combine, if buffered then m.zero else m.empty, slices)]
      && r.state.input == [] && !r.state.stuck
  {
    ComputeStageFolds(m, buffered, sizes, [], Fed(slices, any));
    assert slices[..|Tuples(sizes)|] == slices && slices[|Tuples(sizes)|..] == [];
  }

  lemma FedStore<T>(m: Meaning<T>, sizes: seq<nat>, stores: seq<Op>, sk: nat, x: T, any: T)
    requires AllPositive(sizes) && OnlyAt(stores, sk) && stores[sk] == Store
    ensures var r := Exec(m, Nest(sizes, Nothing, GuardedAt(stores, sk, CountersFrom(0, |sizes|), sizes)), [], Fed([x], any));
      r.state.stored == [x] && r.state.input == [] && !r.state.stuck
  {
    StoreStageStoresOnce(m, stores, sk, sizes, [], Fed([x], any));
  }

  /**
   * The exposed pipeline: every slice that is pushed is taken, none is missing, and exactly one result
   * is stored, the fold of the slices in lexicographic order.
   */
  lemma ExposedPipelineStoresFold<T>(m: Meaning<T>, buffered: bool, sizes: seq<nat>, loads: seq<Op>, lk: nat, stores: seq<Op>, sk: nat, any: T)
    requires sizes != [] && AllPositive(sizes)
    requires OnlyAt(loads, lk) && loads[lk].Load? && OnlyAt(stores, sk) && stores[sk] == Store
    ensures var load := Exec(m, Nest(sizes, Nothing, Straight(loads)), [], Fed([], any));
      var compute := Exec(m, ComputeStage(buffered, 0, sizes), [], Fed(load.state.output, any));
      var store := Exec(m, Nest(sizes, Nothing, GuardedAt(stores, sk, CountersFrom(0, |sizes|), sizes)), [], Fed(compute.state.output, any));
      && |load.state.output| == Product(sizes)
      && compute.state.input == [] && !compute.state.stuck
      && store.state.input == [] && !store.state.stuck
      && store.state.stored == [Fold(m.combine, if buffered then m.zero else m.empty, Slices(m, loads[lk], [], Tuples(sizes)))]
  {
    var slices := Slices(m, loads[lk], [], Tuples(sizes));
    FedLoad(m, sizes, loads, lk, any);
    CountTuples(sizes);
    FedCompute(m, buffered, sizes, slices, any);
    FedStore(m, sizes, stores, sk, Fold(m.combine, if buffered then m.zero else m.empty, slices), any);
  }
}
