/**
 * The accumulator that the reduction loops carry becomes a buffer that is filled with zero once: the
 * generic operation and what sends its result use the buffer, and the loops stop carrying, from the
 * innermost one outwards to the one that started the accumulator.
 */
module MapReductionPartials {
  import opened Arithmetic
  import opened LoopNests
  import opened ReductionLoopExposure
  import opened ReductionRuns

  datatype Level = Level(trip: nat, carry: Carry)

  function LevelNest(levels: seq<Level>, body: seq<Stmt>): seq<Stmt> {
    if levels == [] then body else [For(levels[0].trip, levels[0].carry, LevelNest(levels[1..], body))]
  }

  /** A loop that takes the accumulator from its surroundings has a carrying loop directly around it. */
  predicate ProperChain(levels: seq<Level>) {
    && levels != [] && levels[|levels| - 1].carry != Nothing
    && forall d :: 0 <= d < |levels| && levels[d].carry == FromOuter ==> d > 0 && levels[d - 1].carry != Nothing
  }

  /** `head` starts the accumulator, and every loop inside it takes it from the one around. */
  predicate ChainHead(levels: seq<Level>, head: nat) {
    && head < |levels| && levels[head].carry == FromEmpty
    && forall d :: head < d < |levels| ==> levels[d].carry == FromOuter
  }

  /** From the innermost loop outwards: each gives up the accumulator, until one did not get it from outside. */
  method RemoveUnusedIterArgChain(levels: seq<Level>) returns (r: seq<Level>, head: nat)
    requires ProperChain(levels)
    ensures ChainHead(levels, head) && |r| == |levels| && r[..head] == levels[..head]
    ensures forall d :: head <= d < |r| ==> r[d] == Level(levels[d].trip, Nothing)
  {
    r := levels;
    head := |levels| - 1;
    var init := levels[head].carry;
    r := r[head := Level(levels[head].trip, Nothing)];
    while init == FromOuter
      invariant head < |levels| && |r| == |levels| && init == levels[head].carry && init != Nothing
      invariant forall d :: head < d < |levels| ==> levels[d].carry == FromOuter
      invariant forall d :: 0 <= d < |r| ==> r[d] == if d < head then levels[d] else Level(levels[d].trip, Nothing)
      decreases head
    {
      head := head - 1;
      init := levels[head].carry;
      r := r[head := Level(levels[head].trip, Nothing)];
    }
  }

  /** The body with the buffer in place of what is carried. */
  function Buffered(body: seq<Stmt>): (r: seq<Stmt>) {
    if body == [] then []
    else
      [match body[0]
        case Do(op) => Do(if op == Combine then CombineInto else if op == Send then SendBuffer else op)
        case If(counters, values, inner) => If(counters, values, Buffered(inner))
        case For(trip, carry, inner) => For(trip, if carry == FromOuter then Nothing else carry, Buffered(inner))]
      + Buffered(body[1..])
  }

  /** The stage starts with a buffer of zeros, and its loops no longer carry the accumulator. */
  method RewriteGeneric(levels: seq<Level>, body: seq<Stmt>) returns (stage: seq<Stmt>, ghost head: nat)
    requires ProperChain(levels)
    ensures ChainHead(levels, head)
    ensures stage == [Do(Fill)] + LevelNest(levels[..head] + Freed(levels[head..]), Buffered(body))
  {
    var freed, h := RemoveUnusedIterArgChain(levels);
    head := h;
    FreedAll(levels[h..], freed[h..]);
    assert freed == freed[..h] + freed[h..];
    stage := [Do(Fill)] + LevelNest(freed, Buffered(body));
  }

  function Freed(levels: seq<Level>): (r: seq<Level>)
    ensures |r| == |levels|
  {
    if levels == [] then [] else [Level(levels[0].trip, Nothing)] + Freed(levels[1..])
  }

  lemma {:induction false} FreedAll(levels: seq<Level>, r: seq<Level>)
    requires |r| == |levels| && forall d :: 0 <= d < |r| ==> r[d] == Level(levels[d].trip, Nothing)
    ensures r == Freed(levels)
  {
    if levels != [] {
      FreedAll(levels[1..], r[1..]);
      assert r == [r[0]] + r[1..];
    }
  }

  // ---------------------------------------------------------------------------------------------
  // The buffer runs along with what is carried
  // ---------------------------------------------------------------------------------------------

  /** The body works on the carried accumulator only, and other loops in it leave that alone. */
  predicate Chained(body: seq<Stmt>) {
    body == [] || (Chained(body[1..]) && match body[0]
      case Do(op) => op != Fill && op != CombineInto && op != SendBuffer
      case If(_, _, inner) => Chained(inner)
      case For(_, carry, inner) => Chained(inner) && (carry == FromOuter || (carry == Nothing && Uncarried(inner))))
  }

  /** The same but for the buffer, which holds what the other carries. */
  ghost predicate Along<T>(s: Outcome<T>, b: Outcome<T>) {
    && b.state.input == s.state.input && b.state.output == s.state.output && b.state.slice == s.state.slice
    && b.state.stored == s.state.stored && b.state.stuck == s.state.stuck && b.state.buffer == s.carried
  }

  lemma {:induction false} BufferedRunsAlong<T>(m: Meaning<T>, body: seq<Stmt>, env: seq<nat>, s: Outcome<T>, b: Outcome<T>)
    requires Chained(body) && Along(s, b)
    ensures Along(Exec(m, body, env, s), Exec(m, Buffered(body), env, b))
    decreases body, 0
  {
    if body != [] {
      var head := Buffered(body)[0];
      assert Buffered(body)[1..] == Buffered(body[1..]);
      match body[0]
      case Do(op) =>
        var op' := if op == Combine then CombineInto else if op == Send then SendBuffer else op;
        BufferedRunsAlong(m, body[1..], env, Step(m, op, env, s), Step(m, op', env, b));
      case If(counters, values, inner) =>
        BufferedRunsAlong(m, inner, env, s, b);
        var yes := AllEqual(counters, values, env);
        BufferedRunsAlong(m, body[1..], env,
          if yes then Exec(m, inner, env, s) else s, if yes then Exec(m, Buffered(inner), env, b) else b);
      case For(trip, carry, inner) =>
        var s1 := s.(carried := CarriedIn(m, carry, s.carried));
        var b1 := b.(carried := CarriedIn(m, Nothing, b.carried));
        assert s1 == s && b1 == b;
        LoopRunsAlong(m, carry, inner, env, s, b, 0, trip);
        BufferedRunsAlong(m, body[1..], env,
          CarriedOut(carry, s.carried, Loop(m, carry, inner, env, s1, 0, trip)),
          CarriedOut(Nothing, b.carried, Loop(m, Nothing, Buffered(inner), env, b1, 0, trip)));
    }
  }

  lemma {:induction false} LoopRunsAlong<T>(m: Meaning<T>, carry: Carry, inner: seq<Stmt>, env: seq<nat>,
      s: Outcome<T>, b: Outcome<T>, i: nat, trip: nat)
    requires Chained(inner) && (carry == FromOuter || (carry == Nothing && Uncarried(inner))) && Along(s, b)
    ensures Along(Loop(m, carry, inner, env, s, i, trip), Loop(m, Nothing, Buffered(inner), env, b, i, trip))
    ensures carry == Nothing ==> Loop(m, carry, inner, env, s, i, trip).carried == s.carried
    decreases inner, if i <= trip then trip - i + 1 else 0
  {
    if i < trip {
      BufferedRunsAlong(m, inner, env + [i], s, b);
      var s1 := Exec(m, inner, env + [i], s);
      var b1 := Exec(m, Buffered(inner), env + [i], b);
      if carry == Nothing {
        UncarriedKeeps(m, inner, env + [i], s);
      }
      LoopRunsAlong(m, carry, inner, env,
        if carry == Nothing then s1.(carried := s.carried) else s1, b1.(carried := b.carried), i + 1, trip);
    }
  }

  ghost predicate AllFromOuter(levels: seq<Level>) {
    forall d :: 0 <= d < |levels| ==> levels[d].carry == FromOuter
  }

  lemma {:induction false} ChainIsChained(levels: seq<Level>, body: seq<Stmt>)
    requires AllFromOuter(levels) && Chained(body)
    ensures Chained(LevelNest(levels, body))
    ensures Buffered(LevelNest(levels, body)) == LevelNest(Freed(levels), Buffered(body))
  {
    if levels != [] {
      ChainIsChained(levels[1..], body);
      assert Chained(LevelNest(levels, body)[1..]);
      assert Buffered(LevelNest(levels, body)[1..]) == [];
    }
  }

  /** Everything but the buffer and what is carried. */
  ghost predicate SameSeen<T>(s: Outcome<T>, r: Outcome<T>) {
    && s.state.input == r.state.input && s.state.output == r.state.output && s.state.slice == r.state.slice
    && s.state.stored == r.state.stored && s.state.stuck == r.state.stuck
  }

  /**
   * When the outermost loop started the accumulator, at zero, the stage with the buffer does what it did,
   * whatever the innermost body is and however many loops there are.
   */
  lemma BufferKeepsStage<T>(m: Meaning<T>, levels: seq<Level>, body: seq<Stmt>, env: seq<nat>, s: Outcome<T>)
    requires ChainHead(levels, 0) && Chained(body) && m.empty == m.zero
    ensures SameSeen(Exec(m, LevelNest(levels, body), env, s),
      Exec(m, [Do(Fill)] + LevelNest(Freed(levels), Buffered(body)), env, s))
  {
    var inner := LevelNest(levels[1..], body);
    var trip := levels[0].trip;
    ChainIsChained(levels[1..], body);
    var started := s.(carried := m.empty);
    var filled := Step(m, Fill, env, s);
    LoopRunsAlong(m, FromOuter, inner, env, started, filled, 0, trip);
    LoopCarriesAlike(m, inner, env, started, 0, trip);
    assert LevelNest(levels, body) == [For(trip, FromEmpty, inner)];
    assert Freed(levels) == [Level(trip, Nothing)] + Freed(levels[1..]);
    assert Freed(levels)[1..] == Freed(levels[1..]);
    assert LevelNest(Freed(levels), Buffered(body)) == [For(trip, Nothing, Buffered(inner))];
    RunsOne(m, trip, FromEmpty, inner, env, s);
    RunsOne(m, trip, Nothing, Buffered(inner), env, filled);
    assert ([Do(Fill)] + LevelNest(Freed(levels), Buffered(body)))[1..] == LevelNest(Freed(levels), Buffered(body));
  }

  lemma RunsOne<T>(m: Meaning<T>, trip: nat, carry: Carry, inner: seq<Stmt>, env: seq<nat>, s: Outcome<T>)
    ensures Exec(m, [For(trip, carry, inner)], env, s)
      == CarriedOut(carry, s.carried, Loop(m, carry, inner, env, s.(carried := CarriedIn(m, carry, s.carried)), 0, trip))
  {
    assert [For(trip, carry, inner)][1..] == [];
  }

  /** The levels of the exposed compute stage. */
  function ExposedLevels(sizes: seq<nat>, carry: Carry): (r: seq<Level>)
    ensures |r| == |sizes|
  {
    if sizes == [] then [] else [Level(sizes[0], carry)] + ExposedLevels(sizes[1..], FromOuter)
  }

  lemma {:induction false} ExposedChain(sizes: seq<nat>, carry: Carry)
    ensures forall d :: 0 <= d < |sizes| ==> ExposedLevels(sizes, carry)[d].carry == if d == 0 then carry else FromOuter
  {
    if sizes != [] {
      ExposedChain(sizes[1..], FromOuter);
    }
  }

  lemma {:induction false} FreedIsPlain(sizes: seq<nat>, carry: Carry, body: seq<Stmt>)
    ensures LevelNest(Freed(ExposedLevels(sizes, carry)), body) == Nest(sizes, Nothing, body)
  {
    if sizes != [] {
      FreedIsPlain(sizes[1..], FromOuter, body);
    }
  }

  lemma {:induction false} LevelsOfNest(sizes: seq<nat>, body: seq<Stmt>)
    ensures LevelNest(ExposedLevels(sizes, FromOuter), body) == Nest(sizes, FromOuter, body)
  {
    if sizes != [] {
      LevelsOfNest(sizes[1..], body);
    }
  }

  /** The exposed reduction inside loops that carry nothing, and what the pass makes of it. */
  function Surrounded(outer: seq<nat>, sizes: seq<nat>): seq<Stmt>
    requires sizes != [] && AllPositive(sizes)
  {
    Nest(outer, Nothing, ComputeStage(false, |outer|, sizes))
  }

  function SurroundedBuffered(outer: seq<nat>, sizes: seq<nat>): seq<Stmt>
    requires sizes != [] && AllPositive(sizes)
  {
    [Do(Fill)] + Nest(outer, Nothing, Nest(sizes, Nothing, ComputeBody(true, CountersFrom(|outer|, |sizes|), sizes)))
  }

  function PlainLevels(sizes: seq<nat>): (r: seq<Level>)
    ensures |r| == |sizes| && forall d :: 0 <= d < |r| ==> r[d] == Level(sizes[d], Nothing)
  {
    seq(|sizes|, d requires 0 <= d < |sizes| => Level(sizes[d], Nothing))
  }

  lemma {:induction false} PlainNest(sizes: seq<nat>, inner: seq<Level>, body: seq<Stmt>)
    ensures LevelNest(PlainLevels(sizes) + inner, body) == Nest(sizes, Nothing, LevelNest(inner, body))
  {
    var levels := PlainLevels(sizes) + inner;
    if sizes == [] {
      assert levels == inner;
    } else {
      PlainNest(sizes[1..], inner, body);
      assert levels[1..] == PlainLevels(sizes[1..]) + inner;
      assert levels[0] == Level(sizes[0], Nothing);
    }
  }

  /**
   * The buffer is filled before all loops. Without loops around, that makes an exposed compute stage the
   * stage whose fold starts at zero.
   */
  method RewriteSurrounded(outer: seq<nat>, sizes: seq<nat>) returns (stage: seq<Stmt>)
    requires sizes != [] && AllPositive(sizes)
    ensures LevelNest(PlainLevels(outer) + ExposedLevels(sizes, FromEmpty), ComputeBody(false, CountersFrom(|outer|, |sizes|), sizes))
      == Surrounded(outer, sizes)
    ensures stage == SurroundedBuffered(outer, sizes) && (outer == [] ==> stage == ComputeStage(true, 0, sizes))
  {
    var body := ComputeBody(false, CountersFrom(|outer|, |sizes|), sizes);
    var exposed := ExposedLevels(sizes, FromEmpty);
    var levels := PlainLevels(outer) + exposed;
    ExposedChain(sizes, FromEmpty);
    forall d | 0 <= d < |levels| ensures levels[d].carry == if d < |outer| then Nothing else if d == |outer| then FromEmpty else FromOuter {
      assert d >= |outer| ==> levels[d] == exposed[d - |outer|];
    }
    LevelsOfNest(sizes[1..], body);
    PlainNest(outer, exposed, body);
    ghost var head;
    stage, head := RewriteGeneric(levels, body);
    assert levels[..head] == PlainLevels(outer) && levels[head..] == exposed;
    BufferedBody(CountersFrom(|outer|, |sizes|), sizes);
    FreedIsPlain(sizes, FromEmpty, Buffered(body));
    PlainNest(outer, Freed(exposed), Buffered(body));
  }

  lemma BufferedBody(counters: seq<nat>, sizes: seq<nat>)
    requires AllPositive(sizes)
    ensures Buffered(ComputeBody(false, counters, sizes)) == ComputeBody(true, counters, sizes)
  {
    var body := ComputeBody(false, counters, sizes);
    assert Buffered([Do(Send)]) == [Do(SendBuffer)] by {
      assert [Do(Send)][1..] == [];
    }
    assert body[2..] == [If(counters, LastOf(sizes), [Do(Send)])];
    assert Buffered(body[2..]) == [If(counters, LastOf(sizes), [Do(SendBuffer)])] by {
      assert body[2..][1..] == [];
    }
    assert body[1..][1..] == body[2..];
    assert body == [Do(Receive)] + body[1..];
    assert Buffered(body[1..]) == [Do(CombineInto)] + Buffered(body[2..]);
  }

  // ---------------------------------------------------------------------------------------------
  // Loops around the one that starts the accumulator
  // ---------------------------------------------------------------------------------------------

  lemma {:induction false} BufferedIsUncarried(body: seq<Stmt>)
    requires Chained(body)
    ensures Uncarried(Buffered(body))
    decreases body
  {
    if body != [] {
      BufferedIsUncarried(body[1..]);
      assert Buffered(body)[1..] == Buffered(body[1..]);
      match body[0]
      case Do(_) =>
      case If(_, _, inner) => BufferedIsUncarried(inner);
      case For(_, _, inner) => BufferedIsUncarried(inner);
    }
  }

  lemma {:induction false} FreedIsUncarried(levels: seq<Level>, body: seq<Stmt>)
    requires Uncarried(body)
    ensures Uncarried(LevelNest(Freed(levels), body))
  {
    if levels != [] {
      FreedIsUncarried(levels[1..], body);
      assert Freed(levels)[1..] == Freed(levels[1..]);
    }
  }

  /**
   * Where all the loops around run at most one iteration together, the stage with the buffer does what it
   * did, whatever the innermost body is.
   */
  lemma SurroundedOnceIsKept<T>(m: Meaning<T>, outer: seq<nat>, levels: seq<Level>, body: seq<Stmt>, env: seq<nat>, s: Outcome<T>)
    requires ChainHead(levels, 0) && Chained(body) && m.empty == m.zero && Product(outer) <= 1
    ensures SameSeen(Exec(m, Nest(outer, Nothing, LevelNest(levels, body)), env, s),
      Exec(m, [Do(Fill)] + Nest(outer, Nothing, LevelNest(Freed(levels), Buffered(body))), env, s))
  {
    var stage, buffered := LevelNest(levels, body), LevelNest(Freed(levels), Buffered(body));
    var filled := Step(m, Fill, env, s);
    var ts := Tuples(outer);
    CountTuples(outer);
    BufferedIsUncarried(body);
    FreedIsUncarried(levels, Buffered(body));
    NestRuns(m, outer, Nothing, stage, env, s);
    NestRuns(m, outer, Nothing, buffered, env, filled);
    assert ([Do(Fill)] + Nest(outer, Nothing, buffered))[1..] == Nest(outer, Nothing, buffered);
    if |ts| == 1 {
      BufferKeepsStage(m, levels, body, env + ts[0], s);
      assert ([Do(Fill)] + buffered)[1..] == buffered;
      RunSingle(m, stage, env, ts, s);
      RunSingle(m, buffered, env, ts, filled);
    }
  }

  lemma RunSingle<T>(m: Meaning<T>, body: seq<Stmt>, env: seq<nat>, ts: seq<seq<nat>>, s: Outcome<T>)
    requires |ts| == 1
    ensures RunAll(m, body, env, ts, s) == Exec(m, body, env + ts[0], s)
  {
    assert RunAll(m, body, env, ts[1..], Exec(m, body, env + ts[0], s)) == Exec(m, body, env + ts[0], s);
  }

  /** An accumulator that counts the slices. */
  function Counting(): Meaning<int> {
    Meaning((offsets, sizes) => 0, (count, slice) => count + 1, 0, 0)
  }

  lemma {:induction false} CountingCounts(start: int, slices: seq<int>)
    ensures Fold(Counting().combine, start, slices) == start + |slices|
    decreases |slices|
  {
    if slices != [] {
      CountingCounts(start + 1, slices[1..]);
    }
  }

  /** What `rounds` rounds send: each the count of its own slices, or each the count so far. */
  function Sent(sums: bool, before: int, n: nat, rounds: nat): (r: seq<int>)
    ensures |r| == rounds
    decreases rounds
  {
    if rounds == 0 then [] else [before + n] + Sent(sums, if sums then before + n else before, n, rounds - 1)
  }

  /** One run of the loops around, with the buffer as the run before left it. */
  lemma BufferRound(sizes: seq<nat>, t: seq<nat>, s: Outcome<int>)
    requires sizes != [] && AllPositive(sizes) && |Tuples(sizes)| <= |s.state.input|
    ensures Folded(Counting(), true, s, s.state.input[..|Tuples(sizes)|], s.state.input[|Tuples(sizes)|..], true,
      Exec(Counting(), Nest(sizes, Nothing, ComputeBody(true, CountersFrom(|t|, |sizes|), sizes)), t, s))
  {
    var body := ComputeBody(true, CountersFrom(|t|, |sizes|), sizes);
    ComputeBodyIsUncarried(CountersFrom(|t|, |sizes|), sizes);
    NestRuns(Counting(), sizes, Nothing, body, t, s);
    ComputeRunsAll(Counting(), true, sizes, t, s);
  }

  lemma {:induction false} CarriedRounds(level: nat, ts: seq<seq<nat>>, sizes: seq<nat>, s: Outcome<int>)
    requires sizes != [] && AllPositive(sizes) && |ts| * |Tuples(sizes)| <= |s.state.input|
    requires forall k :: 0 <= k < |ts| ==> |ts[k]| == level
    ensures RunAll(Counting(), ComputeStage(false, level, sizes), [], ts, s).state.output
      == s.state.output + Sent(false, 0, |Tuples(sizes)|, |ts|)
    decreases |ts|
  {
    if ts != [] {
      var n := |Tuples(sizes)|;
      RoomForRound(|ts|, n, |s.state.input|);
      assert [] + ts[0] == ts[0];
      CarryingStageFolds(Counting(), sizes, ts[0], s);
      CountingCounts(0, s.state.input[..n]);
      CarriedRounds(level, ts[1..], sizes, Exec(Counting(), ComputeStage(false, level, sizes), ts[0], s));
      SentNext(false, 0, n, |ts|, s.state.output);
    } else {
      assert s.state.output + [] == s.state.output;
    }
  }

  lemma {:induction false} BufferedRounds(level: nat, ts: seq<seq<nat>>, sizes: seq<nat>, s: Outcome<int>)
    requires sizes != [] && AllPositive(sizes) && |ts| * |Tuples(sizes)| <= |s.state.input|
    requires forall k :: 0 <= k < |ts| ==> |ts[k]| == level
    ensures RunAll(Counting(), Nest(sizes, Nothing, ComputeBody(true, CountersFrom(level, |sizes|), sizes)), [], ts, s).state.output
      == s.state.output + Sent(true, s.state.buffer, |Tuples(sizes)|, |ts|)
    decreases |ts|
  {
    if ts != [] {
      var n := |Tuples(sizes)|;
      RoomForRound(|ts|, n, |s.state.input|);
      assert [] + ts[0] == ts[0];
      BufferRound(sizes, ts[0], s);
      CountingCounts(s.state.buffer, s.state.input[..n]);
      BufferedRounds(level, ts[1..], sizes, Exec(Counting(), Nest(sizes, Nothing, ComputeBody(true, CountersFrom(level, |sizes|), sizes)), ts[0], s));
      SentNext(true, s.state.buffer, n, |ts|, s.state.output);
    } else {
      assert s.state.output + [] == s.state.output;
    }
  }

  lemma RoomForRound(rounds: nat, n: nat, room: nat)
    requires rounds > 0 && rounds * n <= room
    ensures n <= room && (rounds - 1) * n <= room - n
  {
    assert rounds * n == (rounds - 1) * n + n;
  }

  lemma SentNext(sums: bool, before: int, n: nat, rounds: nat, sent: seq<int>)
    requires rounds > 0
    ensures sent + Sent(sums, before, n, rounds)
      == sent + [before + n] + Sent(sums, if sums then before + n else before, n, rounds - 1)
  {
  }

  lemma SentDiffers(n: nat, rounds: nat, sent: seq<int>)
    requires n > 0 && rounds >= 2
    ensures sent + Sent(true, 0, n, rounds) != sent + Sent(false, 0, n, rounds)
  {
    assert Sent(true, 0, n, rounds)[1] == n + n by {
      assert Sent(true, n, n, rounds - 1)[0] == n + n;
    }
    assert Sent(false, 0, n, rounds)[1] == n by {
      assert Sent(false, 0, n, rounds - 1)[0] == n;
    }
    assert (sent + Sent(true, 0, n, rounds))[|sent| + 1] == n + n;
    assert (sent + Sent(false, 0, n, rounds))[|sent| + 1] == n;
  }

  /** With two or more runs, the second sees the buffer go on where the first stopped. */
  lemma SurroundedTwiceIsNotKept(outer: seq<nat>, sizes: seq<nat>, s: Outcome<int>)
    requires sizes != [] && AllPositive(sizes) && Product(outer) >= 2 && Product(outer) * |Tuples(sizes)| <= |s.state.input|
    ensures Exec(Counting(), SurroundedBuffered(outer, sizes), [], s).state.output
      != Exec(Counting(), Surrounded(outer, sizes), [], s).state.output
  {
    var m, ts := Counting(), Tuples(outer);
    var inner := Nest(sizes, Nothing, ComputeBody(true, CountersFrom(|outer|, |sizes|), sizes));
    var filled := Step(m, Fill, [], s);
    CountTuples(outer);
    forall k | 0 <= k < |ts| ensures |ts[k]| == |outer| {
      TuplesInRange(outer, ts[k]);
    }
    assert SurroundedBuffered(outer, sizes)[1..] == Nest(outer, Nothing, inner);
    ComputeBodyIsUncarried(CountersFrom(|outer|, |sizes|), sizes);
    NestIsUncarried(sizes, ComputeBody(true, CountersFrom(|outer|, |sizes|), sizes));
    NestRuns(m, outer, Nothing, inner, [], filled);
    NestRuns(m, outer, Nothing, ComputeStage(false, |outer|, sizes), [], s);
    BufferedRounds(|outer|, ts, sizes, filled);
    CarriedRounds(|outer|, ts, sizes, s);
    OnlyTheLastIsLast(sizes, 0);
    SentDiffers(|Tuples(sizes)|, |ts|, s.state.output);
  }

  /** Whatever is combined, from whatever comes in: as long as there is enough of it, the same is done. */
  ghost predicate SurroundedIsKept(outer: seq<nat>, sizes: seq<nat>)
    requires sizes != [] && AllPositive(sizes)
  {
    forall m: Meaning<int>, s: Outcome<int> :: m.empty == m.zero && Product(outer) * |Tuples(sizes)| <= |s.state.input| ==>
      SameSeen(Exec(m, Surrounded(outer, sizes), [], s), Exec(m, SurroundedBuffered(outer, sizes), [], s))
  }

  /** The rewritten reduction does the same exactly when the loops around it run at most one iteration together. */
  lemma SurroundedIsKeptIff(outer: seq<nat>, sizes: seq<nat>)
    requires sizes != [] && AllPositive(sizes)
    ensures SurroundedIsKept(outer, sizes) <==> Product(outer) <= 1
  {
    if Product(outer) <= 1 {
      forall m: Meaning<int>, s: Outcome<int> | m.empty == m.zero && Product(outer) * |Tuples(sizes)| <= |s.state.input|
        ensures SameSeen(Exec(m, Surrounded(outer, sizes), [], s), Exec(m, SurroundedBuffered(outer, sizes), [], s))
      {
        ExposedIsKept(m, outer, sizes, s);
      }
    } else {
      var input := seq(Product(outer) * |Tuples(sizes)|, _ => 0);
      var s := Outcome(State(input, [], 0, 0, [], false), 0);
      SurroundedTwiceIsNotKept(outer, sizes, s);
      assert Counting().empty == Counting().zero;
    }
  }

  lemma ExposedIsKept(m: Meaning<int>, outer: seq<nat>, sizes: seq<nat>, s: Outcome<int>)
    requires sizes != [] && AllPositive(sizes) && Product(outer) <= 1 && m.empty == m.zero
    ensures SameSeen(Exec(m, Surrounded(outer, sizes), [], s), Exec(m, SurroundedBuffered(outer, sizes), [], s))
  {
    var counters := CountersFrom(|outer|, |sizes|);
    var body, levels := ComputeBody(false, counters, sizes), ExposedLevels(sizes, FromEmpty);
    ExposedChain(sizes, FromEmpty);
    ExposedBodyIsChained(counters, sizes);
    LevelsOfNest(sizes[1..], body);
    BufferedBody(counters, sizes);
    FreedIsPlain(sizes, FromEmpty, Buffered(body));
    SurroundedOnceIsKept(m, outer, levels, body, [], s);
  }

  lemma ExposedBodyIsChained(counters: seq<nat>, sizes: seq<nat>)
    requires AllPositive(sizes)
    ensures Chained(ComputeBody(false, counters, sizes))
  {
    var body := ComputeBody(false, counters, sizes);
    assert Chained([Do(Send)]) by {
      assert [Do(Send)][1..] == [];
    }
    assert body[2..][1..] == [] && Chained(body[2..]);
    assert body[1..][1..] == body[2..] && Chained(body[1..]);
  }
}
