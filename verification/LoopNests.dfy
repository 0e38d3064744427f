/**
 * Stage bodies as loops over FIFO and tensor operations, what they do when run, and the nests that
 * the reduction passes build.
 */
module LoopNests {
  import opened Arithmetic

  /** An index of a transfer: a constant, or the counter of an enclosing loop, counted from outside. */
  datatype Index = Const(c: int) | Counter(level: nat)

  /**
   * `Combine` and `Send` work on the tensor that the loops carry, `CombineInto` and `SendBuffer` on the
   * accumulator buffer, which `Fill` sets. `Other` stands for operations that touch none of the state.
   */
  datatype Op =
    | Load(indices: seq<Index>, sizes: seq<nat>)
    | Receive
    | Combine
    | Send
    | Store
    | Fill
    | CombineInto
    | SendBuffer
    | Other(code: nat)

  /** What a loop carries: nothing, the value its surroundings carry, or one that starts afresh. */
  datatype Carry = Nothing | FromOuter | FromEmpty

  datatype Stmt =
    | For(trip: nat, carry: Carry, body: seq<Stmt>)
    | If(counters: seq<nat>, values: seq<nat>, body: seq<Stmt>)
    | Do(op: Op)

  /**
   * The FIFO that is read, the FIFO that is written, what was received last, the accumulator buffer and
   * what has been stored; `stuck` once something was received from an empty FIFO.
   */
  datatype State<!T> = State(input: seq<T>, output: seq<T>, slice: T, buffer: T, stored: seq<T>, stuck: bool)

  /** What loads read, what the generic operation computes, and where accumulators start. */
  datatype Meaning<!T> = Meaning(block: (seq<int>, seq<nat>) -> T, combine: (T, T) -> T, empty: T, zero: T)

  datatype Outcome<!T> = Outcome(state: State<T>, carried: T)

  function IndexValue(index: Index, env: seq<nat>): int {
    match index
    case Const(c) => c
    case Counter(level) => if level < |env| then env[level] else 0
  }

  function Offsets(indices: seq<Index>, env: seq<nat>): (r: seq<int>)
    ensures |r| == |indices| && forall k :: 0 <= k < |r| ==> r[k] == IndexValue(indices[k], env)
  {
    seq(|indices|, k requires 0 <= k < |indices| => IndexValue(indices[k], env))
  }

  /** Every one of the counters has the value given for it. */
  predicate AllEqual(counters: seq<nat>, values: seq<nat>, env: seq<nat>) {
    forall k :: 0 <= k < |counters| && k < |values| ==> CounterIs(counters[k], values[k], env)
  }

  predicate CounterIs(counter: nat, value: nat, env: seq<nat>) {
    counter < |env| && env[counter] == value
  }

  function Step<T>(m: Meaning<T>, op: Op, env: seq<nat>, s: Outcome<T>): Outcome<T> {
    var st := s.state;
    match op
    case Load(indices, sizes) => s.(state := st.(output := st.output + [m.block(Offsets(indices, env), sizes)]))
    case Receive =>
      if st.input == [] then s.(state := st.(stuck := true))
      else s.(state := st.(slice := st.input[0], input := st.input[1..]))
    case Combine => s.(carried := m.combine(s.carried, st.slice))
    case Send => s.(state := st.(output := st.output + [s.carried]))
    case Store =>
      if st.input == [] then s.(state := st.(stuck := true))
      else s.(state := st.(stored := st.stored + [st.input[0]], input := st.input[1..]))
    case Fill => s.(state := st.(buffer := m.zero))
    case CombineInto => s.(state := st.(buffer := m.combine(st.buffer, st.slice)))
    case SendBuffer => s.(state := st.(output := st.output + [st.buffer]))
    case Other(_) => s
  }

  /** What a loop starts to carry. */
  function CarriedIn<T>(m: Meaning<T>, carry: Carry, carried: T): T {
    if carry == FromEmpty then m.empty else carried
  }

  /** What is carried around the loop afterwards: only a loop that took it from there gives it back. */
  function CarriedOut<T>(carry: Carry, before: T, after: Outcome<T>): Outcome<T> {
    if carry == FromOuter then after else after.(carried := before)
  }

  function Exec<T>(m: Meaning<T>, body: seq<Stmt>, env: seq<nat>, s: Outcome<T>): Outcome<T>
    decreases body, 0
  {
    if body == [] then s
    else
      var first := body[0];
      var mid :=
        match first
        case Do(op) => Step(m, op, env, s)
        case If(counters, values, inner) => if AllEqual(counters, values, env) then Exec(m, inner, env, s) else s
        case For(trip, carry, inner) =>
          CarriedOut(carry, s.carried, Loop(m, carry, inner, env, s.(carried := CarriedIn(m, carry, s.carried)), 0, trip));
      Exec(m, body[1..], env, mid)
  }

  /** A loop that carries nothing gives every iteration what is carried around it. */
  function Loop<T>(m: Meaning<T>, carry: Carry, body: seq<Stmt>, env: seq<nat>, s: Outcome<T>, i: nat, trip: nat): Outcome<T>
    decreases body, if i <= trip then trip - i + 1 else 0
  {
    if i >= trip then s
    else
      var after := Exec(m, body, env + [i], s);
      Loop(m, carry, body, env, if carry == Nothing then after.(carried := s.carried) else after, i + 1, trip)
  }

  // ---------------------------------------------------------------------------------------------
  // Index tuples
  // ---------------------------------------------------------------------------------------------

  function Prefixed(i: nat, ts: seq<seq<nat>>): (r: seq<seq<nat>>)
    ensures |r| == |ts| && forall k :: 0 <= k < |r| ==> r[k] == [i] + ts[k]
  {
    seq(|ts|, k requires 0 <= k < |ts| => [i] + ts[k])
  }

  /** `ts` once for each first index below `n`. */
  function Stretches(ts: seq<seq<nat>>, n: nat): seq<seq<nat>> {
    if n == 0 then [] else Stretches(ts, n - 1) + Prefixed(n - 1, ts)
  }

  /** All index tuples below the sizes, in lexicographic order. */
  function Tuples(sizes: seq<nat>): seq<seq<nat>> {
    if sizes == [] then [[]] else Stretches(Tuples(sizes[1..]), sizes[0])
  }

  /** Those whose first index is below `n`. */
  function TuplesBelow(sizes: seq<nat>, n: nat): seq<seq<nat>>
    requires |sizes| > 0
  {
    Stretches(Tuples(sizes[1..]), n)
  }

  /** The last index tuple. */
  function LastOf(sizes: seq<nat>): (r: seq<nat>)
    requires forall k :: 0 <= k < |sizes| ==> sizes[k] > 0
    ensures |r| == |sizes| && forall k :: 0 <= k < |r| ==> r[k] == sizes[k] - 1
  {
    seq(|sizes|, k requires 0 <= k < |sizes| => sizes[k] - 1)
  }

  ghost predicate InRange(t: seq<nat>, sizes: seq<nat>) {
    |t| == |sizes| && forall k :: 0 <= k < |t| ==> t[k] < sizes[k]
  }

  lemma {:induction false} TuplesInRange(sizes: seq<nat>, t: seq<nat>)
    ensures t in Tuples(sizes) <==> InRange(t, sizes)
    decreases |sizes|
  {
    if sizes != [] {
      TuplesBelowInRange(sizes, sizes[0], t);
    } else {
      assert t in Tuples(sizes) <==> t == [];
    }
  }

  lemma {:induction false} TuplesBelowInRange(sizes: seq<nat>, n: nat, t: seq<nat>)
    requires |sizes| > 0
    ensures t in TuplesBelow(sizes, n) <==> |t| == |sizes| && t[0] < n && InRange(t[1..], sizes[1..])
    decreases |sizes|, n
  {
    if n > 0 {
      TuplesBelowInRange(sizes, n - 1, t);
      var rest := Tuples(sizes[1..]);
      var chunk := Prefixed(n - 1, rest);
      if |t| > 0 {
        TuplesInRange(sizes[1..], t[1..]);
        assert t == [t[0]] + t[1..];
      }
      if t in chunk {
        var k :| 0 <= k < |chunk| && chunk[k] == t;
        assert t[1..] == rest[k];
      }
      if |t| > 0 && t[0] == n - 1 && t[1..] in rest {
        var k :| 0 <= k < |rest| && rest[k] == t[1..];
        assert chunk[k] == t;
      }
    }
  }

  lemma {:induction false} CountTuples(sizes: seq<nat>)
    ensures |Tuples(sizes)| == Product(sizes)
    decreases |sizes|
  {
    if sizes != [] {
      CountTuplesBelow(sizes, sizes[0]);
    }
  }

  lemma {:induction false} CountTuplesBelow(sizes: seq<nat>, n: nat)
    requires |sizes| > 0
    ensures |TuplesBelow(sizes, n)| == n * Product(sizes[1..])
    decreases |sizes|, n
  {
    if n > 0 {
      CountTuplesBelow(sizes, n - 1);
      CountTuples(sizes[1..]);
      OneMore(n - 1, Product(sizes[1..]));
    }
  }

  lemma OneMore(n: int, p: int)
    ensures n * p + p == (n + 1) * p
  {
  }

  /** The last tuple comes last, and nowhere else. */
  lemma {:induction false} OnlyTheLastIsLast(sizes: seq<nat>, k: nat)
    requires forall j :: 0 <= j < |sizes| ==> sizes[j] > 0
    ensures |Tuples(sizes)| > 0
    ensures k < |Tuples(sizes)| ==> (Tuples(sizes)[k] == LastOf(sizes) <==> k == |Tuples(sizes)| - 1)
    decreases |sizes|
  {
    if sizes != [] {
      var n := sizes[0];
      var below := TuplesBelow(sizes, n - 1);
      var rest := Tuples(sizes[1..]);
      OnlyTheLastIsLast(sizes[1..], if k >= |below| then k - |below| else 0);
      if k < |below| {
        TuplesBelowInRange(sizes, n - 1, below[k]);
      } else if k < |Tuples(sizes)| {
        var t := rest[k - |below|];
        assert Tuples(sizes)[k] == [n - 1] + t;
        assert LastOf(sizes) == [n - 1] + LastOf(sizes[1..]);
        assert ([n - 1] + t)[1..] == t && ([n - 1] + LastOf(sizes[1..]))[1..] == LastOf(sizes[1..]);
      }
    }
  }

  // ---------------------------------------------------------------------------------------------
  // Nests
  // ---------------------------------------------------------------------------------------------

  /** One loop per size around `body`, all carrying the same way. */
  function Nest(sizes: seq<nat>, carry: Carry, body: seq<Stmt>): seq<Stmt> {
    if sizes == [] then body else [For(sizes[0], carry, Nest(sizes[1..], carry, body))]
  }

  /** The nest whose outermost loop starts the accumulator. */
  function CarryingNest(sizes: seq<nat>, body: seq<Stmt>): seq<Stmt>
    requires sizes != []
  {
    [For(sizes[0], FromEmpty, Nest(sizes[1..], FromOuter, body))]
  }

  /** `body` run once for each tuple, in order. */
  function RunAll<T>(m: Meaning<T>, body: seq<Stmt>, env: seq<nat>, ts: seq<seq<nat>>, s: Outcome<T>): Outcome<T> {
    if ts == [] then s else RunAll(m, body, env, ts[1..], Exec(m, body, env + ts[0], s))
  }

  lemma {:induction false} RunAllJoin<T>(m: Meaning<T>, body: seq<Stmt>, env: seq<nat>, a: seq<seq<nat>>, b: seq<seq<nat>>, s: Outcome<T>)
    ensures RunAll(m, body, env, a + b, s) == RunAll(m, body, env, b, RunAll(m, body, env, a, s))
  {
    if a == [] {
      assert a + b == b;
    } else {
      assert (a + b)[0] == a[0] && (a + b)[1..] == a[1..] + b;
      RunAllJoin(m, body, env, a[1..], b, Exec(m, body, env + a[0], s));
    }
  }

  lemma {:induction false} RunAllPrefixed<T>(m: Meaning<T>, body: seq<Stmt>, env: seq<nat>, i: nat, ts: seq<seq<nat>>, s: Outcome<T>)
    ensures RunAll(m, body, env, Prefixed(i, ts), s) == RunAll(m, body, env + [i], ts, s)
  {
    if ts != [] {
      assert Prefixed(i, ts)[1..] == Prefixed(i, ts[1..]);
      assert env + ([i] + ts[0]) == (env + [i]) + ts[0];
      RunAllPrefixed(m, body, env, i, ts[1..], Exec(m, body, env + Prefixed(i, ts)[0], s));
    }
  }

  /** Nothing in `body` uses what the loops around it carry. */
  predicate Uncarried(body: seq<Stmt>) {
    body == [] || (Uncarried(body[1..]) && match body[0]
      case Do(op) => op != Combine && op != Send
      case If(_, _, inner) => Uncarried(inner)
      case For(_, carry, inner) => carry == FromEmpty || (carry == Nothing && Uncarried(inner)))
  }

  lemma {:induction false} UncarriedKeeps<T>(m: Meaning<T>, body: seq<Stmt>, env: seq<nat>, s: Outcome<T>)
    requires Uncarried(body)
    ensures Exec(m, body, env, s).carried == s.carried
    decreases body
  {
    if body != [] {
      match body[0]
      case Do(op) => UncarriedKeeps(m, body[1..], env, Step(m, op, env, s));
      case If(counters, values, inner) =>
        UncarriedKeeps(m, inner, env, s);
        UncarriedKeeps(m, body[1..], env, if AllEqual(counters, values, env) then Exec(m, inner, env, s) else s);
      case For(trip, carry, inner) =>
        UncarriedKeeps(m, body[1..], env,
          CarriedOut(carry, s.carried, Loop(m, carry, inner, env, s.(carried := CarriedIn(m, carry, s.carried)), 0, trip)));
    }
  }

  /** A nest runs its body once for every index tuple, in lexicographic order. */
  lemma {:induction false} NestRuns<T>(m: Meaning<T>, sizes: seq<nat>, carry: Carry, body: seq<Stmt>, env: seq<nat>, s: Outcome<T>)
    requires carry == FromOuter || (carry == Nothing && Uncarried(body))
    ensures Exec(m, Nest(sizes, carry, body), env, s) == RunAll(m, body, env, Tuples(sizes), s)
    decreases |sizes|, 0
  {
    if sizes == [] {
      assert env + [] == env;
    } else {
      LoopRuns(m, sizes, carry, body, env, s, s, 0);
      var after := Loop(m, carry, Nest(sizes[1..], carry, body), env, s, 0, sizes[0]);
      assert s.(carried := s.carried) == s;
      if carry == Nothing {
        LoopOfNothing(m, Nest(sizes[1..], carry, body), env, s, 0, sizes[0]);
      }
    }
  }

  lemma {:induction false} LoopOfNothing<T>(m: Meaning<T>, inner: seq<Stmt>, env: seq<nat>, s: Outcome<T>, i: nat, trip: nat)
    ensures Loop(m, Nothing, inner, env, s, i, trip).carried == s.carried
    decreases if i <= trip then trip - i else 0
  {
    if i < trip {
      LoopOfNothing(m, inner, env, Exec(m, inner, env + [i], s).(carried := s.carried), i + 1, trip);
    }
  }

  lemma {:induction false} NestIsUncarried(sizes: seq<nat>, body: seq<Stmt>)
    requires Uncarried(body)
    ensures Uncarried(Nest(sizes, Nothing, body))
  {
    if sizes != [] {
      NestIsUncarried(sizes[1..], body);
    }
  }

  lemma {:induction false} LoopRuns<T>(m: Meaning<T>, sizes: seq<nat>, carry: Carry, body: seq<Stmt>, env: seq<nat>,
      s: Outcome<T>, now: Outcome<T>, i: nat)
    requires carry == FromOuter || (carry == Nothing && Uncarried(body))
    requires sizes != [] && i <= sizes[0] && now == RunAll(m, body, env, TuplesBelow(sizes, i), s)
    ensures Loop(m, carry, Nest(sizes[1..], carry, body), env, now, i, sizes[0])
      == RunAll(m, body, env, TuplesBelow(sizes, sizes[0]), s)
    decreases |sizes| - 1, sizes[0] - i + 1
  {
    if i < sizes[0] {
      var inner := Nest(sizes[1..], carry, body);
      var after := Exec(m, inner, env + [i], now);
      NestRuns(m, sizes[1..], carry, body, env + [i], now);
      RunAllPrefixed(m, body, env, i, Tuples(sizes[1..]), now);
      RunAllJoin(m, body, env, TuplesBelow(sizes, i), Prefixed(i, Tuples(sizes[1..])), s);
      if carry == Nothing {
        NestIsUncarried(sizes[1..], body);
        UncarriedKeeps(m, inner, env + [i], now);
        assert after.(carried := now.carried) == after;
      }
      LoopRuns(m, sizes, carry, body, env, s, after, i + 1);
    }
  }

  /** The same for the nest that starts the accumulator: the result is not seen around it. */
  lemma CarryingNestRuns<T>(m: Meaning<T>, sizes: seq<nat>, body: seq<Stmt>, env: seq<nat>, s: Outcome<T>)
    requires sizes != []
    ensures Exec(m, CarryingNest(sizes, body), env, s)
      == RunAll(m, body, env, Tuples(sizes), s.(carried := m.empty)).(carried := s.carried)
  {
    NestRuns(m, sizes, FromOuter, body, env, s.(carried := m.empty));
    LoopCarriesAlike(m, Nest(sizes[1..], FromOuter, body), env, s.(carried := m.empty), 0, sizes[0]);
  }

  lemma {:induction false} LoopCarriesAlike<T>(m: Meaning<T>, inner: seq<Stmt>, env: seq<nat>, s: Outcome<T>, i: nat, trip: nat)
    ensures Loop(m, FromEmpty, inner, env, s, i, trip) == Loop(m, FromOuter, inner, env, s, i, trip)
    decreases if i <= trip then trip - i else 0
  {
    if i < trip {
      LoopCarriesAlike(m, inner, env, Exec(m, inner, env + [i], s), i + 1, trip);
    }
  }
}
