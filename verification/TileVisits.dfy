/**
 * What tiling does to the iterations of a nest: adding up tile and point takes every iteration of the
 * tiled nest to one of the original nest, and back, with the same value for every index expression.
 */
module TileVisits {
  import opened Sequences
  import opened Arithmetic
  import opened TileNormalized
  import opened TileNest
  import opened TileUses

  /** Loops that stay, the perfect nest inside them, and the index expressions of the body. */
  datatype Nest = Nest(outer: seq<Loop>, points: seq<Loop>, uses: seq<Expr>)

  ghost function Names(loops: seq<Loop>): set<nat> {
    set i | 0 <= i < |loops| :: loops[i].iv
  }

  ghost predicate SizeWithin(s: Size, names: set<nat>) {
    match s
    case Whole(_) => true
    case DeriveSize(parts, total) => (forall i :: 0 <= i < |parts| ==> parts[i].iv in names) && SizeWithin(total, names)
    case CeilDiv(of, _) => SizeWithin(of, names)
  }

  /** From its lower bound the loop gets to `v` in whole steps. */
  ghost predicate StepsTo(l: Loop, v: int)
    decreases v - l.lower
  {
    v == l.lower || (l.step > 0 && v > l.lower && StepsTo(l, v - l.step))
  }

  lemma {:induction false} StepsByOne(l: Loop, v: int)
    requires l.lower == 0 && l.step == 1
    ensures StepsTo(l, v) <==> 0 <= v
    decreases v
  {
    if v > 0 {
      StepsByOne(l, v - 1);
    }
  }

  ghost predicate InLoop(l: Loop, env: Env) {
    l.iv in env && StepsTo(l, Get(env, l.iv)) && Get(env, l.iv) < Eval(l.upper, env)
  }

  ghost predicate InRange(loops: seq<Loop>, env: Env) {
    forall i :: 0 <= i < |loops| ==> InLoop(loops[i], env)
  }

  /** The nest has an iteration with these values. */
  ghost predicate Visits(n: Nest, env: Env) {
    env.Keys == Names(n.outer) + Names(n.points) && InRange(n.outer, env) && InRange(n.points, env)
  }

  ghost predicate SameOn(names: set<nat>, env: Env, env': Env) {
    forall v :: v in names ==> Get(env, v) == Get(env', v)
  }

  lemma {:induction false} EvalLocal(s: Size, names: set<nat>, env: Env, env': Env)
    requires SizeWithin(s, names) && SameOn(names, env, env')
    ensures Eval(s, env) == Eval(s, env')
  {
    match s {
      case Whole(_) =>
      case DeriveSize(parts, total) =>
        EvalLocal(total, names, env, env');
        ShrinkLocal(parts, Eval(total, env), names, env, env');
      case CeilDiv(of, _) => EvalLocal(of, names, env, env');
    }
  }

  lemma {:induction false} ShrinkLocal(parts: seq<Part>, total: nat, names: set<nat>, env: Env, env': Env)
    requires (forall i :: 0 <= i < |parts| ==> parts[i].iv in names) && SameOn(names, env, env')
    ensures Shrink(parts, total, env) == Shrink(parts, total, env')
  {
    if parts != [] {
      ShrinkLocal(parts[..|parts| - 1], total, names, env, env');
    }
  }

  /** The bound of a point loop: what is left of the old bound from the tile on. */
  lemma PointSize(loops: seq<Loop>, sizes: seq<nat>, next: nat, i: nat, env: Env)
    requires i < |loops| == |sizes|
    ensures Eval(PointLoop(loops, sizes, next, i).upper, env) ==
      Clamp(Eval(loops[i].upper, env), Get(env, next + i), sizes[i])
  {
    var parts, last := Ancestry(loops[i].upper), Part(next + i, sizes[i]);
    var all, u := parts + [last], loops[i].upper;
    assert Shrink(parts, Eval(Total(u), env), env) == Eval(u, env);
    assert all[..|all| - 1] == parts && all[|all| - 1] == last;
  }

  // ---------------------------------------------------------------------------------------------
  // One loop
  // ---------------------------------------------------------------------------------------------

  lemma CeilCovers(a: nat, b: nat)
    requires b > 0
    ensures (CeilDivide(a, b) as int - 1) * b < a <= CeilDivide(a, b) * b
  {
    var c := CeilDivide(a, b);
    assert a + b - 1 == c * b + (a + b - 1) % b;
    assert (c - 1) * b == c * b - b;
  }

  /** `t` and `q` are quotient and remainder of `x`. */
  ghost predicate SplitInto(x: int, tile: nat, t: int, q: int)
    requires tile > 0
  {
    TileOf(x, tile) == t && PointOf(x, tile) == q
  }

  ghost function TileOf(x: int, tile: nat): int
    requires tile > 0
  {
    x / tile
  }

  ghost function PointOf(x: int, tile: nat): int
    requires tile > 0
  {
    x % tile
  }

  /** A tile and a point of it are an index below the old bound, from which both can be read off. */
  lemma JoinTile(size: nat, tile: nat, t: int, q: int, x: int)
    requires tile > 0 && 0 <= t < CeilDivide(size, tile) && 0 <= q < Clamp(size, t, tile) && Joined(x, t, tile, q)
    ensures 0 <= x < size && SplitInto(x, tile, t, q)
  {
    MulMonotone(0, t, tile);
    DivModUnique(x, tile, t, q);
  }

  /** An index below the old bound lies in one tile, at one point. */
  lemma SplitTile(size: nat, tile: nat, x: int, t: int, q: int)
    requires tile > 0 && 0 <= x < size && SplitInto(x, tile, t, q)
    ensures 0 <= t < CeilDivide(size, tile) && 0 <= q < Clamp(size, t, tile) && Joined(x, t, tile, q)
  {
    CeilCovers(size, tile);
    if t < 0 {
      MulMonotone(t, -1, tile);
    }
    if t >= CeilDivide(size, tile) {
      MulMonotone(CeilDivide(size, tile), t, tile);
    }
  }

  lemma JoinLoop(loops: seq<Loop>, sizes: seq<nat>, next: nat, i: nat, env: Env, x: int)
    requires i < |loops| == |sizes| && sizes[i] > 0
    requires InLoop(TileLoop(loops, sizes, next, i), env) && InLoop(PointLoop(loops, sizes, next, i), env)
    requires Joined(x, Get(env, next + i), sizes[i], Get(env, next + |loops| + i))
    ensures 0 <= x < Eval(loops[i].upper, env) && SplitInto(x, sizes[i], Get(env, next + i), Get(env, next + |loops| + i))
  {
    PointSize(loops, sizes, next, i, env);
    StepsByOne(TileLoop(loops, sizes, next, i), Get(env, next + i));
    StepsByOne(PointLoop(loops, sizes, next, i), Get(env, next + |loops| + i));
    JoinTile(Eval(loops[i].upper, env), sizes[i], Get(env, next + i), Get(env, next + |loops| + i), x);
  }

  lemma SplitLoop(loops: seq<Loop>, sizes: seq<nat>, next: nat, i: nat, env: Env, x: int)
    requires i < |loops| == |sizes| && sizes[i] > 0 && next + i in env && next + |loops| + i in env
    requires 0 <= x < Eval(loops[i].upper, env) && SplitInto(x, sizes[i], Get(env, next + i), Get(env, next + |loops| + i))
    ensures InLoop(TileLoop(loops, sizes, next, i), env) && InLoop(PointLoop(loops, sizes, next, i), env)
    ensures Joined(x, Get(env, next + i), sizes[i], Get(env, next + |loops| + i))
  {
    PointSize(loops, sizes, next, i, env);
    SplitTile(Eval(loops[i].upper, env), sizes[i], x, Get(env, next + i), Get(env, next + |loops| + i));
    StepsByOne(TileLoop(loops, sizes, next, i), Get(env, next + i));
    StepsByOne(PointLoop(loops, sizes, next, i), Get(env, next + |loops| + i));
  }

  // ---------------------------------------------------------------------------------------------
  // One tiling of a whole nest
  // ---------------------------------------------------------------------------------------------

  ghost predicate Distinct(loops: seq<Loop>) {
    forall i, j :: 0 <= i < j < |loops| ==> loops[i].iv != loops[j].iv
  }

  ghost predicate Positive(sizes: seq<nat>) {
    forall i :: 0 <= i < |sizes| ==> sizes[i] > 0
  }

  /** Names are used once, are older than `next`, bounds depend on the loops that stay only, and the perfect nest is normalized. */
  ghost predicate Named(n: Nest, next: nat) {
    && Normalized(n.points)
    && (forall v :: v in Names(n.outer) ==> v < next) && (forall v :: v in Names(n.points) ==> v < next)
    && Distinct(n.points) && (forall v :: v in Names(n.points) ==> v !in Names(n.outer))
    && (forall j :: 0 <= j < |n.outer| ==> SizeWithin(n.outer[j].upper, Names(n.outer)))
    && forall i :: 0 <= i < |n.points| ==> SizeWithin(n.points[i].upper, Names(n.outer))
  }

  ghost function PlaceOf(points: seq<Loop>, v: nat): (i: nat)
    requires v in Names(points)
    ensures i < |points| && points[i].iv == v
  {
    var i: nat :| i < |points| && points[i].iv == v;
    i
  }

  /** Adds up tile and point of every loop. */
  ghost function Down(n: Nest, sizes: seq<nat>, next: nat, env: Env): Env
    requires |sizes| == |n.points|
  {
    map v | v in Names(n.outer) + Names(n.points) ::
      if v in Names(n.outer) then Get(env, v)
      else var i := PlaceOf(n.points, v); Join(Get(env, next + i), sizes[i], Get(env, next + |n.points| + i))
  }

  /** Splits every index into tile and point. */
  ghost function Up(n: Nest, sizes: seq<nat>, next: nat, env: Env): Env
    requires |sizes| == |n.points| && Positive(sizes)
  {
    map v | v in NewNames(n, next) ::
      if v in Names(n.outer) then Get(env, v)
      else if v < next + |n.points| then TileOf(Get(env, n.points[v - next].iv), sizes[v - next])
      else PointOf(Get(env, n.points[v - next - |n.points|].iv), sizes[v - next - |n.points|])
  }

  ghost function NewNames(n: Nest, next: nat): set<nat> {
    Names(n.outer) + Range(next, next + 2 * |n.points|)
  }

  /** `n'` is `n` tiled. */
  ghost predicate Round(n: Nest, sizes: seq<nat>, next: nat, n': Nest) {
    && |sizes| == |n.points| && Positive(sizes)
    && (forall j :: 0 <= j < |n.uses| ==> WellFormed(n.uses[j]))
    && exists r :: TiledFrom(n.points, sizes, n.uses, next, r) && n' == Nest(n.outer + r.tileLoops, r.pointLoops, r.uses)
  }

  lemma RoundLoops(n: Nest, sizes: seq<nat>, next: nat, n': Nest)
    requires Round(n, sizes, next, n')
    ensures |n'.outer| == |n.outer| + |n.points| && |n'.points| == |n.points| && |n'.uses| == |n.uses|
    ensures forall j :: 0 <= j < |n.outer| ==> n'.outer[j] == n.outer[j]
    ensures forall i :: 0 <= i < |n.points| ==> n'.outer[|n.outer| + i] == TileLoop(n.points, sizes, next, i)
    ensures forall i :: 0 <= i < |n.points| ==> n'.points[i] == PointLoop(n.points, sizes, next, i)
    ensures forall k :: 0 <= k < |n.uses| ==> n'.uses[k] == Fixed(n.uses[k], n.points, sizes, next, |n.points|)
  {
  }

  lemma RoundNames(n: Nest, sizes: seq<nat>, next: nat, n': Nest)
    requires Round(n, sizes, next, n')
    ensures Names(n'.outer) + Names(n'.points) == NewNames(n, next)
    ensures Names(n'.outer) == Names(n.outer) + Range(next, next + |n.points|)
    ensures Names(n'.points) == Range(next + |n.points|, next + 2 * |n.points|)
  {
    RoundLoops(n, sizes, next, n');
    forall v | v in Names(n.outer)
      ensures v in Names(n'.outer)
    {
      var j :| 0 <= j < |n.outer| && n.outer[j].iv == v;
      assert n'.outer[j].iv == v;
    }
    forall v | next <= v < next + |n.points|
      ensures v in Names(n'.outer)
    {
      assert n'.outer[|n.outer| + (v - next)].iv == v;
    }
    forall v | next + |n.points| <= v < next + 2 * |n.points|
      ensures v in Names(n'.points)
    {
      assert n'.points[v - next - |n.points|].iv == v;
    }
    forall v | v in Names(n'.outer)
      ensures v in Names(n.outer) || next <= v < next + |n.points|
    {
      var j :| 0 <= j < |n'.outer| && n'.outer[j].iv == v;
      if j >= |n.outer| {
        assert n'.outer[|n.outer| + (j - |n.outer|)].iv == next + (j - |n.outer|);
      } else {
        assert n.outer[j].iv == v;
      }
    }
  }

  lemma PlaceOfPoint(points: seq<Loop>, i: nat)
    requires Distinct(points) && i < |points|
    ensures points[i].iv in Names(points) && PlaceOf(points, points[i].iv) == i
  {
  }

  lemma DownJoined(n: Nest, sizes: seq<nat>, next: nat, env: Env, i: nat)
    requires Named(n, next) && |sizes| == |n.points| && i < |n.points|
    ensures Joined(Get(Down(n, sizes, next, env), n.points[i].iv), Get(env, next + i), sizes[i], Get(env, next + |n.points| + i))
  {
    PlaceOfPoint(n.points, i);
  }

  lemma DownValues(n: Nest, sizes: seq<nat>, next: nat, env: Env)
    requires Named(n, next) && |sizes| == |n.points|
    ensures Down(n, sizes, next, env).Keys == Names(n.outer) + Names(n.points)
    ensures SameOn(Names(n.outer), env, Down(n, sizes, next, env))
  {
  }

  /** Iterations of the tiled nest come from iterations of the nest. */
  lemma DownVisits(n: Nest, sizes: seq<nat>, next: nat, n': Nest, env: Env)
    requires Named(n, next) && Round(n, sizes, next, n') && Visits(n', env)
    ensures Visits(n, Down(n, sizes, next, env))
  {
    var down := Down(n, sizes, next, env);
    DownValues(n, sizes, next, env);
    forall j | 0 <= j < |n.outer|
      ensures InLoop(n.outer[j], down)
    {
      OuterDown(n, sizes, next, n', env, j);
    }
    forall i | 0 <= i < |n.points|
      ensures InLoop(n.points[i], down)
    {
      PointDown(n, sizes, next, n', env, i);
    }
  }

  lemma OuterDown(n: Nest, sizes: seq<nat>, next: nat, n': Nest, env: Env, j: nat)
    requires Named(n, next) && Round(n, sizes, next, n') && Visits(n', env) && j < |n.outer|
    ensures InLoop(n.outer[j], Down(n, sizes, next, env))
  {
    RoundLoops(n, sizes, next, n');
    assert n'.outer[j] == n.outer[j] && n.outer[j].iv in Names(n.outer);
    DownValues(n, sizes, next, env);
    EvalLocal(n.outer[j].upper, Names(n.outer), env, Down(n, sizes, next, env));
  }

  /** Tile and point of loop `i` are in range. */
  lemma TileAndPoint(n: Nest, sizes: seq<nat>, next: nat, n': Nest, env: Env, i: nat)
    requires Round(n, sizes, next, n') && Visits(n', env) && i < |n.points|
    ensures InLoop(TileLoop(n.points, sizes, next, i), env) && InLoop(PointLoop(n.points, sizes, next, i), env)
  {
    RoundLoops(n, sizes, next, n');
    assert InLoop(n'.outer[|n.outer| + i], env) && InLoop(n'.points[i], env);
  }

  lemma PointDown(n: Nest, sizes: seq<nat>, next: nat, n': Nest, env: Env, i: nat)
    requires Named(n, next) && Round(n, sizes, next, n') && Visits(n', env) && i < |n.points|
    ensures var down := Down(n, sizes, next, env);
      && InLoop(n.points[i], down)
      && SplitInto(Get(down, n.points[i].iv), sizes[i], Get(env, next + i), Get(env, next + |n.points| + i))
  {
    TileAndPoint(n, sizes, next, n', env, i);
    JoinedDown(n, sizes, next, env, i);
  }

  lemma JoinedDown(n: Nest, sizes: seq<nat>, next: nat, env: Env, i: nat)
    requires Named(n, next) && |sizes| == |n.points| && Positive(sizes) && i < |n.points|
    requires InLoop(TileLoop(n.points, sizes, next, i), env) && InLoop(PointLoop(n.points, sizes, next, i), env)
    ensures var down := Down(n, sizes, next, env);
      && InLoop(n.points[i], down)
      && SplitInto(Get(down, n.points[i].iv), sizes[i], Get(env, next + i), Get(env, next + |n.points| + i))
  {
    DownJoined(n, sizes, next, env, i);
    JoinLoop(n.points, sizes, next, i, env, Get(Down(n, sizes, next, env), n.points[i].iv));
    StepsByOne(n.points[i], Get(Down(n, sizes, next, env), n.points[i].iv));
    SameBound(n, sizes, next, env, i);
  }

  lemma SameBound(n: Nest, sizes: seq<nat>, next: nat, env: Env, i: nat)
    requires Named(n, next) && |sizes| == |n.points| && i < |n.points|
    ensures var down := Down(n, sizes, next, env);
      n.points[i].iv in down && Eval(n.points[i].upper, env) == Eval(n.points[i].upper, down)
  {
    var down := Down(n, sizes, next, env);
    assert n.points[i].iv in Names(n.points);
    DownValues(n, sizes, next, env);
    EvalLocal(n.points[i].upper, Names(n.outer), env, down);
  }

  lemma UpTile(n: Nest, sizes: seq<nat>, next: nat, env: Env, i: nat)
    requires Named(n, next) && |sizes| == |n.points| && Positive(sizes) && i < |n.points|
    ensures var up := Up(n, sizes, next, env);
      && next + i in up && next + |n.points| + i in up
      && SplitInto(Get(env, n.points[i].iv), sizes[i], Get(up, next + i), Get(up, next + |n.points| + i))
  {
    var up := Up(n, sizes, next, env);
    assert next + i in NewNames(n, next) && next + |n.points| + i in NewNames(n, next);
    assert next + i !in Names(n.outer) && next + |n.points| + i !in Names(n.outer);
  }

  lemma UpOuter(n: Nest, sizes: seq<nat>, next: nat, env: Env)
    requires |sizes| == |n.points| && Positive(sizes)
    ensures SameOn(Names(n.outer), env, Up(n, sizes, next, env))
  {
  }

  lemma SameMap(env: Env, env': Env)
    requires env.Keys == env'.Keys && SameOn(env.Keys, env, env')
    ensures env == env'
  {
    forall v | v in env
      ensures env[v] == env'[v]
    {
      assert v in env.Keys && Get(env, v) == Get(env', v);
    }
  }

  /** From the index, tile and point can be read off again. */
  lemma DownUp(n: Nest, sizes: seq<nat>, next: nat, n': Nest, env: Env)
    requires Named(n, next) && Round(n, sizes, next, n') && Visits(n', env)
    ensures Up(n, sizes, next, Down(n, sizes, next, env)) == env
  {
    TilesBack(n, sizes, next, n', env);
    BackUpOuter(n, sizes, next, env);
    BackUp(n, next, Up(n, sizes, next, Down(n, sizes, next, env)), env);
    NewKeys(n, sizes, next, n', env);
    SameMap(Up(n, sizes, next, Down(n, sizes, next, env)), env);
  }

  lemma NewKeys(n: Nest, sizes: seq<nat>, next: nat, n': Nest, env: Env)
    requires Round(n, sizes, next, n') && Visits(n', env)
    ensures env.Keys == NewNames(n, next)
  {
    RoundNames(n, sizes, next, n');
  }

  lemma TilesBack(n: Nest, sizes: seq<nat>, next: nat, n': Nest, env: Env)
    requires Named(n, next) && Round(n, sizes, next, n') && Visits(n', env)
    ensures forall i :: 0 <= i < |n.points| ==> SameTile(n, next, Up(n, sizes, next, Down(n, sizes, next, env)), env, i)
  {
    forall i | 0 <= i < |n.points|
      ensures SameTile(n, next, Up(n, sizes, next, Down(n, sizes, next, env)), env, i)
    {
      BackUpPoint(n, sizes, next, n', env, i);
    }
  }

  ghost predicate SameTile(n: Nest, next: nat, a: Env, b: Env, i: nat) {
    Get(a, next + i) == Get(b, next + i) && Get(a, next + |n.points| + i) == Get(b, next + |n.points| + i)
  }

  lemma BackUpOuter(n: Nest, sizes: seq<nat>, next: nat, env: Env)
    requires Named(n, next) && |sizes| == |n.points| && Positive(sizes)
    ensures SameOn(Names(n.outer), Up(n, sizes, next, Down(n, sizes, next, env)), env)
  {
    DownValues(n, sizes, next, env);
    UpOuter(n, sizes, next, Down(n, sizes, next, env));
  }

  lemma BackUp(n: Nest, next: nat, a: Env, b: Env)
    requires SameOn(Names(n.outer), a, b) && forall i :: 0 <= i < |n.points| ==> SameTile(n, next, a, b, i)
    ensures SameOn(NewNames(n, next), a, b)
  {
    forall v | v in NewNames(n, next) && v !in Names(n.outer)
      ensures Get(a, v) == Get(b, v)
    {
      assert SameTile(n, next, a, b, NewPlace(n, next, v));
    }
  }

  /** Which loop a new name belongs to. */
  ghost function NewPlace(n: Nest, next: nat, v: nat): (i: nat)
    requires v in NewNames(n, next) && v !in Names(n.outer)
    ensures i < |n.points| && (v == next + i || v == next + |n.points| + i)
  {
    if v < next + |n.points| then v - next else v - next - |n.points|
  }

  lemma BackUpPoint(n: Nest, sizes: seq<nat>, next: nat, n': Nest, env: Env, i: nat)
    requires Named(n, next) && Round(n, sizes, next, n') && Visits(n', env) && i < |n.points|
    ensures SameTile(n, next, Up(n, sizes, next, Down(n, sizes, next, env)), env, i)
  {
    PointDown(n, sizes, next, n', env, i);
    UpTile(n, sizes, next, Down(n, sizes, next, env), i);
  }

  // ---------------------------------------------------------------------------------------------
  // And back
  // ---------------------------------------------------------------------------------------------

  /** Every iteration of the nest is visited by the tiled nest. */
  lemma UpVisits(n: Nest, sizes: seq<nat>, next: nat, n': Nest, env: Env)
    requires Named(n, next) && Round(n, sizes, next, n') && Visits(n, env)
    ensures Visits(n', Up(n, sizes, next, env))
  {
    var up := Up(n, sizes, next, env);
    RoundNames(n, sizes, next, n');
    RoundLoops(n, sizes, next, n');
    forall j | 0 <= j < |n'.outer|
      ensures InLoop(n'.outer[j], up)
    {
      NewOuterUp(n, sizes, next, n', env, j);
    }
    forall i | 0 <= i < |n'.points|
      ensures InLoop(n'.points[i], up)
    {
      PointUp(n, sizes, next, env, i);
    }
  }

  lemma NewTileUp(n: Nest, sizes: seq<nat>, next: nat, n': Nest, env: Env, i: nat)
    requires Named(n, next) && Round(n, sizes, next, n') && Visits(n, env) && i < |n.points| && |n.outer| + i < |n'.outer|
    ensures InLoop(n'.outer[|n.outer| + i], Up(n, sizes, next, env))
  {
    TileAmongOuter(n, sizes, next, n', i);
    PointUp(n, sizes, next, env, i);
  }

  lemma TileAmongOuter(n: Nest, sizes: seq<nat>, next: nat, n': Nest, i: nat)
    requires Round(n, sizes, next, n') && i < |n.points|
    ensures |n.outer| + i < |n'.outer| && n'.outer[|n.outer| + i] == TileLoop(n.points, sizes, next, i)
  {
    RoundLoops(n, sizes, next, n');
  }

  lemma NewOuterUp(n: Nest, sizes: seq<nat>, next: nat, n': Nest, env: Env, j: nat)
    requires Named(n, next) && Round(n, sizes, next, n') && Visits(n, env) && j < |n'.outer|
    ensures InLoop(n'.outer[j], Up(n, sizes, next, env))
  {
    RoundLoops(n, sizes, next, n');
    if j < |n.outer| {
      OuterUp(n, sizes, next, env, j);
    } else {
      NewTileUp(n, sizes, next, n', env, j - |n.outer|);
    }
  }

  lemma OuterUp(n: Nest, sizes: seq<nat>, next: nat, env: Env, j: nat)
    requires Named(n, next) && |sizes| == |n.points| && Positive(sizes) && Visits(n, env) && j < |n.outer|
    ensures InLoop(n.outer[j], Up(n, sizes, next, env))
  {
    var up := Up(n, sizes, next, env);
    assert n.outer[j].iv in Names(n.outer) && n.outer[j].iv in NewNames(n, next);
    UpOuter(n, sizes, next, env);
    EvalLocal(n.outer[j].upper, Names(n.outer), env, up);
  }

  lemma PointUp(n: Nest, sizes: seq<nat>, next: nat, env: Env, i: nat)
    requires Named(n, next) && |sizes| == |n.points| && Positive(sizes) && Visits(n, env) && i < |n.points|
    ensures var up := Up(n, sizes, next, env);
      && InLoop(TileLoop(n.points, sizes, next, i), up) && InLoop(PointLoop(n.points, sizes, next, i), up)
      && Joined(Get(env, n.points[i].iv), Get(up, next + i), sizes[i], Get(up, next + |n.points| + i))
  {
    assert InLoop(n.points[i], env);
    StepsByOne(n.points[i], Get(env, n.points[i].iv));
    UpTile(n, sizes, next, env, i);
    SameBoundUp(n, sizes, next, env, i);
    SplitLoop(n.points, sizes, next, i, Up(n, sizes, next, env), Get(env, n.points[i].iv));
  }

  lemma SameBoundUp(n: Nest, sizes: seq<nat>, next: nat, env: Env, i: nat)
    requires Named(n, next) && |sizes| == |n.points| && Positive(sizes) && i < |n.points|
    ensures Eval(n.points[i].upper, env) == Eval(n.points[i].upper, Up(n, sizes, next, env))
  {
    UpOuter(n, sizes, next, env);
    EvalLocal(n.points[i].upper, Names(n.outer), env, Up(n, sizes, next, env));
  }

  lemma JoinedOnce(x: int, y: int, t: int, tile: nat, q: int)
    requires Joined(x, t, tile, q) && Joined(y, t, tile, q)
    ensures x == y
  {
  }

  lemma UpDown(n: Nest, sizes: seq<nat>, next: nat, env: Env)
    requires Named(n, next) && |sizes| == |n.points| && Positive(sizes) && Visits(n, env)
    ensures Down(n, sizes, next, Up(n, sizes, next, env)) == env
  {
    var up := Up(n, sizes, next, env);
    var down := Down(n, sizes, next, up);
    DownValues(n, sizes, next, up);
    UpOuter(n, sizes, next, env);
    forall v | v in Names(n.points)
      ensures Get(down, v) == Get(env, v)
    {
      var i := PlaceOf(n.points, v);
      PointUp(n, sizes, next, env, i);
      DownJoined(n, sizes, next, up, i);
      JoinedOnce(Get(down, v), Get(env, v), Get(up, next + i), sizes[i], Get(up, next + |n.points| + i));
    }
    SameMap(down, env);
  }

  // ---------------------------------------------------------------------------------------------
  // Values of uses
  // ---------------------------------------------------------------------------------------------

  /** The uses can be rewritten without changing values. */
  ghost predicate Rewritable(n: Nest) {
    forall k :: 0 <= k < |n.uses| ==> UseRewritable(n, n.uses[k])
  }

  ghost predicate UseRewritable(n: Nest, e: Expr) {
    && WellFormed(e) && Within(e, Names(n.outer) + Names(n.points))
    && forall i :: 0 <= i < |n.points| ==>
      Tame(e, n.points[i].iv) && (Ancestry(n.points[i].upper) == [] || e != Iv(n.points[i].iv))
  }

  /** What is left of the names once the first `m` loops have been fixed. */
  ghost function NamesAfter(n: Nest, next: nat, m: nat): set<nat>
    requires m <= |n.points|
  {
    Names(n.outer) + Names(n.points[m..]) + Range(next, next + m) + Range(next + |n.points|, next + |n.points| + m)
  }

  lemma AncestryNames(n: Nest, next: nat, i: nat)
    requires Named(n, next) && i < |n.points|
    ensures PartNames(Ancestry(n.points[i].upper)) <= Names(n.outer)
  {
  }

  lemma ForeignPoint(n: Nest, sizes: seq<nat>, next: nat, j: nat, i: nat)
    requires Named(n, next) && |sizes| == |n.points| && j < |n.points| && i < |n.points| && i != j
    ensures Foreign(SplitOf(n.points, sizes, next, j), n.points[i].iv)
    ensures Foreign(SplitOf(n.points, sizes, next, j), next + |n.points| + i)
  {
    AncestryNames(n, next, j);
    assert n.points[i].iv in Names(n.points) && n.points[j].iv in Names(n.points);
  }

  /** Fixing the first `m` loops keeps the other loops' variables tame, and brings in new names only. */
  lemma {:induction false} FixedTame(n: Nest, sizes: seq<nat>, next: nat, e: Expr, m: nat, i: nat)
    requires Named(n, next) && |sizes| == |n.points| && UseRewritable(n, e) && m <= i < |n.points|
    ensures var f := Fixed(e, n.points, sizes, next, m);
      Tame(f, n.points[i].iv) && (f == Iv(n.points[i].iv) ==> e == Iv(n.points[i].iv))
  {
    if m > 0 {
      FixedTame(n, sizes, next, e, m - 1, i);
      ForeignPoint(n, sizes, next, m - 1, i);
      FixesTame(Fixed(e, n.points, sizes, next, m - 1), SplitOf(n.points, sizes, next, m - 1), n.points[i].iv);
    }
  }

  lemma {:induction false} FixedWithin(n: Nest, sizes: seq<nat>, next: nat, e: Expr, m: nat)
    requires Named(n, next) && |sizes| == |n.points| && UseRewritable(n, e) && m <= |n.points|
    ensures Within(Fixed(e, n.points, sizes, next, m), NamesAfter(n, next, m))
  {
    if m == 0 {
      assert n.points[0..] == n.points;
      WithinMore(e, Names(n.outer) + Names(n.points), NamesAfter(n, next, 0));
    } else {
      FixedWithin(n, sizes, next, e, m - 1);
      OneMoreWithin(n, sizes, next, Fixed(e, n.points, sizes, next, m - 1), m);
    }
  }

  lemma OneMoreWithin(n: Nest, sizes: seq<nat>, next: nat, f: Expr, m: nat)
    requires Named(n, next) && |sizes| == |n.points| && 0 < m <= |n.points|
    requires WellFormed(f) && Within(f, NamesAfter(n, next, m - 1))
    ensures var s := SplitOf(n.points, sizes, next, m - 1);
      WellFormed(FixA(f, s)) && Within(FixB(FixA(f, s), s), NamesAfter(n, next, m))
  {
    var s := SplitOf(n.points, sizes, next, m - 1);
    NamesAfterNext(n, next, m);
    WithinMore(f, NamesAfter(n, next, m - 1), NamesAfter(n, next, m) + {s.source});
    FixesWithin(f, s, NamesAfter(n, next, m));
  }

  lemma NamesAfterNext(n: Nest, next: nat, m: nat)
    requires Named(n, next) && 0 < m <= |n.points|
    ensures NamesAfter(n, next, m - 1) <= NamesAfter(n, next, m) + {n.points[m - 1].iv}
    ensures next + (m - 1) in NamesAfter(n, next, m) && next + |n.points| + (m - 1) in NamesAfter(n, next, m)
    ensures PartNames(Ancestry(n.points[m - 1].upper)) <= NamesAfter(n, next, m)
  {
    RestNames(n.points, m - 1);
    AncestryNames(n, next, m - 1);
  }

  lemma RestNames(points: seq<Loop>, m: nat)
    requires m < |points|
    ensures Names(points[m..]) == Names(points[m + 1..]) + {points[m].iv}
  {
    var a, b := points[m..], points[m + 1..];
    assert a[0] == points[m] && a[1..] == b;
    forall v | v in Names(a)
      ensures v in Names(b) + {points[m].iv}
    {
      var i :| 0 <= i < |a| && a[i].iv == v;
      if i > 0 {
        assert b[i - 1].iv == v;
      }
    }
    forall v | v in Names(b)
      ensures v in Names(a)
    {
      var i :| 0 <= i < |b| && b[i].iv == v;
      assert a[i + 1].iv == v;
    }
  }

  /** All old and new variables, with consistent values. */
  ghost predicate Consistent(n: Nest, sizes: seq<nat>, next: nat, all: Env)
    requires |sizes| == |n.points|
  {
    forall i :: 0 <= i < |n.points| ==> Agrees(SplitOf(n.points, sizes, next, i), all)
  }

  lemma {:induction false} FixedValue(n: Nest, sizes: seq<nat>, next: nat, e: Expr, m: nat, all: Env)
    requires Named(n, next) && |sizes| == |n.points| && UseRewritable(n, e) && m <= |n.points|
    requires Consistent(n, sizes, next, all)
    ensures Value(Fixed(e, n.points, sizes, next, m), all) == Value(e, all)
  {
    if m > 0 {
      FixedValue(n, sizes, next, e, m - 1, all);
      FixedTame(n, sizes, next, e, m - 1, m - 1);
      var s := SplitOf(n.points, sizes, next, m - 1);
      assert n.points[m - 1].iv in Names(n.points);
      FixesKeepValue(Fixed(e, n.points, sizes, next, m - 1), s, all);
    }
  }

  /** In matching iterations every use has the same value. */
  lemma UsesKeepValues(n: Nest, sizes: seq<nat>, next: nat, n': Nest, env: Env, k: nat)
    requires Named(n, next) && Rewritable(n) && Round(n, sizes, next, n') && Visits(n', env) && k < |n.uses|
    ensures k < |n'.uses| && Value(n'.uses[k], env) == Value(n.uses[k], Down(n, sizes, next, env))
  {
    var down := Down(n, sizes, next, env);
    var e := n.uses[k];
    var f := Fixed(e, n.points, sizes, next, |n.points|);
    RoundLoops(n, sizes, next, n');
    RoundNames(n, sizes, next, n');
    DownValues(n, sizes, next, env);
    assert UseRewritable(n, e);
    AllConsistent(n, sizes, next, env);
    FixedValue(n, sizes, next, e, |n.points|, down + env);
    ValueLocal(e, Names(n.outer) + Names(n.points), down + env, down);
    FixedWithin(n, sizes, next, e, |n.points|);
    AllFixed(n, next);
    WithinMore(f, NamesAfter(n, next, |n.points|), NewNames(n, next));
    ValueLocal(f, NewNames(n, next), down + env, env);
  }

  lemma AllFixed(n: Nest, next: nat)
    ensures NamesAfter(n, next, |n.points|) <= NewNames(n, next)
  {
    assert n.points[|n.points|..] == [];
  }

  lemma AllConsistent(n: Nest, sizes: seq<nat>, next: nat, env: Env)
    requires Named(n, next) && |sizes| == |n.points| && env.Keys == NewNames(n, next)
    ensures var down := Down(n, sizes, next, env);
      && Consistent(n, sizes, next, down + env)
      && (forall v :: v in Names(n.outer) + Names(n.points) ==> Get(down + env, v) == Get(down, v))
      && forall v :: v in NewNames(n, next) ==> Get(down + env, v) == Get(env, v)
  {
    var down := Down(n, sizes, next, env);
    DownValues(n, sizes, next, env);
    MergedValues(n, next, down, env);
    forall i | 0 <= i < |n.points|
      ensures Agrees(SplitOf(n.points, sizes, next, i), down + env)
    {
      ConsistentAt(n, sizes, next, env, i);
    }
  }

  lemma ConsistentAt(n: Nest, sizes: seq<nat>, next: nat, env: Env, i: nat)
    requires Named(n, next) && |sizes| == |n.points| && env.Keys == NewNames(n, next) && i < |n.points|
    ensures Agrees(SplitOf(n.points, sizes, next, i), Down(n, sizes, next, env) + env)
  {
    var s, down := SplitOf(n.points, sizes, next, i), Down(n, sizes, next, env);
    assert s.source == n.points[i].iv && s.tile == next + i && s.point == next + |n.points| + i && s.size == sizes[i];
    DownJoined(n, sizes, next, env, i);
    MergedAt(n, sizes, next, env, i);
    AgreeFrom(s, down + env, down, env);
  }

  lemma MergedAt(n: Nest, sizes: seq<nat>, next: nat, env: Env, i: nat)
    requires Named(n, next) && |sizes| == |n.points| && env.Keys == NewNames(n, next) && i < |n.points|
    ensures var down, s := Down(n, sizes, next, env), SplitOf(n.points, sizes, next, i);
      && Get(down + env, s.source) == Get(down, s.source)
      && Get(down + env, s.tile) == Get(env, s.tile) && Get(down + env, s.point) == Get(env, s.point)
  {
    var s := SplitOf(n.points, sizes, next, i);
    assert s.source in Names(n.points);
    assert s.tile in NewNames(n, next) && s.point in NewNames(n, next);
    DownValues(n, sizes, next, env);
    MergedValues(n, next, Down(n, sizes, next, env), env);
  }

  lemma AgreeFrom(s: Split, all: Env, down: Env, env: Env)
    requires Get(all, s.source) == Get(down, s.source) && Get(all, s.tile) == Get(env, s.tile) && Get(all, s.point) == Get(env, s.point)
    requires Joined(Get(down, s.source), Get(env, s.tile), s.size, Get(env, s.point))
    ensures Agrees(s, all)
  {
  }

  lemma MergedValues(n: Nest, next: nat, down: Env, env: Env)
    requires Named(n, next) && env.Keys == NewNames(n, next)
    requires down.Keys == Names(n.outer) + Names(n.points) && SameOn(Names(n.outer), env, down)
    ensures forall v :: v in Names(n.outer) + Names(n.points) ==> Get(down + env, v) == Get(down, v)
    ensures forall v :: v in NewNames(n, next) ==> Get(down + env, v) == Get(env, v)
  {
    forall v | v in Names(n.outer)
      ensures Get(down + env, v) == Get(down, v)
    {
      assert Get(env, v) == Get(down, v);
    }
  }
}
