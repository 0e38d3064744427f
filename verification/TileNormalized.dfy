/**
 * Tiling of a perfect loop nest with bounds from zero and step one: every loop becomes a loop over
 * tiles and a loop over the points of a tile, and the uses of its induction variable are rewritten.
 */
module TileNormalized {
  import opened Sequences
  import opened Arithmetic

  /** A tile loop and the size of its tiles. */
  datatype Part = Part(iv: nat, size: nat)

  /** Loop bounds: a number, the size of a tile, or a number of tiles. */
  datatype Size = Whole(n: nat) | DeriveSize(parts: seq<Part>, total: Size) | CeilDiv(of: Size, tile: nat)

  /** Loops are known by their induction variables. */
  datatype Loop = Loop(iv: nat, lower: int, upper: Size, step: int)

  /** Index expressions of the body: an induction variable, or a sum of expressions times strides. */
  datatype Expr = Iv(iv: nat) | Linearize(args: seq<Expr>, strides: seq<int>)

  /** Values of induction variables. */
  type Env = map<nat, int>

  // ---------------------------------------------------------------------------------------------
  // Meaning of bounds and expressions
  // ---------------------------------------------------------------------------------------------

  function Get(env: Env, iv: nat): int {
    if iv in env then env[iv] else 0
  }

  function CeilDivide(a: nat, b: nat): nat
    requires b > 0
  {
    (a + b - 1) / b
  }

  /** What is left of `size` from tile `t` on, at most one tile. */
  function Clamp(size: int, t: int, tile: nat): nat {
    var rest := size - t * tile;
    if rest < 0 then 0 else if rest < tile then rest else tile
  }

  function Eval(s: Size, env: Env): nat {
    match s
    case Whole(n) => n
    case DeriveSize(parts, total) => Shrink(parts, Eval(total, env), env)
    case CeilDiv(of, tile) => if tile == 0 then 0 else CeilDivide(Eval(of, env), tile)
  }

  /** The size of the tile that the tile loops select, one inside the other. */
  function Shrink(parts: seq<Part>, total: nat, env: Env): nat {
    if parts == [] then total
    else
      var last := parts[|parts| - 1];
      Clamp(Shrink(parts[..|parts| - 1], total, env), Get(env, last.iv), last.size)
  }

  function Value(e: Expr, env: Env): int {
    match e
    case Iv(iv) => Get(env, iv)
    case Linearize(args, strides) => Sum(args, strides, env)
  }

  function Sum(args: seq<Expr>, strides: seq<int>, env: Env): int {
    if args == [] || strides == [] then 0 else Value(args[0], env) * strides[0] + Sum(args[1..], strides[1..], env)
  }

  // ---------------------------------------------------------------------------------------------
  // Rewriting uses
  // ---------------------------------------------------------------------------------------------

  /** How one loop is split: the old variable, the new ones, the tile size, and the tile loops around it. */
  datatype Split = Split(source: nat, tile: nat, point: nat, size: nat, ancestry: seq<Part>)

  /** The first term for the old variable becomes a term for the tile and one for the point. */
  function SplitArgs(args: seq<Expr>, s: Split): seq<Expr> {
    if args == [] then []
    else if args[0] == Iv(s.source) then [Iv(s.tile), Iv(s.point)] + args[1..]
    else [args[0]] + SplitArgs(args[1..], s)
  }

  function SplitStrides(args: seq<Expr>, strides: seq<int>, s: Split): seq<int>
    requires |args| == |strides|
  {
    if args == [] then []
    else if args[0] == Iv(s.source) then [s.size, strides[0]] + strides[1..]
    else [strides[0]] + SplitStrides(args[1..], strides[1..], s)
  }

  /** Erases the first term for the old variable and inserts the two new terms in its place. */
  method SplitTerms(args: seq<Expr>, strides: seq<int>, s: Split) returns (ivs: seq<Expr>, factors: seq<int>)
    requires |args| == |strides|
    ensures ivs == SplitArgs(args, s) && factors == SplitStrides(args, strides, s)
  {
    ivs, factors := args, strides;
    var k := 0;
    while k < |ivs|
      invariant 0 <= k <= |args| && ivs == args && factors == strides
      invariant forall j :: 0 <= j < k ==> args[j] != Iv(s.source)
    {
      if ivs[k] == Iv(s.source) {
        SplitAt(args, strides, s, k);
        var oldStride := factors[k];
        ivs, factors := Remove(ivs, k), Remove(factors, k);
        ivs, factors := Insert(ivs, k, Iv(s.point)), Insert(factors, k, oldStride);
        ivs, factors := Insert(ivs, k, Iv(s.tile)), Insert(factors, k, s.size as int);
        return;
      }
      k := k + 1;
    }
    SplitNowhere(args, strides, s);
  }

  lemma {:induction false} SplitAt(args: seq<Expr>, strides: seq<int>, s: Split, k: nat)
    requires |args| == |strides| && k < |args| && args[k] == Iv(s.source)
    requires forall j :: 0 <= j < k ==> args[j] != Iv(s.source)
    ensures SplitArgs(args, s) == Insert(Insert(Remove(args, k), k, Iv(s.point)), k, Iv(s.tile))
    ensures SplitStrides(args, strides, s) == Insert(Insert(Remove(strides, k), k, strides[k]), k, s.size as int)
  {
    if k > 0 {
      SplitAt(args[1..], strides[1..], s, k - 1);
      SplitLater(args, k, Iv(s.tile), Iv(s.point));
      SplitLater(strides, k, s.size as int, strides[k]);
    }
  }

  lemma SplitLater<T>(a: seq<T>, k: nat, x: T, y: T)
    requires 0 < k < |a|
    ensures Insert(Insert(Remove(a, k), k, y), k, x) == [a[0]] + Insert(Insert(Remove(a[1..], k - 1), k - 1, y), k - 1, x)
  {
  }

  lemma {:induction false} SplitNowhere(args: seq<Expr>, strides: seq<int>, s: Split)
    requires |args| == |strides| && forall j :: 0 <= j < |args| ==> args[j] != Iv(s.source)
    ensures SplitArgs(args, s) == args && SplitStrides(args, strides, s) == strides
  {
    if args != [] {
      SplitNowhere(args[1..], strides[1..], s);
    }
  }

  /** Strides are given for all arguments. */
  predicate WellFormed(e: Expr) {
    match e
    case Iv(_) => true
    case Linearize(args, strides) => |args| == |strides| && AllWellFormed(args)
  }

  predicate AllWellFormed(args: seq<Expr>) {
    args == [] || (WellFormed(args[0]) && AllWellFormed(args[1..]))
  }

  /** Every linearization is split at its first term for the old variable. */
  function FixA(e: Expr, s: Split): (r: Expr)
    requires WellFormed(e)
    ensures WellFormed(r)
  {
    match e
    case Iv(_) => e
    case Linearize(args, strides) =>
      var inner := FixAAll(args, s);
      SplitWellFormed(inner, strides, s);
      Linearize(SplitArgs(inner, s), SplitStrides(inner, strides, s))
  }

  function FixAAll(args: seq<Expr>, s: Split): (r: seq<Expr>)
    requires AllWellFormed(args)
    ensures |r| == |args| && AllWellFormed(r)
  {
    if args == [] then [] else [FixA(args[0], s)] + FixAAll(args[1..], s)
  }

  lemma {:induction false} SplitWellFormed(args: seq<Expr>, strides: seq<int>, s: Split)
    requires |args| == |strides| && AllWellFormed(args)
    ensures |SplitArgs(args, s)| == |SplitStrides(args, strides, s)| && AllWellFormed(SplitArgs(args, s))
  {
    if args != [] {
      SplitWellFormed(args[1..], strides[1..], s);
      var r := SplitArgs(args, s);
      if args[0] == Iv(s.source) {
        assert r[1..][1..] == args[1..] && AllWellFormed(r[1..]);
      } else {
        assert r[1..] == SplitArgs(args[1..], s);
      }
    }
  }

  function Ivs(parts: seq<Part>): seq<Expr> {
    if parts == [] then [] else [Iv(parts[0].iv)] + Ivs(parts[1..])
  }

  function Sizes(parts: seq<Part>): (r: seq<int>)
  {
    if parts == [] then [] else [parts[0].size as int] + Sizes(parts[1..])
  }

  /** What stands for the old variable wherever it is still used. */
  function Whereabouts(s: Split): Expr {
    Linearize(Ivs(s.ancestry) + [Iv(s.tile), Iv(s.point)], Sizes(s.ancestry) + [s.size as int, 1])
  }

  function FixB(e: Expr, s: Split): (r: Expr)
    requires WellFormed(e)
    ensures WellFormed(r)
  {
    match e
    case Iv(iv) =>
      WhereaboutsWellFormed(s);
      if iv == s.source then Whereabouts(s) else e
    case Linearize(args, strides) => Linearize(FixBAll(args, s), strides)
  }

  lemma WhereaboutsWellFormed(s: Split)
    ensures WellFormed(Whereabouts(s))
  {
    var one, two := [Iv(s.point)], [Iv(s.tile), Iv(s.point)];
    assert two[1..] == one && one[1..] == [];
    assert AllWellFormed(one[1..]) && AllWellFormed(one);
    IvsWellFormed(s.ancestry, [Iv(s.tile), Iv(s.point)]);
  }

  lemma {:induction false} IvsWellFormed(parts: seq<Part>, rest: seq<Expr>)
    requires AllWellFormed(rest)
    ensures |Ivs(parts)| == |Sizes(parts)| && AllWellFormed(Ivs(parts) + rest)
  {
    if parts == [] {
      assert Ivs(parts) + rest == rest;
    } else {
      IvsWellFormed(parts[1..], rest);
      assert (Ivs(parts) + rest)[0] == Ivs(parts)[0] && (Ivs(parts) + rest)[1..] == Ivs(parts[1..]) + rest;
    }
  }

  function FixBAll(args: seq<Expr>, s: Split): (r: seq<Expr>)
    requires AllWellFormed(args)
    ensures |r| == |args| && AllWellFormed(r)
  {
    if args == [] then [] else [FixB(args[0], s)] + FixBAll(args[1..], s)
  }

  // ---------------------------------------------------------------------------------------------
  // When rewriting keeps values
  // ---------------------------------------------------------------------------------------------

  predicate Occurs(e: Expr, iv: nat) {
    match e
    case Iv(x) => x == iv
    case Linearize(args, _) => OccursAny(args, iv)
  }

  predicate OccursAny(args: seq<Expr>, iv: nat) {
    args != [] && (Occurs(args[0], iv) || OccursAny(args[1..], iv))
  }

  /** No linearization has two terms for the variable, and a term for it has stride one. */
  predicate Tame(e: Expr, iv: nat) {
    match e
    case Iv(_) => true
    case Linearize(args, strides) => AllTame(args, iv) && UnitTerm(args, strides, iv)
  }

  predicate AllTame(args: seq<Expr>, iv: nat) {
    args == [] || (Tame(args[0], iv) && AllTame(args[1..], iv))
  }

  predicate UnitTerm(args: seq<Expr>, strides: seq<int>, iv: nat) {
    args == [] || strides == []
    || if args[0] == Iv(iv) then strides[0] == 1 && Iv(iv) !in args[1..] else UnitTerm(args[1..], strides[1..], iv)
  }

  /** What the tile loops around contribute. */
  function Offset(parts: seq<Part>, env: Env): int {
    if parts == [] then 0 else Get(env, parts[0].iv) * parts[0].size + Offset(parts[1..], env)
  }

  /** The old variable has the value that tile and point give it. */
  predicate Agrees(s: Split, env: Env) {
    Joined(Get(env, s.source), Get(env, s.tile), s.size, Get(env, s.point))
  }

  /** `x` is point `q` of tile `t`. */
  predicate Joined(x: int, t: int, tile: nat, q: int) {
    x == Join(t, tile, q)
  }

  function Join(t: int, tile: nat, q: int): int {
    t * tile + q
  }

  lemma SumTwo(s: Split, args: seq<Expr>, strides: seq<int>, env: Env)
    ensures Sum([Iv(s.tile), Iv(s.point)] + args, [s.size as int, 1] + strides, env) ==
      Get(env, s.tile) * s.size + Get(env, s.point) + Sum(args, strides, env)
  {
    var a, b := [Iv(s.tile), Iv(s.point)] + args, [s.size as int, 1] + strides;
    assert a[1..] == [Iv(s.point)] + args && b[1..] == [1] + strides;
    assert a[1..][1..] == args && b[1..][1..] == strides;
    assert Sum(a[1..], b[1..], env) == Get(env, s.point) * 1 + Sum(args, strides, env);
  }

  lemma {:induction false} SumSplit(args: seq<Expr>, strides: seq<int>, s: Split, env: Env)
    requires |args| == |strides| && Agrees(s, env) && UnitTerm(args, strides, s.source)
    ensures |SplitArgs(args, s)| == |SplitStrides(args, strides, s)|
    ensures Sum(SplitArgs(args, s), SplitStrides(args, strides, s), env) == Sum(args, strides, env)
  {
    if args != [] {
      if args[0] == Iv(s.source) {
        SumTwo(s, args[1..], strides[1..], env);
      } else {
        SumSplit(args[1..], strides[1..], s, env);
        var a, b := SplitArgs(args, s), SplitStrides(args, strides, s);
        assert a[1..] == SplitArgs(args[1..], s) && b[1..] == SplitStrides(args[1..], strides[1..], s);
      }
    }
  }

  lemma {:induction false} FixAUnit(args: seq<Expr>, strides: seq<int>, s: Split, iv: nat)
    requires AllWellFormed(args)
    ensures UnitTerm(FixAAll(args, s), strides, iv) == UnitTerm(args, strides, iv)
    ensures Iv(iv) in FixAAll(args, s) <==> Iv(iv) in args
  {
    if args != [] {
      FixAUnit(args[1..], if strides == [] then [] else strides[1..], s, iv);
      assert FixAAll(args, s)[1..] == FixAAll(args[1..], s);
      assert args == [args[0]] + args[1..];
    }
  }

  lemma {:induction false} FixAKeeps(e: Expr, s: Split, env: Env)
    requires WellFormed(e) && Agrees(s, env) && Tame(e, s.source)
    ensures Value(FixA(e, s), env) == Value(e, env)
  {
    if e.Linearize? {
      FixAAllKeeps(e.args, e.strides, s, env);
      FixAUnit(e.args, e.strides, s, s.source);
      SumSplit(FixAAll(e.args, s), e.strides, s, env);
    }
  }

  lemma {:induction false} FixAAllKeeps(args: seq<Expr>, strides: seq<int>, s: Split, env: Env)
    requires AllWellFormed(args) && Agrees(s, env) && AllTame(args, s.source)
    ensures Sum(FixAAll(args, s), strides, env) == Sum(args, strides, env)
  {
    if args != [] && strides != [] {
      FixAKeeps(args[0], s, env);
      FixAAllKeeps(args[1..], strides[1..], s, env);
      assert FixAAll(args, s)[1..] == FixAAll(args[1..], s);
    }
  }

  lemma {:induction false} SumJoin(a: seq<Expr>, b: seq<int>, c: seq<Expr>, d: seq<int>, env: Env)
    requires |a| == |b|
    ensures Sum(a + c, b + d, env) == Sum(a, b, env) + Sum(c, d, env)
  {
    if a == [] {
      assert a + c == c && b + d == d;
    } else {
      SumJoin(a[1..], b[1..], c, d, env);
      assert (a + c)[1..] == a[1..] + c && (b + d)[1..] == b[1..] + d;
    }
  }

  lemma {:induction false} OffsetSum(parts: seq<Part>, env: Env)
    ensures |Ivs(parts)| == |Sizes(parts)| == |parts|
    ensures Sum(Ivs(parts), Sizes(parts), env) == Offset(parts, env)
  {
    if parts != [] {
      OffsetSum(parts[1..], env);
      assert Ivs(parts)[1..] == Ivs(parts[1..]) && Sizes(parts)[1..] == Sizes(parts[1..]);
    }
  }

  /** The replacement is the old value plus what the tile loops around contribute. */
  lemma WhereaboutsValue(s: Split, env: Env)
    requires Agrees(s, env)
    ensures Value(Whereabouts(s), env) == Offset(s.ancestry, env) + Get(env, s.source)
  {
    OffsetSum(s.ancestry, env);
    SumTwo(s, [], [], env);
    assert [Iv(s.tile), Iv(s.point)] + [] == [Iv(s.tile), Iv(s.point)] && [s.size as int, 1] + [] == [s.size as int, 1];
    SumJoin(Ivs(s.ancestry), Sizes(s.ancestry), [Iv(s.tile), Iv(s.point)], [s.size as int, 1], env);
  }

  lemma {:induction false} FixBKeeps(e: Expr, s: Split, env: Env)
    requires WellFormed(e) && Agrees(s, env) && (Offset(s.ancestry, env) == 0 || !Occurs(e, s.source))
    ensures Value(FixB(e, s), env) == Value(e, env)
  {
    if e.Linearize? {
      FixBAllKeeps(e.args, e.strides, s, env);
    } else {
      WhereaboutsValue(s, env);
    }
  }

  lemma {:induction false} FixBAllKeeps(args: seq<Expr>, strides: seq<int>, s: Split, env: Env)
    requires AllWellFormed(args) && Agrees(s, env) && (Offset(s.ancestry, env) == 0 || !OccursAny(args, s.source))
    ensures Sum(FixBAll(args, s), strides, env) == Sum(args, strides, env)
  {
    if args != [] && strides != [] {
      FixBKeeps(args[0], s, env);
      FixBAllKeeps(args[1..], strides[1..], s, env);
      assert FixBAll(args, s)[1..] == FixBAll(args[1..], s);
    }
  }

  /** The old variable is the only name that may occur directly, and it is still there at most once. */
  lemma {:induction false} SplitClears(args: seq<Expr>, strides: seq<int>, s: Split)
    requires |args| == |strides| && UnitTerm(args, strides, s.source) && s.source != s.tile && s.source != s.point
    requires forall a :: a in args ==> a == Iv(s.source) || !Occurs(a, s.source)
    ensures !OccursAny(SplitArgs(args, s), s.source)
  {
    if args != [] {
      if args[0] == Iv(s.source) {
        var r := [Iv(s.tile), Iv(s.point)] + args[1..];
        AbsentAny(args[1..], s.source);
        assert r[1..][1..] == args[1..] && r[1..][0] == Iv(s.point);
        assert !OccursAny(r[1..], s.source);
      } else {
        SplitClears(args[1..], strides[1..], s);
        assert args[0] in args;
        assert SplitArgs(args, s)[1..] == SplitArgs(args[1..], s);
      }
    }
  }

  lemma {:induction false} AbsentAny(args: seq<Expr>, iv: nat)
    requires Iv(iv) !in args && forall a :: a in args ==> a == Iv(iv) || !Occurs(a, iv)
    ensures !OccursAny(args, iv)
  {
    if args != [] {
      AbsentAny(args[1..], iv);
      assert args[0] in args;
    }
  }

  /** After the first fix the old variable is left only where it stands alone. */
  lemma {:induction false} FixAClears(e: Expr, s: Split)
    requires WellFormed(e) && Tame(e, s.source) && s.source != s.tile && s.source != s.point
    ensures e != Iv(s.source) ==> !Occurs(FixA(e, s), s.source)
  {
    if e.Linearize? {
      FixAAllClears(e.args, s);
      FixAUnit(e.args, e.strides, s, s.source);
      SplitClears(FixAAll(e.args, s), e.strides, s);
    }
  }

  lemma {:induction false} FixAAllClears(args: seq<Expr>, s: Split)
    requires AllWellFormed(args) && AllTame(args, s.source) && s.source != s.tile && s.source != s.point
    ensures forall a :: a in FixAAll(args, s) ==> a == Iv(s.source) || !Occurs(a, s.source)
  {
    if args != [] {
      FixAClears(args[0], s);
      FixAAllClears(args[1..], s);
    }
  }

  /** Both fixes together keep the value of a tame expression, unless the variable stands alone inside tile loops that have moved. */
  lemma FixesKeepValue(e: Expr, s: Split, env: Env)
    requires WellFormed(e) && Agrees(s, env) && Tame(e, s.source) && s.source != s.tile && s.source != s.point
    requires Offset(s.ancestry, env) == 0 || e != Iv(s.source)
    ensures Value(FixB(FixA(e, s), s), env) == Value(e, env)
  {
    FixAKeeps(e, s, env);
    FixAClears(e, s);
    FixBKeeps(FixA(e, s), s, env);
  }

  // ---------------------------------------------------------------------------------------------
  // When rewriting does not keep values
  // ---------------------------------------------------------------------------------------------

  /** The stride of the term that the first fix splits. */
  function FirstStride(args: seq<Expr>, strides: seq<int>, iv: nat): int {
    if args == [] || strides == [] then 1
    else if args[0] == Iv(iv) then strides[0]
    else FirstStride(args[1..], strides[1..], iv)
  }

  /** How far the first fix is off: the tile term gets the tile size as its stride, whatever the stride was. */
  lemma {:induction false} SplitError(args: seq<Expr>, strides: seq<int>, s: Split, env: Env)
    requires |args| == |strides| && Agrees(s, env)
    ensures |SplitArgs(args, s)| == |SplitStrides(args, strides, s)|
    ensures Sum(SplitArgs(args, s), SplitStrides(args, strides, s), env) ==
      Sum(args, strides, env) + (1 - FirstStride(args, strides, s.source)) * (Get(env, s.tile) * s.size)
  {
    if args != [] {
      if args[0] == Iv(s.source) {
        var a, b := [Iv(s.tile), Iv(s.point)] + args[1..], [s.size as int, strides[0]] + strides[1..];
        assert a[1..] == [Iv(s.point)] + args[1..] && b[1..] == [strides[0]] + strides[1..];
        assert a[1..][1..] == args[1..] && b[1..][1..] == strides[1..];
        var k, t, q := strides[0], Get(env, s.tile) * s.size, Get(env, s.point);
        assert Sum(a[1..], b[1..], env) == q * k + Sum(args[1..], strides[1..], env);
        assert t + q * k == (t + q) * k + (1 - k) * t;
      } else {
        SplitError(args[1..], strides[1..], s, env);
        var a, b := SplitArgs(args, s), SplitStrides(args, strides, s);
        assert a[1..] == SplitArgs(args[1..], s) && b[1..] == SplitStrides(args[1..], strides[1..], s);
      }
    }
  }

  /** An environment in which the old variable has the value of point `q` of tile `t`. */
  function At(s: Split, env: Env, t: nat, q: nat): Env {
    env[s.tile := t][s.point := q][s.source := t * s.size + q]
  }

  /** The first fix keeps the value of the linearization in tile `t`, at point `q`. */
  predicate FixAKeepsAt(args: seq<Expr>, strides: seq<int>, s: Split, env: Env, t: nat, q: nat)
    requires |args| == |strides|
  {
    Sum(SplitArgs(args, s), SplitStrides(args, strides, s), At(s, env, t, q)) == Sum(args, strides, At(s, env, t, q))
  }

  lemma FixAAtTile(args: seq<Expr>, strides: seq<int>, s: Split, env: Env, t: nat, q: nat)
    requires |args| == |strides| && s.size > 0 && s.source != s.tile && s.source != s.point && s.tile != s.point
    ensures FixAKeepsAt(args, strides, s, env, t, q) <==> FirstStride(args, strides, s.source) == 1 || t == 0
  {
    var k, e := FirstStride(args, strides, s.source), At(s, env, t, q);
    AtAgrees(s, env, t, q);
    SplitError(args, strides, s, e);
    ProductZero(1 - k, t, s.size);
  }

  lemma AtAgrees(s: Split, env: Env, t: nat, q: nat)
    requires s.source != s.tile && s.source != s.point && s.tile != s.point
    ensures Agrees(s, At(s, env, t, q)) && Get(At(s, env, t, q), s.tile) == t
  {
  }

  lemma ProductZero(a: int, t: nat, size: nat)
    requires size > 0
    ensures a * (t * size) == 0 <==> a == 0 || t == 0
  {
    if a != 0 && t != 0 {
      NonZero(t, size);
      NonZero(a, t * size);
    }
  }

  lemma NonZero(a: int, b: int)
    requires a != 0 && b != 0
    ensures a * b != 0
  {
  }

  /**
   * The first fix keeps the value of a linearization in all tiles exactly when the term it splits has
   * stride one, or there is a single tile.
   */
  lemma FixAExactIff(args: seq<Expr>, strides: seq<int>, s: Split, env: Env, tiles: nat)
    requires |args| == |strides| && s.size > 0 && s.source != s.tile && s.source != s.point && s.tile != s.point
    ensures (forall t: nat, q: nat :: t < tiles ==> FixAKeepsAt(args, strides, s, env, t, q))
      <==> (FirstStride(args, strides, s.source) == 1 || tiles <= 1)
  {
    forall t: nat, q: nat
      ensures FixAKeepsAt(args, strides, s, env, t, q) <==> FirstStride(args, strides, s.source) == 1 || t == 0
    {
      FixAAtTile(args, strides, s, env, t, q);
    }
    if tiles > 1 {
      FixAAtTile(args, strides, s, env, 1, 0);
    }
  }

  /** Each tile loop is inside the range that the tile loops before it leave. */
  ghost predicate InTiles(parts: seq<Part>, total: nat, env: Env) {
    forall i :: 0 <= i < |parts| && parts[i].size > 0 ==>
      0 <= Get(env, parts[i].iv) < CeilDivide(Shrink(parts[..i], total, env), parts[i].size)
  }

  ghost predicate ProperParts(parts: seq<Part>) {
    && (forall i :: 0 <= i < |parts| ==> parts[i].size > 0)
    && forall i, j :: 0 <= i < j < |parts| ==> parts[i].iv != parts[j].iv
  }

  lemma OneTile(total: nat, tile: nat)
    requires 0 < total <= tile
    ensures CeilDivide(total, tile) == 1 && Clamp(total, 0, tile) == total
  {
    DivModUnique(total + tile - 1, tile, 1, total - 1);
  }

  lemma TwoTiles(total: nat, tile: nat)
    requires 0 < tile < total
    ensures CeilDivide(total, tile) > 1 && Clamp(total, 1, tile) > 0
  {
    var q := CeilDivide(total, tile);
    assert total + tile - 1 == q * tile + (total + tile - 1) % tile;
    if q <= 1 {
      MulMonotone(q, 1, tile);
    }
  }

  /** In the first tile something is left, in the second one if there is one. */
  lemma SomeLeft(size: nat, tile: nat)
    requires size > 0 && tile > 0
    ensures 0 < CeilDivide(size, tile) && Clamp(size, 0, tile) > 0 && (size <= tile ==> Clamp(size, 0, tile) == size)
    ensures tile < size ==> 1 < CeilDivide(size, tile) && Clamp(size, 1, tile) > 0
  {
    if size <= tile {
      OneTile(size, tile);
    } else {
      TwoTiles(size, tile);
    }
  }

  /** Tiles no smaller than the whole leave the tile loops no choice. */
  lemma {:induction false} BigTiles(parts: seq<Part>, total: nat, env: Env, n: nat)
    requires ProperParts(parts) && total > 0 && InTiles(parts, total, env) && n <= |parts|
    requires forall i :: 0 <= i < |parts| ==> total <= parts[i].size
    ensures Shrink(parts[..n], total, env) == total && forall i :: 0 <= i < n ==> Get(env, parts[i].iv) == 0
  {
    if n > 0 {
      BigTiles(parts, total, env, n - 1);
      var last := parts[n - 1];
      OneTile(total, last.size);
      assert parts[..n][..n - 1] == parts[..n - 1] && parts[..n][n - 1] == last;
    }
  }

  lemma {:induction false} ZeroOffset(parts: seq<Part>, env: Env)
    requires forall i :: 0 <= i < |parts| ==> Get(env, parts[i].iv) == 0
    ensures Offset(parts, env) == 0
  {
    if parts != [] {
      ZeroOffset(parts[1..], env);
    }
  }

  /** One step into the second tile of loop `j`, and nowhere else. */
  lemma {:induction false} SecondTile(parts: seq<Part>, total: nat, j: nat, n: nat)
    requires ProperParts(parts) && total > 0 && j < |parts| && n <= |parts| && parts[j].size < total
    requires forall i :: 0 <= i < j ==> total <= parts[i].size
    ensures var env := map[parts[j].iv := 1];
      && Shrink(parts[..n], total, env) > 0 && (n <= j ==> Shrink(parts[..n], total, env) == total)
      && forall i :: 0 <= i < n ==> 0 <= Get(env, parts[i].iv) < CeilDivide(Shrink(parts[..i], total, env), parts[i].size)
  {
    if n > 0 {
      SecondTile(parts, total, j, n - 1);
      var env, last := map[parts[j].iv := 1], parts[n - 1];
      assert parts[..n][..n - 1] == parts[..n - 1] && parts[..n][n - 1] == last;
      assert Get(env, last.iv) == if n - 1 == j then 1 else 0;
      SomeLeft(Shrink(parts[..n - 1], total, env), last.size);
    }
  }

  lemma {:induction false} OneOffset(parts: seq<Part>, j: nat, iv: nat)
    requires ProperParts(parts) && j < |parts| && parts[j].iv == iv
    ensures Offset(parts, map[iv := 1]) == parts[j].size
  {
    var env := map[iv := 1];
    if j == 0 {
      forall i | 0 <= i < |parts[1..]|
        ensures Get(env, parts[1..][i].iv) == 0
      {
        assert parts[1..][i] == parts[i + 1];
      }
      ZeroOffset(parts[1..], env);
    } else {
      assert Get(env, parts[0].iv) == 0;
      assert forall i :: 0 <= i < |parts[1..]| ==> parts[1..][i] == parts[i + 1];
      OneOffset(parts[1..], j - 1, iv);
    }
  }

  /** The old variable, where it stands alone, keeps its value under the second fix. */
  ghost predicate FixBKeepsAt(s: Split, env: Env) {
    Value(FixB(Iv(s.source), s), env) == Value(Iv(s.source), env)
  }

  /**
   * A variable that stands alone keeps its value under the second fix in all iterations exactly when no
   * tile around is smaller than the whole: then each tile loop around runs once.
   */
  lemma FixBExactIff(s: Split, total: nat)
    requires ProperParts(s.ancestry) && total > 0
    requires forall i :: 0 <= i < |s.ancestry| ==> s.ancestry[i].iv !in {s.source, s.tile, s.point}
    ensures (forall env :: InTiles(s.ancestry, total, env) && Agrees(s, env) ==> FixBKeepsAt(s, env))
      <==> forall i :: 0 <= i < |s.ancestry| ==> total <= s.ancestry[i].size
  {
    if forall i :: 0 <= i < |s.ancestry| ==> total <= s.ancestry[i].size {
      forall env | InTiles(s.ancestry, total, env) && Agrees(s, env)
        ensures FixBKeepsAt(s, env)
      {
        BigTiles(s.ancestry, total, env, |s.ancestry|);
        ZeroOffset(s.ancestry, env);
        WhereaboutsValue(s, env);
      }
    } else {
      var j := FirstSmall(s.ancestry, total);
      var env := map[s.ancestry[j].iv := 1];
      SecondTile(s.ancestry, total, j, |s.ancestry|);
      OneOffset(s.ancestry, j, s.ancestry[j].iv);
      assert InTiles(s.ancestry, total, env) && Agrees(s, env);
      WhereaboutsValue(s, env);
      assert !FixBKeepsAt(s, env);
    }
  }

  ghost function FirstSmall(parts: seq<Part>, total: nat): (j: nat)
    requires exists i :: 0 <= i < |parts| && parts[i].size < total
    ensures j < |parts| && parts[j].size < total && forall i :: 0 <= i < j ==> total <= parts[i].size
  {
    if parts[0].size < total then 0
    else
      assert forall i :: 1 <= i < |parts| ==> parts[i] == parts[1..][i - 1];
      1 + FirstSmall(parts[1..], total)
  }
}
