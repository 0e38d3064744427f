/**
 * Tiling whole loop nests, any number of times. Every tiling step is undone by adding up tile and point,
 * so that the tiled nest visits each iteration of the original nest exactly once, and computes the same
 * indices there.
 */
module TileNest {
  import opened Sequences
  import opened TileNormalized

  datatype Tiled = Tiled(tileLoops: seq<Loop>, pointLoops: seq<Loop>, uses: seq<Expr>)

  function Ancestry(upper: Size): seq<Part> {
    if upper.DeriveSize? then upper.parts else []
  }

  function Total(upper: Size): Size {
    if upper.DeriveSize? then upper.total else upper
  }

  function SplitOf(loops: seq<Loop>, sizes: seq<nat>, next: nat, i: nat): Split
    requires i < |loops| == |sizes|
  {
    Split(loops[i].iv, next + i, next + |loops| + i, sizes[i], Ancestry(loops[i].upper))
  }

  function TileLoop(loops: seq<Loop>, sizes: seq<nat>, next: nat, i: nat): Loop
    requires i < |loops| == |sizes|
  {
    Loop(next + i, 0, CeilDiv(loops[i].upper, sizes[i]), 1)
  }

  function PointLoop(loops: seq<Loop>, sizes: seq<nat>, next: nat, i: nat): Loop
    requires i < |loops| == |sizes|
  {
    Loop(next + |loops| + i, 0, DeriveSize(Ancestry(loops[i].upper) + [Part(next + i, sizes[i])], Total(loops[i].upper)), 1)
  }

  /** A use after the fixes for the first `n` loops. */
  function Fixed(e: Expr, loops: seq<Loop>, sizes: seq<nat>, next: nat, n: nat): (r: Expr)
    requires WellFormed(e) && n <= |loops| == |sizes|
    ensures WellFormed(r)
  {
    if n == 0 then e
    else
      var s := SplitOf(loops, sizes, next, n - 1);
      FixB(FixA(Fixed(e, loops, sizes, next, n - 1), s), s)
  }

  ghost predicate TiledFrom(loops: seq<Loop>, sizes: seq<nat>, uses: seq<Expr>, next: nat, r: Tiled)
    requires |loops| == |sizes| && forall j :: 0 <= j < |uses| ==> WellFormed(uses[j])
  {
    && |r.tileLoops| == |r.pointLoops| == |loops| && |r.uses| == |uses|
    && (forall i :: 0 <= i < |loops| ==> r.tileLoops[i] == TileLoop(loops, sizes, next, i))
    && (forall i :: 0 <= i < |loops| ==> r.pointLoops[i] == PointLoop(loops, sizes, next, i))
    && forall j :: 0 <= j < |uses| ==> r.uses[j] == Fixed(uses[j], loops, sizes, next, |loops|)
  }

  predicate Normalized(loops: seq<Loop>) {
    forall i :: 0 <= i < |loops| ==> loops[i].lower == 0 && loops[i].step == 1
  }

  /** Splits every linearization, inner ones first. */
  method FixLinearizations(e: Expr, s: Split) returns (r: Expr)
    requires WellFormed(e)
    ensures r == FixA(e, s)
  {
    match e {
      case Iv(_) => r := e;
      case Linearize(args, strides) =>
        var inner := FixLinearizationsIn(args, s);
        var ivs, factors := SplitTerms(inner, strides, s);
        r := Linearize(ivs, factors);
    }
  }

  method FixLinearizationsIn(args: seq<Expr>, s: Split) returns (r: seq<Expr>)
    requires AllWellFormed(args)
    ensures r == FixAAll(args, s)
  {
    if args == [] {
      return [];
    }
    var first := FixLinearizations(args[0], s);
    var rest := FixLinearizationsIn(args[1..], s);
    r := [first] + rest;
  }

  /** Tiles a perfect nest, or fails when a loop is not normalized or the sizes do not match the loops. */
  method CustomTileNormalizedPerfectlyNested(loops: seq<Loop>, sizes: seq<nat>, uses: seq<Expr>, next: nat)
    returns (result: Option<Tiled>)
    requires forall j :: 0 <= j < |uses| ==> WellFormed(uses[j])
    ensures result.Some? <==> loops != [] && |sizes| == |loops| && Normalized(loops)
    ensures result.Some? ==> TiledFrom(loops, sizes, uses, next, result.value)
  {
    if |loops| == 0 || |sizes| != |loops| {
      return None;
    }
    var k := 0;
    while k < |loops|
      invariant 0 <= k <= |loops| && forall i :: 0 <= i < k ==> loops[i].lower == 0 && loops[i].step == 1
    {
      if loops[k].lower != 0 || loops[k].step != 1 {
        return None;
      }
      k := k + 1;
    }
    var tileLoops, pointLoops := [], [];
    var i := 0;
    while i < |loops|
      invariant 0 <= i == |tileLoops| == |pointLoops| <= |loops|
      invariant forall j :: 0 <= j < i ==> tileLoops[j] == TileLoop(loops, sizes, next, j)
      invariant forall j :: 0 <= j < i ==> pointLoops[j] == PointLoop(loops, sizes, next, j)
    {
      var ancestry, total := Ancestry(loops[i].upper), Total(loops[i].upper);
      tileLoops := tileLoops + [Loop(next + i, 0, CeilDiv(loops[i].upper, sizes[i]), 1)];
      pointLoops := pointLoops + [Loop(next + |loops| + i, 0, DeriveSize(ancestry + [Part(next + i, sizes[i])], total), 1)];
      i := i + 1;
    }
    var fixed := FixUses(loops, sizes, uses, next);
    result := Some(Tiled(tileLoops, pointLoops, fixed));
  }

  /** Rewrites all uses for one loop after the other. */
  method FixUses(loops: seq<Loop>, sizes: seq<nat>, uses: seq<Expr>, next: nat) returns (fixed: seq<Expr>)
    requires |loops| == |sizes| && forall j :: 0 <= j < |uses| ==> WellFormed(uses[j])
    ensures |fixed| == |uses| && forall j :: 0 <= j < |uses| ==> fixed[j] == Fixed(uses[j], loops, sizes, next, |loops|)
  {
    fixed := uses;
    var i := 0;
    while i < |loops|
      invariant 0 <= i <= |loops| && |fixed| == |uses|
      invariant forall j :: 0 <= j < |uses| ==> fixed[j] == Fixed(uses[j], loops, sizes, next, i)
    {
      var s := SplitOf(loops, sizes, next, i);
      fixed := FixOneLoop(fixed, s);
      i := i + 1;
    }
  }

  method FixOneLoop(uses: seq<Expr>, s: Split) returns (fixed: seq<Expr>)
    requires forall j :: 0 <= j < |uses| ==> WellFormed(uses[j])
    ensures |fixed| == |uses| && forall j :: 0 <= j < |uses| ==> fixed[j] == FixB(FixA(uses[j], s), s)
  {
    fixed := [];
    var j := 0;
    while j < |uses|
      invariant 0 <= j == |fixed| <= |uses| && forall k :: 0 <= k < j ==> fixed[k] == FixB(FixA(uses[k], s), s)
    {
      var a := FixLinearizations(uses[j], s);
      fixed := fixed + [FixB(a, s)];
      j := j + 1;
    }
  }
}
