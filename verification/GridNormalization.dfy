/** Flattening a grid of compute tiles to one dimension, and reading coordinates back from a flat index. */
module GridNormalization {
  import opened Arithmetic

  /** Row-major index of the coordinates. */
  function Linear(coords: seq<int>, dims: seq<int>): int
    requires |coords| == |dims|
  {
    if dims == [] then 0 else coords[0] * Product(dims[1..]) + Linear(coords[1..], dims[1..])
  }

  predicate InGrid(coords: seq<int>, dims: seq<int>) {
    |coords| == |dims| && forall i :: 0 <= i < |dims| ==> 0 <= coords[i] < dims[i]
  }

  /** Every coordinate with its modulo, the top one included. */
  function RowMajor(flat: int, dims: seq<int>): (coords: seq<int>)
    requires AllPositive(dims)
    ensures |coords| == |dims|
  {
    if dims == [] then []
    else [flat / Product(dims[1..]) % dims[0]] + RowMajor(flat, dims[1..])
  }

  lemma {:induction false} RowMajorAt(flat: int, dims: seq<int>, i: nat)
    requires AllPositive(dims) && i < |dims|
    ensures RowMajor(flat, dims)[i] == flat / Product(dims[i + 1..]) % dims[i]
  {
    if i > 0 {
      RowMajorAt(flat, dims[1..], i - 1);
      assert dims[1..][i..] == dims[i + 1..];
    }
  }

  /** Splitting off the last `s` values, then `d` groups of them. */
  lemma SplitModulo(x: int, d: int, s: int)
    requires d > 0 && s > 0
    ensures d * s > 0 && x / s % d * s + x % s == x % (d * s)
  {
    var q, r := x / s, x % s;
    var a, b := q / d, q % d;
    assert x == q * s + r && q == a * d + b;
    assert q * s == a * (d * s) + b * s by {
      assert (a * d + b) * s == a * (d * s) + b * s;
    }
    MulMonotone(b, d - 1, s);
    MulMonotone(0, b, s);
    assert (d - 1) * s == d * s - s;
    MulMonotone(1, d, s);
    DivModUnique(x, d * s, a, b * s + r);
  }

  /** The coordinates stand for the flat index, up to the size of the grid. */
  lemma {:induction false} RowMajorLinear(flat: int, dims: seq<int>)
    requires AllPositive(dims)
    ensures Linear(RowMajor(flat, dims), dims) == flat % Product(dims) && InGrid(RowMajor(flat, dims), dims)
  {
    if dims != [] {
      var rest := dims[1..];
      RowMajorLinear(flat, rest);
      SplitModulo(flat, dims[0], Product(rest));
      assert RowMajor(flat, dims)[1..] == RowMajor(flat, rest);
    } else {
      DivModUnique(flat, 1, flat, 0);
    }
  }

  /** Whole multiples of the grid size do not change the coordinates. */
  lemma {:induction false} RowMajorShift(x: int, q: int, dims: seq<int>)
    requires AllPositive(dims)
    ensures RowMajor(x + q * Product(dims), dims) == RowMajor(x, dims)
    decreases |dims|
  {
    if dims != [] {
      var d, rest := dims[0], dims[1..];
      var s := Product(rest);
      assert q * (d * s) == (q * d) * s;
      RowMajorShift(x, q * d, rest);
      ShiftTop(x, q, d, s);
    }
  }

  lemma ShiftTop(x: int, q: int, d: int, s: int)
    requires d > 0 && s > 0
    ensures (x + q * d * s) / s % d == x / s % d
  {
    var a, b := x / s, x % s;
    assert x + q * d * s == (a + q * d) * s + b;
    DivModUnique(x + q * d * s, s, a + q * d, b);
    var e, f := a / d, a % d;
    assert a + q * d == (e + q) * d + f;
    DivModUnique(a + q * d, d, e + q, f);
  }

  lemma {:induction false} LinearInRange(coords: seq<int>, dims: seq<int>)
    requires AllPositive(dims) && InGrid(coords, dims)
    ensures 0 <= Linear(coords, dims) < Product(dims)
  {
    if dims != [] {
      var s := Product(dims[1..]);
      LinearInRange(coords[1..], dims[1..]);
      MulMonotone(0, coords[0], s);
      MulMonotone(coords[0], dims[0] - 1, s);
      assert (dims[0] - 1) * s == dims[0] * s - s;
    }
  }

  /** Coordinates are read back from the index they were turned into. */
  lemma {:induction false} LinearRowMajor(coords: seq<int>, dims: seq<int>)
    requires AllPositive(dims) && InGrid(coords, dims)
    ensures RowMajor(Linear(coords, dims), dims) == coords
  {
    if dims != [] {
      var d, rest, s := dims[0], dims[1..], Product(dims[1..]);
      var low := Linear(coords[1..], rest);
      LinearInRange(coords[1..], rest);
      LinearRowMajor(coords[1..], rest);
      RowMajorShift(low, coords[0], rest);
      DivModUnique(coords[0] * s + low, s, coords[0], low);
      DivModUnique(coords[0], d, 0, coords[0]);
    }
  }

  lemma TopNeedsNoModulo(flat: int, dims: seq<int>)
    requires AllPositive(dims) && dims != [] && 0 <= flat < Product(dims)
    ensures flat / Product(dims[1..]) % dims[0] == flat / Product(dims[1..])
  {
    var d, s := dims[0], Product(dims[1..]);
    QuotientBelow(flat, d, s);
    DivModUnique(flat / s, d, 0, flat / s);
  }

  lemma QuotientBelow(x: int, d: int, s: int)
    requires d > 0 && s > 0 && 0 <= x < d * s
    ensures 0 <= x / s < d
  {
    var q, r := x / s, x % s;
    assert x == q * s + r;
    if q >= d {
      MulMonotone(d, q, s);
    }
    if q < 0 {
      MulMonotone(q, -1, s);
    }
  }

  /** For every dimension the product of the dimensions inside it, filled from the last one down. */
  method SuffixProducts(dims: seq<int>) returns (products: seq<int>)
    requires AllPositive(dims)
    ensures |products| == |dims|
    ensures forall j :: 0 <= j < |dims| ==> products[j] == Product(dims[j + 1..]) && products[j] > 0
  {
    var k := |dims|;
    var suffix := new int[k](_ => 1);
    var i := k - 2;
    assert k > 0 ==> dims[k..] == [];
    while i >= 0
      invariant -2 <= i <= k - 2
      invariant forall j :: 0 <= j < k && i < j ==> suffix[j] == Product(dims[j + 1..])
      invariant forall j :: 0 <= j <= i ==> suffix[j] == 1
    {
      assert dims[i + 1..][0] == dims[i + 1] && dims[i + 1..][1..] == dims[i + 2..];
      suffix[i] := suffix[i + 1] * dims[i + 1];
      i := i - 1;
    }
    products := suffix[..];
    forall j | 0 <= j < |dims|
      ensures products[j] > 0
    {
      assert AllPositive(dims[j + 1..]);
    }
  }

  /**
   * Row-major coordinates of a flat index, divisions by one and the modulo of the top coordinate left
   * out. They are in range and stand for the index, and they are the only ones that do.
   */
  method DelinearizeRowMajor(flat: int, dims: seq<int>) returns (coords: seq<int>)
    requires AllPositive(dims) && 0 <= flat < Product(dims)
    ensures InGrid(coords, dims) && Linear(coords, dims) == flat
    ensures forall c :: InGrid(c, dims) && Linear(c, dims) == flat ==> c == coords
  {
    var suffix := SuffixProducts(dims);
    coords := [];
    var j := 0;
    while j < |dims|
      invariant 0 <= j == |coords| <= |dims|
      invariant forall m :: 0 <= m < j ==> coords[m] == RowMajor(flat, dims)[m]
    {
      RowMajorAt(flat, dims, j);
      if j == 0 {
        TopNeedsNoModulo(flat, dims);
      }
      var v := flat;
      if suffix[j] != 1 {
        v := v / suffix[j];
      }
      if j != 0 {
        v := v % dims[j];
      }
      coords := coords + [v];
      j := j + 1;
    }
    assert coords == RowMajor(flat, dims);
    RowMajorLinear(flat, dims);
    DivModUnique(flat, Product(dims), 0, flat);
    forall c | InGrid(c, dims) && Linear(c, dims) == flat
      ensures c == coords
    {
      LinearRowMajor(c, dims);
    }
  }

  datatype Outcome = Failed | Unchanged | Flat(size: int)

  /** Flattens the grid of a function whose tile-id operations have the given numbers of results. */
  method FlattenGrid(grid: seq<int>, resultCounts: seq<nat>) returns (outcome: Outcome)
    ensures outcome.Failed? <==>
      grid == [] || !AllPositive(grid) || (|grid| > 1 && exists i :: 0 <= i < |resultCounts| && resultCounts[i] != |grid|)
    ensures outcome.Unchanged? <==> |grid| == 1 && AllPositive(grid)
    ensures outcome.Flat? ==> outcome.size == Product(grid)
  {
    if |grid| == 0 {
      return Failed;
    }
    var i := 0;
    while i < |grid|
      invariant 0 <= i <= |grid| && AllPositive(grid[..i])
    {
      if grid[i] <= 0 {
        return Failed;
      }
      i := i + 1;
    }
    if |grid| == 1 {
      return Unchanged;
    }
    var flatSize := GridSize(grid);
    var j := 0;
    while j < |resultCounts|
      invariant 0 <= j <= |resultCounts| && forall m :: 0 <= m < j ==> resultCounts[m] == |grid|
    {
      if resultCounts[j] != |grid| {
        return Failed;
      }
      j := j + 1;
    }
    outcome := Flat(flatSize);
  }

  method GridSize(grid: seq<int>) returns (size: int)
    ensures size == Product(grid)
  {
    size := 1;
    var i := 0;
    assert grid[0..] == grid;
    while i < |grid|
      invariant 0 <= i <= |grid| && size * Product(grid[i..]) == Product(grid)
    {
      assert grid[i..][0] == grid[i] && grid[i..][1..] == grid[i + 1..];
      Regroup(size, grid[i], Product(grid[i + 1..]));
      size := size * grid[i];
      i := i + 1;
    }
    assert grid[i..] == [];
  }

  lemma Regroup(a: int, b: int, c: int)
    ensures a * (b * c) == a * b * c
  {
  }
}
