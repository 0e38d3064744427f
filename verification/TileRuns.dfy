/** Tiling a nest again and again. */
module TileRuns {
  import opened Sequences
  import opened TileNormalized
  import opened TileNest
  import opened TileUses
  import opened TileVisits

  lemma {:induction false} SizeWithinMore(s: Size, names: set<nat>, more: set<nat>)
    requires SizeWithin(s, names) && names <= more
    ensures SizeWithin(s, more)
  {
    match s {
      case Whole(_) =>
      case DeriveSize(_, total) => SizeWithinMore(total, names, more);
      case CeilDiv(of, _) => SizeWithinMore(of, names, more);
    }
  }

  lemma PointBoundNames(n: Nest, sizes: seq<nat>, next: nat, i: nat)
    requires Named(n, next) && |sizes| == |n.points| && i < |n.points|
    ensures SizeWithin(PointLoop(n.points, sizes, next, i).upper, Names(n.outer) + Range(next, next + |n.points|))
    ensures SizeWithin(TileLoop(n.points, sizes, next, i).upper, Names(n.outer) + Range(next, next + |n.points|))
  {
    var u, more := n.points[i].upper, Names(n.outer) + Range(next, next + |n.points|);
    SizeWithinMore(u, Names(n.outer), more);
    assert SizeWithin(Total(u), more);
  }

  /** A tiled nest can be tiled again. */
  lemma RoundNamed(n: Nest, sizes: seq<nat>, next: nat, n': Nest)
    requires Named(n, next) && Round(n, sizes, next, n')
    ensures Named(n', next + 2 * |n.points|)
  {
    RoundLoops(n, sizes, next, n');
    RoundNames(n, sizes, next, n');
    OuterSizes(n, sizes, next, n');
    RoundNormalized(n, sizes, next, n');
    forall i | 0 <= i < |n'.points|
      ensures SizeWithin(n'.points[i].upper, Names(n'.outer))
    {
      PointBoundNames(n, sizes, next, i);
    }
  }

  lemma RoundNormalized(n: Nest, sizes: seq<nat>, next: nat, n': Nest)
    requires Round(n, sizes, next, n')
    ensures Normalized(n'.points)
  {
    RoundLoops(n, sizes, next, n');
    forall i | 0 <= i < |n'.points| ensures n'.points[i].lower == 0 && n'.points[i].step == 1 {
      assert n'.points[i] == PointLoop(n.points, sizes, next, i);
    }
  }

  lemma OuterSizes(n: Nest, sizes: seq<nat>, next: nat, n': Nest)
    requires Named(n, next) && Round(n, sizes, next, n')
    ensures forall j :: 0 <= j < |n'.outer| ==> SizeWithin(n'.outer[j].upper, Names(n'.outer))
  {
    RoundLoops(n, sizes, next, n');
    RoundNames(n, sizes, next, n');
    forall j | 0 <= j < |n'.outer|
      ensures SizeWithin(n'.outer[j].upper, Names(n'.outer))
    {
      if j < |n.outer| {
        assert n'.outer[j] == n.outer[j];
        SizeWithinMore(n.outer[j].upper, Names(n.outer), Names(n'.outer));
      } else {
        assert n'.outer[|n.outer| + (j - |n.outer|)] == TileLoop(n.points, sizes, next, j - |n.outer|);
        PointBoundNames(n, sizes, next, j - |n.outer|);
      }
    }
  }

  /** After the fix of its loop a use is tame in the new point variable, and stays so. */
  lemma {:induction false} FixedTamePoint(n: Nest, sizes: seq<nat>, next: nat, e: Expr, m: nat, i: nat)
    requires Named(n, next) && |sizes| == |n.points| && UseRewritable(n, e) && i < m <= |n.points|
    ensures var f := Fixed(e, n.points, sizes, next, m);
      Tame(f, next + |n.points| + i) && f != Iv(next + |n.points| + i)
  {
    if m == i + 1 {
      FixedTameFirst(n, sizes, next, e, i);
    } else {
      FixedTamePoint(n, sizes, next, e, m - 1, i);
      ForeignPoint(n, sizes, next, m - 1, i);
      FixesTame(Fixed(e, n.points, sizes, next, m - 1), SplitOf(n.points, sizes, next, m - 1), next + |n.points| + i);
    }
  }

  lemma FixedTameFirst(n: Nest, sizes: seq<nat>, next: nat, e: Expr, i: nat)
    requires Named(n, next) && |sizes| == |n.points| && UseRewritable(n, e) && i < |n.points|
    ensures var f := Fixed(e, n.points, sizes, next, i + 1);
      Tame(f, next + |n.points| + i) && f != Iv(next + |n.points| + i)
  {
    FixedTame(n, sizes, next, e, i, i);
    FixedWithin(n, sizes, next, e, i);
    NewPointIsNew(n, next, i);
    FixesTamePoint(Fixed(e, n.points, sizes, next, i), SplitOf(n.points, sizes, next, i), NamesAfter(n, next, i));
  }

  lemma NewPointIsNew(n: Nest, next: nat, i: nat)
    requires Named(n, next) && i < |n.points|
    ensures next + |n.points| + i !in NamesAfter(n, next, i)
    ensures next + |n.points| + i !in PartNames(Ancestry(n.points[i].upper)) && n.points[i].iv < next
  {
    AncestryNames(n, next, i);
    assert n.points[i].iv in Names(n.points);
    forall v | v in Names(n.points[i..])
      ensures v < next
    {
      var k :| 0 <= k < |n.points[i..]| && n.points[i..][k].iv == v;
      assert n.points[i + k].iv in Names(n.points);
    }
  }

  lemma RoundRewritable(n: Nest, sizes: seq<nat>, next: nat, n': Nest)
    requires Named(n, next) && Rewritable(n) && Round(n, sizes, next, n')
    ensures Rewritable(n')
  {
    RoundLoops(n, sizes, next, n');
    forall k | 0 <= k < |n'.uses|
      ensures UseRewritable(n', n'.uses[k])
    {
      FixedRewritable(n, sizes, next, n', k);
    }
  }

  lemma FixedRewritable(n: Nest, sizes: seq<nat>, next: nat, n': Nest, k: nat)
    requires Named(n, next) && Rewritable(n) && Round(n, sizes, next, n') && k < |n.uses|
    ensures k < |n'.uses| && UseRewritable(n', n'.uses[k])
  {
    RoundLoops(n, sizes, next, n');
    var f := Fixed(n.uses[k], n.points, sizes, next, |n.points|);
    assert UseRewritable(n, n.uses[k]) && n'.uses[k] == f;
    FixedInside(n, sizes, next, n', n.uses[k]);
    forall i | 0 <= i < |n'.points|
      ensures Tame(f, n'.points[i].iv) && f != Iv(n'.points[i].iv)
    {
      FixedTamePoint(n, sizes, next, n.uses[k], |n.points|, i);
      assert n'.points[i] == PointLoop(n.points, sizes, next, i);
    }
  }

  lemma FixedInside(n: Nest, sizes: seq<nat>, next: nat, n': Nest, e: Expr)
    requires Named(n, next) && Round(n, sizes, next, n') && UseRewritable(n, e)
    ensures Within(Fixed(e, n.points, sizes, next, |n.points|), Names(n'.outer) + Names(n'.points))
  {
    RoundNames(n, sizes, next, n');
    FixedWithin(n, sizes, next, e, |n.points|);
    AllFixed(n, next);
    WithinMore(Fixed(e, n.points, sizes, next, |n.points|), NamesAfter(n, next, |n.points|), NewNames(n, next));
  }

  // ---------------------------------------------------------------------------------------------
  // Any number of tilings
  // ---------------------------------------------------------------------------------------------

  /** First new name of tiling `k`. */
  ghost function NextAt(ns: seq<Nest>, next: nat, k: nat): nat
    requires ns != []
  {
    next + 2 * |ns[0].points| * k
  }

  /** Each nest is the one before it, tiled. */
  ghost predicate Run(ns: seq<Nest>, rounds: seq<seq<nat>>, next: nat) {
    && |ns| == |rounds| + 1 && Named(ns[0], next) && Rewritable(ns[0])
    && forall k :: 0 <= k < |rounds| ==> RoundAt(ns, rounds, next, k)
  }

  ghost predicate RoundAt(ns: seq<Nest>, rounds: seq<seq<nat>>, next: nat, k: nat)
    requires k < |rounds| && |ns| == |rounds| + 1
  {
    Round(ns[k], rounds[k], NextAt(ns, next, k), ns[k + 1])
  }

  lemma {:induction false} RunKeeps(ns: seq<Nest>, rounds: seq<seq<nat>>, next: nat, k: nat)
    requires Run(ns, rounds, next) && k < |ns|
    ensures Named(ns[k], NextAt(ns, next, k)) && Rewritable(ns[k])
    ensures |ns[k].points| == |ns[0].points| && |ns[k].uses| == |ns[0].uses|
  {
    if k > 0 {
      RunKeeps(ns, rounds, next, k - 1);
      var at := NextAt(ns, next, k - 1);
      assert RoundAt(ns, rounds, next, k - 1);
      RoundLoops(ns[k - 1], rounds[k - 1], at, ns[k]);
      RoundNamed(ns[k - 1], rounds[k - 1], at, ns[k]);
      RoundRewritable(ns[k - 1], rounds[k - 1], at, ns[k]);
      assert 2 * |ns[0].points| * k == 2 * |ns[0].points| * (k - 1) + 2 * |ns[0].points|;
    }
  }

  /** Adds up tiles and points of the last `k` tilings. */
  ghost function DownAll(ns: seq<Nest>, rounds: seq<seq<nat>>, next: nat, env: Env, k: nat): Env
    requires Run(ns, rounds, next) && k < |ns|
    decreases k
  {
    if k == 0 then env
    else
      assert RoundAt(ns, rounds, next, k - 1);
      DownAll(ns, rounds, next, Down(ns[k - 1], rounds[k - 1], NextAt(ns, next, k - 1), env), k - 1)
  }

  ghost function UpAll(ns: seq<Nest>, rounds: seq<seq<nat>>, next: nat, env: Env, k: nat): Env
    requires Run(ns, rounds, next) && k < |ns|
    decreases k
  {
    if k == 0 then env
    else
      assert RoundAt(ns, rounds, next, k - 1);
      Up(ns[k - 1], rounds[k - 1], NextAt(ns, next, k - 1), UpAll(ns, rounds, next, env, k - 1))
  }

  /**
   * Every iteration of the tiled nest adds up to an iteration of the original nest, from which it can be
   * found again, and in which every index expression has the same value.
   */
  lemma {:induction false} TiledIterations(ns: seq<Nest>, rounds: seq<seq<nat>>, next: nat, env: Env, k: nat)
    requires Run(ns, rounds, next) && k < |ns| && Visits(ns[k], env)
    ensures var down := DownAll(ns, rounds, next, env, k);
      && Visits(ns[0], down) && UpAll(ns, rounds, next, down, k) == env
      && |ns[k].uses| == |ns[0].uses|
      && forall j :: 0 <= j < |ns[0].uses| ==> Value(ns[k].uses[j], env) == Value(ns[0].uses[j], down)
    decreases k
  {
    RunKeeps(ns, rounds, next, k);
    if k > 0 {
      var n, sizes, at := ns[k - 1], rounds[k - 1], NextAt(ns, next, k - 1);
      assert RoundAt(ns, rounds, next, k - 1);
      RunKeeps(ns, rounds, next, k - 1);
      DownVisits(n, sizes, at, ns[k], env);
      DownUp(n, sizes, at, ns[k], env);
      forall j | 0 <= j < |n.uses|
        ensures Value(ns[k].uses[j], env) == Value(n.uses[j], Down(n, sizes, at, env))
      {
        UsesKeepValues(n, sizes, at, ns[k], env, j);
      }
      TiledIterations(ns, rounds, next, Down(n, sizes, at, env), k - 1);
    }
  }

  /** Every iteration of the original nest is visited once: it splits into an iteration of the tiled nest that adds up to it. */
  lemma OriginalIterations(ns: seq<Nest>, rounds: seq<seq<nat>>, next: nat, env: Env, k: nat)
    requires Run(ns, rounds, next) && k < |ns| && Visits(ns[0], env)
    ensures var up := UpAll(ns, rounds, next, env, k);
      Visits(ns[k], up) && DownAll(ns, rounds, next, up, k) == env
  {
    SplitsFirst(ns, rounds, next, env);
    AllSplit(ns, rounds, next, env, k);
  }

  ghost predicate Splits(ns: seq<Nest>, rounds: seq<seq<nat>>, next: nat, env: Env, k: nat)
    requires Run(ns, rounds, next) && k < |ns|
  {
    var up := UpAll(ns, rounds, next, env, k);
    Visits(ns[k], up) && DownAll(ns, rounds, next, up, k) == env
  }

  lemma SplitsFirst(ns: seq<Nest>, rounds: seq<seq<nat>>, next: nat, env: Env)
    requires Run(ns, rounds, next) && Visits(ns[0], env)
    ensures Splits(ns, rounds, next, env, 0)
  {
  }

  lemma AllSplit(ns: seq<Nest>, rounds: seq<seq<nat>>, next: nat, env: Env, k: nat)
    requires Run(ns, rounds, next) && k < |ns| && Splits(ns, rounds, next, env, 0)
    ensures Splits(ns, rounds, next, env, k)
  {
    var i := 0;
    while i < k
      invariant i <= k && Splits(ns, rounds, next, env, i)
    {
      i := i + 1;
      SplitsNext(ns, rounds, next, env, i);
    }
  }

  lemma SplitsNext(ns: seq<Nest>, rounds: seq<seq<nat>>, next: nat, env: Env, k: nat)
    requires Run(ns, rounds, next) && 0 < k < |ns| && Splits(ns, rounds, next, env, k - 1)
    ensures Splits(ns, rounds, next, env, k)
  {
    UpOnce(ns, rounds, next, k, UpAll(ns, rounds, next, env, k - 1));
    UpAllNext(ns, rounds, next, env, k);
    DownAllNext(ns, rounds, next, UpAll(ns, rounds, next, env, k), k);
  }

  lemma UpAllNext(ns: seq<Nest>, rounds: seq<seq<nat>>, next: nat, env: Env, k: nat)
    requires Run(ns, rounds, next) && 0 < k < |ns|
    ensures RoundAt(ns, rounds, next, k - 1)
    ensures UpAll(ns, rounds, next, env, k) == Up(ns[k - 1], rounds[k - 1], NextAt(ns, next, k - 1), UpAll(ns, rounds, next, env, k - 1))
  {
  }

  lemma DownAllNext(ns: seq<Nest>, rounds: seq<seq<nat>>, next: nat, env: Env, k: nat)
    requires Run(ns, rounds, next) && 0 < k < |ns|
    ensures RoundAt(ns, rounds, next, k - 1)
    ensures DownAll(ns, rounds, next, env, k) == DownAll(ns, rounds, next, Down(ns[k - 1], rounds[k - 1], NextAt(ns, next, k - 1), env), k - 1)
  {
  }

  lemma UpOnce(ns: seq<Nest>, rounds: seq<seq<nat>>, next: nat, k: nat, env: Env)
    requires Run(ns, rounds, next) && 0 < k < |ns| && Visits(ns[k - 1], env)
    ensures var n, sizes, at := ns[k - 1], rounds[k - 1], NextAt(ns, next, k - 1);
      && |sizes| == |n.points| && Positive(sizes)
      && Visits(ns[k], Up(n, sizes, at, env)) && Down(n, sizes, at, Up(n, sizes, at, env)) == env
  {
    var n, sizes, at := ns[k - 1], rounds[k - 1], NextAt(ns, next, k - 1);
    RunKeeps(ns, rounds, next, k - 1);
    assert RoundAt(ns, rounds, next, k - 1);
    UpVisits(n, sizes, at, ns[k], env);
    UpDown(n, sizes, at, env);
  }
}
