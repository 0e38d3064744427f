/**
 * Per output element: the exposed loops combine the same input elements in the same order as the
 * generic operation over all dimensions did.
 */
module ReductionOrder {
  import opened LoopNests

  datatype Dim = Dim(size: nat, reduction: bool)

  function SizesOf(dims: seq<Dim>): (r: seq<nat>)
    ensures |r| == |dims| && forall k :: 0 <= k < |r| ==> r[k] == dims[k].size
  {
    if dims == [] then [] else [dims[0].size] + SizesOf(dims[1..])
  }

  /** The sizes of the reduction dimensions, and of the others. */
  function Part(dims: seq<Dim>, reduction: bool): seq<nat> {
    if dims == [] then []
    else (if dims[0].reduction == reduction then [dims[0].size] else []) + Part(dims[1..], reduction)
  }

  /** Where the reduction dimensions are, counted from `base`. */
  function ReductionDims(dims: seq<Dim>, base: nat): (r: seq<nat>)
    ensures |r| == |Part(dims, true)|
    ensures forall i :: 0 <= i < |r| ==> base <= r[i] < base + |dims|
  {
    if dims == [] then []
    else (if dims[0].reduction then [base] else []) + ReductionDims(dims[1..], base + 1)
  }

  lemma {:induction false} ReductionDimsAscend(dims: seq<Dim>, base: nat)
    ensures forall i, j :: 0 <= i < j < |ReductionDims(dims, base)| ==> ReductionDims(dims, base)[i] < ReductionDims(dims, base)[j]
  {
    if dims != [] {
      ReductionDimsAscend(dims[1..], base + 1);
    }
  }

  function Head(t: seq<nat>): nat {
    if t == [] then 0 else t[0]
  }

  function Tail(t: seq<nat>): seq<nat> {
    if t == [] then [] else t[1..]
  }

  /** The coordinates of `t` in the dimensions that are not reduced: the output element. */
  function Parallel(dims: seq<Dim>, t: seq<nat>): seq<nat> {
    if dims == [] then [] else (if dims[0].reduction then [] else [Head(t)]) + Parallel(dims[1..], Tail(t))
  }

  /** The index tuple with reduction coordinates `r` and output coordinates `p`. */
  function Merge(dims: seq<Dim>, r: seq<nat>, p: seq<nat>): (t: seq<nat>)
    ensures |t| == |dims|
  {
    if dims == [] then []
    else if dims[0].reduction then [Head(r)] + Merge(dims[1..], Tail(r), p)
    else [Head(p)] + Merge(dims[1..], r, Tail(p))
  }

  /** The tuples that belong to output element `p`, in their order. */
  function Select(dims: seq<Dim>, ts: seq<seq<nat>>, p: seq<nat>): seq<seq<nat>> {
    if ts == [] then [] else (if Parallel(dims, ts[0]) == p then [ts[0]] else []) + Select(dims, ts[1..], p)
  }

  function MergeAll(dims: seq<Dim>, rs: seq<seq<nat>>, p: seq<nat>): (r: seq<seq<nat>>) {
    if rs == [] then [] else [Merge(dims, rs[0], p)] + MergeAll(dims, rs[1..], p)
  }

  lemma {:induction false} SelectJoin(dims: seq<Dim>, a: seq<seq<nat>>, b: seq<seq<nat>>, p: seq<nat>)
    ensures Select(dims, a + b, p) == Select(dims, a, p) + Select(dims, b, p)
  {
    if a == [] {
      assert a + b == b;
    } else {
      assert (a + b)[0] == a[0] && (a + b)[1..] == a[1..] + b;
      SelectJoin(dims, a[1..], b, p);
    }
  }

  lemma {:induction false} SelectPrefixed(dims: seq<Dim>, i: nat, ts: seq<seq<nat>>, p: seq<nat>)
    requires dims != [] && |p| == |Part(dims, false)|
    ensures Select(dims, Prefixed(i, ts), p) ==
      if dims[0].reduction then Prefixed(i, Select(dims[1..], ts, p))
      else if p[0] == i then Prefixed(i, Select(dims[1..], ts, p[1..]))
      else []
  {
    if ts == [] {
      assert Prefixed(i, ts) == [];
    } else {
      SelectPrefixed(dims, i, ts[1..], p);
      assert Prefixed(i, ts)[0] == [i] + ts[0] && Prefixed(i, ts)[1..] == Prefixed(i, ts[1..]);
      ParallelOfPrefixed(dims, i, ts[0], p);
      PrefixedCons(i, ts[0], Select(dims[1..], ts[1..], if dims[0].reduction then p else p[1..]));
    }
  }

  lemma ParallelOfPrefixed(dims: seq<Dim>, i: nat, t: seq<nat>, p: seq<nat>)
    requires dims != [] && |p| == |Part(dims, false)|
    ensures Parallel(dims, [i] + t) == p <==>
      if dims[0].reduction then Parallel(dims[1..], t) == p else p[0] == i && Parallel(dims[1..], t) == p[1..]
  {
    assert Tail([i] + t) == t;
    if !dims[0].reduction {
      assert p == [p[0]] + p[1..];
      assert ([i] + Parallel(dims[1..], t))[1..] == Parallel(dims[1..], t);
    }
  }

  lemma PrefixedCons(i: nat, t: seq<nat>, ts: seq<seq<nat>>)
    ensures Prefixed(i, [t] + ts) == [[i] + t] + Prefixed(i, ts)
  {
  }

  lemma {:induction false} MergePrefixed(dims: seq<Dim>, i: nat, rs: seq<seq<nat>>, p: seq<nat>)
    requires dims != [] && dims[0].reduction && |p| == |Part(dims, false)|
    ensures MergeAll(dims, Prefixed(i, rs), p) == Prefixed(i, MergeAll(dims[1..], rs, p))
  {
    if rs == [] {
      assert Prefixed(i, rs) == [];
    } else {
      MergePrefixed(dims, i, rs[1..], p);
      assert Prefixed(i, rs)[0] == [i] + rs[0] && Prefixed(i, rs)[1..] == Prefixed(i, rs[1..]);
      assert Tail([i] + rs[0]) == rs[0];
      PrefixedCons(i, Merge(dims[1..], rs[0], p), MergeAll(dims[1..], rs[1..], p));
    }
  }

  lemma {:induction false} MergeParallel(dims: seq<Dim>, rs: seq<seq<nat>>, p: seq<nat>)
    requires dims != [] && !dims[0].reduction && p != []
    ensures MergeAll(dims, rs, p) == Prefixed(p[0], MergeAll(dims[1..], rs, p[1..]))
  {
    if rs != [] {
      MergeParallel(dims, rs[1..], p);
      PrefixedCons(p[0], Merge(dims[1..], rs[0], p[1..]), MergeAll(dims[1..], rs[1..], p[1..]));
    }
  }

  lemma {:induction false} MergeJoin(dims: seq<Dim>, a: seq<seq<nat>>, b: seq<seq<nat>>, p: seq<nat>)
    ensures MergeAll(dims, a + b, p) == MergeAll(dims, a, p) + MergeAll(dims, b, p)
  {
    if a == [] {
      assert a + b == b;
    } else {
      assert (a + b)[0] == a[0] && (a + b)[1..] == a[1..] + b;
      MergeJoin(dims, a[1..], b, p);
    }
  }

  /** Stretch by stretch. */
  lemma JoinSame(dims: seq<Dim>, ts0: seq<seq<nat>>, ts1: seq<seq<nat>>, rs0: seq<seq<nat>>, rs1: seq<seq<nat>>, p: seq<nat>)
    ensures Select(dims, ts0, p) == MergeAll(dims, rs0, p) && Select(dims, ts1, p) == MergeAll(dims, rs1, p) ==>
      Select(dims, ts0 + ts1, p) == MergeAll(dims, rs0 + rs1, p)
  {
    SelectJoin(dims, ts0, ts1, p);
    MergeJoin(dims, rs0, rs1, p);
  }

  lemma StretchSame(dims: seq<Dim>, i: nat, ts: seq<seq<nat>>, rs: seq<seq<nat>>, p: seq<nat>)
    requires dims != [] && dims[0].reduction && |p| == |Part(dims, false)|
    ensures Select(dims[1..], ts, p) == MergeAll(dims[1..], rs, p) ==> Select(dims, Prefixed(i, ts), p) == MergeAll(dims, Prefixed(i, rs), p)
  {
    SelectPrefixed(dims, i, ts, p);
    MergePrefixed(dims, i, rs, p);
  }

  lemma JoinIs(dims: seq<Dim>, ts0: seq<seq<nat>>, ts1: seq<seq<nat>>, p: seq<nat>, before: seq<seq<nat>>, last: seq<seq<nat>>)
    ensures Select(dims, ts0, p) == before && Select(dims, ts1, p) == last ==> Select(dims, ts0 + ts1, p) == before + last
  {
    SelectJoin(dims, ts0, ts1, p);
  }

  /** A reduction dimension first: one stretch for each of its values. */
  lemma {:induction false} SameOrderBelow(dims: seq<Dim>, p: seq<nat>, n: nat, ts: seq<seq<nat>>, rs: seq<seq<nat>>)
    requires dims != [] && dims[0].reduction && |p| == |Part(dims, false)|
    ensures Select(dims[1..], ts, p) == MergeAll(dims[1..], rs, p) ==> Select(dims, Stretches(ts, n), p) == MergeAll(dims, Stretches(rs, n), p)
    decreases n
  {
    if n > 0 {
      SameOrderBelow(dims, p, n - 1, ts, rs);
      SameOrderNext(dims, p, n - 1, ts, rs);
    }
  }

  lemma SameOrderNext(dims: seq<Dim>, p: seq<nat>, n: nat, ts: seq<seq<nat>>, rs: seq<seq<nat>>)
    requires dims != [] && dims[0].reduction && |p| == |Part(dims, false)|
    ensures Select(dims[1..], ts, p) == MergeAll(dims[1..], rs, p) && Select(dims, Stretches(ts, n), p) == MergeAll(dims, Stretches(rs, n), p) ==>
      Select(dims, Stretches(ts, n + 1), p) == MergeAll(dims, Stretches(rs, n + 1), p)
  {
    StretchSame(dims, n, ts, rs, p);
    JoinSame(dims, Stretches(ts, n), Prefixed(n, ts), Stretches(rs, n), Prefixed(n, rs), p);
  }

  /** Another dimension first: only the stretch of the output coordinate counts. */
  lemma {:induction false} SameOrderAt(dims: seq<Dim>, p: seq<nat>, n: nat, ts: seq<seq<nat>>, all: seq<seq<nat>>)
    requires dims != [] && !dims[0].reduction && p != [] && |p| == |Part(dims, false)|
    requires all == Prefixed(p[0], Select(dims[1..], ts, p[1..]))
    ensures Select(dims, Stretches(ts, n), p) == if p[0] < n then all else []
    decreases n
  {
    if n > 0 {
      var last := if p[0] == n - 1 then all else [];
      var before := if p[0] < n - 1 then all else [];
      OneStretch(dims, p, n - 1, ts, all);
      SameOrderAt(dims, p, n - 1, ts, all);
      assert before + last == if p[0] < n then all else [];
      JoinIs(dims, Stretches(ts, n - 1), Prefixed(n - 1, ts), p, before, last);
    }
  }

  lemma OneStretch(dims: seq<Dim>, p: seq<nat>, i: nat, ts: seq<seq<nat>>, all: seq<seq<nat>>)
    requires dims != [] && !dims[0].reduction && p != [] && |p| == |Part(dims, false)|
    requires all == Prefixed(p[0], Select(dims[1..], ts, p[1..]))
    ensures Select(dims, Prefixed(i, ts), p) == if p[0] == i then all else []
  {
    SelectPrefixed(dims, i, ts, p);
  }

  lemma PartsOfRest(dims: seq<Dim>)
    requires dims != []
    ensures SizesOf(dims)[1..] == SizesOf(dims[1..])
    ensures Part(dims, dims[0].reduction) != [] && Part(dims, dims[0].reduction)[1..] == Part(dims[1..], dims[0].reduction)
    ensures Part(dims, !dims[0].reduction) == Part(dims[1..], !dims[0].reduction)
  {
  }

  /**
   * Of all index tuples in lexicographic order, those of one output element are its merges with the
   * reduction tuples in lexicographic order, wherever the reduction dimensions are.
   */
  lemma {:induction false} SameOrder(dims: seq<Dim>, p: seq<nat>)
    requires InRange(p, Part(dims, false))
    ensures Select(dims, Tuples(SizesOf(dims)), p) == MergeAll(dims, Tuples(Part(dims, true)), p)
  {
    if dims == [] {
      assert Select(dims, [[]], p) == [[]];
      assert MergeAll(dims, [[]], p) == [[]];
    } else {
      var ts, rs := Tuples(SizesOf(dims[1..])), Tuples(Part(dims[1..], true));
      PartsOfRest(dims);
      if dims[0].reduction {
        SameOrder(dims[1..], p);
        SameOrderBelow(dims, p, dims[0].size, ts, rs);
      } else {
        SameOrder(dims[1..], p[1..]);
        SameOrderAt(dims, p, dims[0].size, ts, Prefixed(p[0], Select(dims[1..], ts, p[1..])));
        MergeParallel(dims, rs, p);
      }
    }
  }
}
