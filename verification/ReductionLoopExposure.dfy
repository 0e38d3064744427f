/**
 * Exposing a reduction: every stage of the pipeline gets one loop per reduction dimension, the load
 * stage pushes one slice per iteration, the compute stage folds the slices into a carried accumulator,
 * and what is written and stored happens in the last iteration only.
 */
module ReductionLoopExposure {
  import opened Arithmetic
  import opened LoopNests

  // ---------------------------------------------------------------------------------------------
  // Building the loops
  // ---------------------------------------------------------------------------------------------

  /** The counters of `n` loops, the outermost at level `base`. */
  function CountersFrom(base: nat, n: nat): (r: seq<nat>)
    ensures |r| == n && forall k :: 0 <= k < n ==> r[k] == base + k
  {
    seq(n, k => base + k)
  }

  /** One level and all inside it; the counters are collected from outside in. */
  method BuildLevel(dimSizes: seq<nat>, depth: nat, carry: Carry, counters: seq<nat>)
    returns (loops: seq<Stmt>, collected: seq<nat>)
    requires depth < |dimSizes|
    ensures loops == [For(dimSizes[depth], carry, Nest(dimSizes[depth + 1..], if carry == Nothing then Nothing else FromOuter, []))]
    ensures collected == counters + CountersFrom(depth, |dimSizes| - depth)
    decreases |dimSizes| - depth
  {
    collected := counters + [depth];
    var inner := [];
    if depth + 1 < |dimSizes| {
      inner, collected := BuildLevel(dimSizes, depth + 1, if carry == Nothing then Nothing else FromOuter, collected);
      assert dimSizes[depth + 1..][1..] == dimSizes[depth + 2..];
    }
    loops := [For(dimSizes[depth], carry, inner)];
  }

  method BuildNestedForLoops(dimSizes: seq<nat>, carrying: bool) returns (loops: seq<Stmt>, counters: seq<nat>)
    requires dimSizes != []
    ensures loops == if carrying then CarryingNest(dimSizes, []) else Nest(dimSizes, Nothing, [])
    ensures counters == CountersFrom(0, |dimSizes|)
  {
    loops, counters := BuildLevel(dimSizes, 0, if carrying then FromEmpty else Nothing, []);
  }

  /** Loops with nothing in the innermost body. */
  predicate Shell(loops: seq<Stmt>) {
    loops == [] || (|loops| == 1 && loops[0].For? && Shell(loops[0].body))
  }

  /** The shell with `body` in the innermost loop. */
  function Spliced(loops: seq<Stmt>, body: seq<Stmt>): seq<Stmt>
    requires Shell(loops)
  {
    if loops == [] then body else [For(loops[0].trip, loops[0].carry, Spliced(loops[0].body, body))]
  }

  lemma {:induction false} SplicedNest(sizes: seq<nat>, carry: Carry, body: seq<Stmt>)
    ensures Shell(Nest(sizes, carry, [])) && Spliced(Nest(sizes, carry, []), body) == Nest(sizes, carry, body)
  {
    if sizes != [] {
      SplicedNest(sizes[1..], carry, body);
    }
  }

  function Straight(ops: seq<Op>): (r: seq<Stmt>)
    ensures |r| == |ops| && forall k :: 0 <= k < |r| ==> r[k] == Do(ops[k])
  {
    seq(|ops|, k requires 0 <= k < |ops| => Do(ops[k]))
  }

  /** Runs in the last iteration of all loops only. */
  function OnlyLast(counters: seq<nat>, sizes: seq<nat>, op: Op): Stmt
    requires forall k :: 0 <= k < |sizes| ==> sizes[k] > 0
  {
    If(counters, LastOf(sizes), [Do(op)])
  }

  method RewritePlainStage(body: seq<Stmt>, dimSizes: seq<nat>) returns (r: seq<Stmt>)
    requires dimSizes != []
    ensures r == Nest(dimSizes, Nothing, body)
  {
    var loops, _ := BuildNestedForLoops(dimSizes, false);
    SplicedNest(dimSizes, Nothing, body);
    r := Spliced(loops, body);
  }

  /** Where reduction dimension `i` of the tensor is in the memory that the transfer reads. */
  function MemoryDim(reductionDims: seq<nat>, rankOffset: int, i: nat): int
    requires i < |reductionDims|
  {
    reductionDims[i] + rankOffset
  }

  /** The transfer reads one slice: size 1 and the counter as index in each of the first `n` reduction dimensions. */
  ghost predicate ReadsSlice(was: Op, op: Op, reductionDims: seq<nat>, rankOffset: int, n: nat)
    requires was.Load? && n <= |reductionDims|
  {
    && op.Load? && |op.sizes| == |was.sizes| && |op.indices| == |was.indices|
    && (forall i :: 0 <= i < n && 0 <= MemoryDim(reductionDims, rankOffset, i) < |op.sizes| ==>
      op.sizes[MemoryDim(reductionDims, rankOffset, i)] == 1)
    && (forall i :: 0 <= i < n && 0 <= MemoryDim(reductionDims, rankOffset, i) < |op.indices| ==>
      op.indices[MemoryDim(reductionDims, rankOffset, i)] == Counter(i))
    && forall d :: 0 <= d && (forall i :: 0 <= i < n ==> d != MemoryDim(reductionDims, rankOffset, i)) ==>
      (d < |op.sizes| ==> op.sizes[d] == was.sizes[d]) && (d < |op.indices| ==> op.indices[d] == was.indices[d])
  }

  lemma ReadsSliceNext(was: Op, op: Op, next: Op, reductionDims: seq<nat>, rankOffset: int, n: nat)
    requires was.Load? && n < |reductionDims| && ReadsSlice(was, op, reductionDims, rankOffset, n)
    requires forall i, j :: 0 <= i < j < |reductionDims| ==> reductionDims[i] < reductionDims[j]
    requires next.Load? && |next.sizes| == |op.sizes| && |next.indices| == |op.indices|
    requires forall d :: 0 <= d < |op.sizes| ==>
      next.sizes[d] == if d == MemoryDim(reductionDims, rankOffset, n) then 1 else op.sizes[d]
    requires forall d :: 0 <= d < |op.indices| ==>
      next.indices[d] == if d == MemoryDim(reductionDims, rankOffset, n) then Counter(n) else op.indices[d]
    ensures ReadsSlice(was, next, reductionDims, rankOffset, n + 1)
  {
    assert forall j :: 0 <= j < n ==> MemoryDim(reductionDims, rankOffset, j) != MemoryDim(reductionDims, rankOffset, n);
  }

  method ReadSlice(was: Op, reductionDims: seq<nat>, tensorRank: nat) returns (op: Op)
    requires was.Load?
    requires forall i, j :: 0 <= i < j < |reductionDims| ==> reductionDims[i] < reductionDims[j]
    ensures ReadsSlice(was, op, reductionDims, |was.sizes| - tensorRank, |reductionDims|)
  {
    var rankOffset := |was.sizes| - tensorRank;
    var sizes, indices := was.sizes, was.indices;
    var i := 0;
    while i < |reductionDims|
      invariant i <= |reductionDims|
      invariant ReadsSlice(was, Load(indices, sizes), reductionDims, rankOffset, i)
    {
      var d := MemoryDim(reductionDims, rankOffset, i);
      ghost var before := Load(indices, sizes);
      if 0 <= d < |sizes| {
        sizes := sizes[d := 1];
      }
      if 0 <= d < |indices| {
        indices := indices[d := Counter(i)];
      }
      ReadsSliceNext(was, before, Load(indices, sizes), reductionDims, rankOffset, i);
      i := i + 1;
    }
    op := Load(indices, sizes);
  }

  /** Like the plain stage; every transfer into a FIFO then reads one slice. */
  method RewriteLoadStage(ops: seq<Op>, dimSizes: seq<nat>, reductionDims: seq<nat>, tensorRank: nat)
    returns (r: seq<Stmt>, newOps: seq<Op>)
    requires dimSizes != [] && |reductionDims| == |dimSizes|
    requires forall i, j :: 0 <= i < j < |reductionDims| ==> reductionDims[i] < reductionDims[j]
    ensures r == Nest(dimSizes, Nothing, Straight(newOps)) && |newOps| == |ops|
    ensures forall k :: 0 <= k < |ops| ==> SliceOrSame(ops[k], newOps[k], reductionDims, tensorRank)
  {
    newOps := [];
    var k := 0;
    while k < |ops|
      invariant k <= |ops| && |newOps| == k
      invariant forall j :: 0 <= j < k ==> SliceOrSame(ops[j], newOps[j], reductionDims, tensorRank)
    {
      var op := ops[k];
      if op.Load? {
        op := ReadSlice(op, reductionDims, tensorRank);
      }
      newOps := newOps + [op];
      k := k + 1;
    }
    r := RewritePlainStage(Straight(newOps), dimSizes);
  }

  ghost predicate SliceOrSame(was: Op, op: Op, reductionDims: seq<nat>, tensorRank: nat) {
    if was.Load? then ReadsSlice(was, op, reductionDims, |was.sizes| - tensorRank, |reductionDims|) else op == was
  }

  /** The body of the innermost compute loop; `buffered` once the accumulator is a buffer. */
  function ComputeBody(buffered: bool, counters: seq<nat>, sizes: seq<nat>): seq<Stmt>
    requires AllPositive(sizes)
  {
    [Do(Receive), Do(if buffered then CombineInto else Combine), OnlyLast(counters, sizes, if buffered then SendBuffer else Send)]
  }

  /** The compute stage is built afresh. */
  method RewriteComputeStage(dimSizes: seq<nat>) returns (r: seq<Stmt>)
    requires dimSizes != [] && AllPositive(dimSizes)
    ensures r == CarryingNest(dimSizes, ComputeBody(false, CountersFrom(0, |dimSizes|), dimSizes))
  {
    var loops, counters := BuildNestedForLoops(dimSizes, true);
    SplicedNest(dimSizes[1..], FromOuter, ComputeBody(false, counters, dimSizes));
    r := Spliced(loops, ComputeBody(false, counters, dimSizes));
  }

  /** Transfers between memory and a FIFO, either way. */
  predicate IsTransfer(op: Op) {
    op.Load? || op.Store?
  }

  /** The operation alone, and only where all counters of the loops are at their last values. */
  predicate RunsLast(stmt: Stmt, sizes: seq<nat>, op: Op) {
    && stmt.If? && stmt.body == [Do(op)] && |stmt.counters| == |stmt.values| == |sizes|
    && forall i :: 0 <= i < |sizes| ==> stmt.counters[i] == i && stmt.values[i] + 1 == sizes[i]
  }

  /** Statement by statement the operations in their order, but the one at `k`, if any, which runs last. */
  predicate GuardsOnly(ops: seq<Op>, k: nat, sizes: seq<nat>, body: seq<Stmt>) {
    |body| == |ops| && forall j :: 0 <= j < |ops| ==> if j == k then RunsLast(body[j], sizes, ops[j]) else body[j] == Do(ops[j])
  }

  /** Place `k` is that of the first transfer, or behind the last operation when there is none. */
  predicate FirstTransfer(ops: seq<Op>, k: nat) {
    k <= |ops| && (forall j :: 0 <= j < k ==> !ops[j].Load? && !ops[j].Store?) && (k < |ops| ==> ops[k].Load? || ops[k].Store?)
  }

  /** The first transfer of the stage is guarded, the other operations stay as they are. */
  method RewriteConditionalStoreStage(ops: seq<Op>, dimSizes: seq<nat>) returns (r: seq<Stmt>, ghost body: seq<Stmt>, ghost first: nat)
    requires dimSizes != [] && AllPositive(dimSizes)
    ensures FirstTransfer(ops, first) && r == Nest(dimSizes, Nothing, body) && GuardsOnly(ops, first, dimSizes, body)
    ensures body == if first < |ops| then GuardedAt(ops, first, CountersFrom(0, |dimSizes|), dimSizes) else Straight(ops)
  {
    var k := 0;
    while k < |ops| && !IsTransfer(ops[k])
      invariant k <= |ops| && forall j :: 0 <= j < k ==> !IsTransfer(ops[j])
    {
      k := k + 1;
    }
    var loops, counters := BuildNestedForLoops(dimSizes, false);
    var inner := if k < |ops| then GuardedAt(ops, k, counters, dimSizes) else Straight(ops);
    SplicedNest(dimSizes, Nothing, inner);
    r, body, first := Spliced(loops, inner), inner, k;
  }

  function GuardedAt(ops: seq<Op>, k: nat, counters: seq<nat>, sizes: seq<nat>): seq<Stmt>
    requires k < |ops| && AllPositive(sizes)
  {
    Straight(ops)[k := OnlyLast(counters, sizes, ops[k])]
  }
}
