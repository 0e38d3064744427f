/**
 * The exposed reduction, element by element: the generic operation on tensors, the slices that the
 * rewritten transfer reads, and the result that is stored.
 */
module ReductionElements {
  import opened Arithmetic
  import opened LoopNests
  import opened ReductionLoopExposure
  import opened ReductionRuns
  import opened ReductionOrder

  type Tensor<V> = seq<nat> -> V

  function Updated<V>(acc: Tensor<V>, p: seq<nat>, v: V): Tensor<V> {
    q => if q == p then v else acc(q)
  }

  /** The generic operation over the tuples: each combines its input element into its output element. */
  ghost function GenericRun<V>(c: (V, V) -> V, dims: seq<Dim>, input: Tensor<V>, ts: seq<seq<nat>>, acc: Tensor<V>): Tensor<V> {
    if ts == [] then acc
    else
      var p := Parallel(dims, ts[0]);
      GenericRun(c, dims, input, ts[1..], Updated(acc, p, c(acc(p), input(ts[0]))))
  }

  function Elements<V>(input: Tensor<V>, ts: seq<seq<nat>>): seq<V> {
    if ts == [] then [] else [input(ts[0])] + Elements(input, ts[1..])
  }

  /** An output element is the fold of the input elements that belong to it, in their order. */
  lemma {:induction false} GenericAt<V>(c: (V, V) -> V, dims: seq<Dim>, input: Tensor<V>, ts: seq<seq<nat>>, acc: Tensor<V>, p: seq<nat>)
    ensures GenericRun(c, dims, input, ts, acc)(p) == Fold(c, acc(p), Elements(input, Select(dims, ts, p)))
  {
    if ts != [] {
      var t := ts[0];
      var q := Parallel(dims, t);
      var rest := Select(dims, ts[1..], p);
      GenericAt(c, dims, input, ts[1..], Updated(acc, q, c(acc(q), input(t))), p);
      if q == p {
        assert ([t] + rest)[1..] == rest;
        assert Elements(input, [t] + rest) == [input(t)] + Elements(input, rest);
        assert ([input(t)] + Elements(input, rest))[1..] == Elements(input, rest);
      } else {
        assert [] + rest == rest;
      }
    }
  }

  /** The generic operation of the original compute stage. */
  ghost function Generic<V>(c: (V, V) -> V, dims: seq<Dim>): (Tensor<V>, Tensor<V>) -> Tensor<V> {
    (acc, input) => GenericRun(c, dims, input, Tuples(SizesOf(dims)), acc)
  }

  /** With every reduction dimension of size 1: what the generic operation sees of a slice. */
  function Sliced(dims: seq<Dim>): (r: seq<Dim>)
    ensures |r| == |dims|
  {
    if dims == [] then [] else [Dim(if dims[0].reduction then 1 else dims[0].size, dims[0].reduction)] + Sliced(dims[1..])
  }

  function Zeros(n: nat): (r: seq<nat>)
    ensures |r| == n && forall k :: 0 <= k < n ==> r[k] == 0
  {
    if n == 0 then [] else [0] + Zeros(n - 1)
  }

  function Ones(n: nat): seq<nat> {
    if n == 0 then [] else [1] + Ones(n - 1)
  }

  lemma {:induction false} SlicedParts(dims: seq<Dim>)
    ensures Part(Sliced(dims), false) == Part(dims, false) && Part(Sliced(dims), true) == Ones(|Part(dims, true)|)
    ensures forall t: seq<nat> :: Parallel(Sliced(dims), t) == Parallel(dims, t)
    ensures forall r: seq<nat>, p: seq<nat> :: Merge(Sliced(dims), r, p) == Merge(dims, r, p)
  {
    if dims != [] {
      SlicedParts(dims[1..]);
      assert Sliced(dims)[1..] == Sliced(dims[1..]);
      forall t: seq<nat> ensures Parallel(Sliced(dims), t) == Parallel(dims, t) {
        assert Parallel(Sliced(dims[1..]), Tail(t)) == Parallel(dims[1..], Tail(t));
      }
      forall r: seq<nat>, p: seq<nat> ensures Merge(Sliced(dims), r, p) == Merge(dims, r, p) {
        assert Merge(Sliced(dims[1..]), Tail(r), p) == Merge(dims[1..], Tail(r), p);
        assert Merge(Sliced(dims[1..]), r, Tail(p)) == Merge(dims[1..], r, Tail(p));
      }
    }
  }

  lemma {:induction false} TuplesOfOnes(n: nat)
    ensures Tuples(Ones(n)) == [Zeros(n)]
  {
    if n > 0 {
      TuplesOfOnes(n - 1);
      assert Ones(n)[1..] == Ones(n - 1);
      var ts := Tuples(Ones(n - 1));
      assert Stretches(ts, 0) == [];
      assert Stretches(ts, 1) == Prefixed(0, ts);
      assert Prefixed(0, ts) == [[0] + Zeros(n - 1)];
    }
  }

  /** On a slice, each output element takes exactly one input element. */
  lemma SliceAt<V>(c: (V, V) -> V, dims: seq<Dim>, acc: Tensor<V>, slice: Tensor<V>, p: seq<nat>)
    requires InRange(p, Part(dims, false))
    ensures Generic(c, Sliced(dims))(acc, slice)(p) == c(acc(p), slice(Merge(dims, Zeros(|Part(dims, true)|), p)))
  {
    var zeros := Zeros(|Part(dims, true)|);
    SlicedParts(dims);
    TuplesOfOnes(|Part(dims, true)|);
    SameOrder(Sliced(dims), p);
    GenericAt(c, Sliced(dims), slice, Tuples(SizesOf(Sliced(dims))), acc, p);
    assert MergeAll(Sliced(dims), [zeros], p) == [Merge(dims, zeros, p)];
    assert Elements(slice, [Merge(dims, zeros, p)]) == [slice(Merge(dims, zeros, p))];
    FoldOne(c, acc(p), slice(Merge(dims, zeros, p)));
  }

  function ElementsOf<V>(slices: seq<Tensor<V>>, t: seq<nat>): (r: seq<V>)
    ensures |r| == |slices| && forall k :: 0 <= k < |r| ==> r[k] == slices[k](t)
  {
    if slices == [] then [] else [slices[0](t)] + ElementsOf(slices[1..], t)
  }

  lemma {:induction false} FoldSlices<V>(c: (V, V) -> V, dims: seq<Dim>, start: Tensor<V>, slices: seq<Tensor<V>>, p: seq<nat>)
    requires InRange(p, Part(dims, false))
    ensures Fold(Generic(c, Sliced(dims)), start, slices)(p)
      == Fold(c, start(p), ElementsOf(slices, Merge(dims, Zeros(|Part(dims, true)|), p)))
    decreases |slices|
  {
    if slices != [] {
      var t := Merge(dims, Zeros(|Part(dims, true)|), p);
      SliceAt(c, dims, start, slices[0], p);
      FoldSlices(c, dims, Generic(c, Sliced(dims))(start, slices[0]), slices[1..], p);
      assert ElementsOf(slices, t)[1..] == ElementsOf(slices[1..], t);
    }
  }

  // ---------------------------------------------------------------------------------------------
  // The addresses that the transfer reads
  // ---------------------------------------------------------------------------------------------

  /** The address of element `t`; dimensions that only the memory has come first. */
  function Address(offsets: seq<int>, t: seq<nat>): (r: seq<int>)
    ensures |r| == |offsets|
    ensures forall j :: 0 <= j < |r| ==>
      r[j] == offsets[j] + if 0 <= j - (|offsets| - |t|) < |t| then t[j - (|offsets| - |t|)] else 0
  {
    seq(|offsets|, j requires 0 <= j < |offsets| =>
      offsets[j] + if 0 <= j - (|offsets| - |t|) < |t| then t[j - (|offsets| - |t|)] else 0)
  }

  /** Reading a block of memory gives a tensor. */
  ghost function Block<V>(memory: seq<int> -> V): (seq<int>, seq<nat>) -> Tensor<V> {
    (offsets, sizes) => t => memory(Address(offsets, t))
  }

  /** How many reduction dimensions come before dimension `d`. */
  function RankAt(dims: seq<Dim>, d: nat): nat
    requires d <= |dims|
  {
    if d == 0 then 0 else (if dims[0].reduction then 1 else 0) + RankAt(dims[1..], d - 1)
  }

  lemma {:induction false} DimsRank(dims: seq<Dim>, base: nat, i: nat)
    requires i < |Part(dims, true)|
    ensures var d := ReductionDims(dims, base)[i] - base; dims[d].reduction && RankAt(dims, d) == i
  {
    var j := if dims[0].reduction then i - 1 else i;
    if !(dims[0].reduction && i == 0) {
      DimsRank(dims[1..], base + 1, j);
      assert ReductionDims(dims, base)[i] == ReductionDims(dims[1..], base + 1)[j];
    }
  }

  lemma {:induction false} RankInPart(dims: seq<Dim>, d: nat)
    requires d < |dims| && dims[d].reduction
    ensures RankAt(dims, d) < |Part(dims, true)|
  {
    if d > 0 {
      RankInPart(dims[1..], d - 1);
    }
  }

  lemma {:induction false} MergeReduced(dims: seq<Dim>, r: seq<nat>, p: seq<nat>, d: nat)
    requires |r| == |Part(dims, true)| && d < |dims| && dims[d].reduction
    ensures RankAt(dims, d) < |r| && Merge(dims, r, p)[d] == r[RankAt(dims, d)]
  {
    RankInPart(dims, d);
    if d > 0 {
      var rest := dims[1..];
      assert rest[d - 1] == dims[d];
      MergeOneOn(dims, r, p, d - 1);
      if dims[0].reduction {
        MergeReduced(rest, r[1..], p, d - 1);
      } else {
        MergeReduced(rest, r, Tail(p), d - 1);
      }
    }
  }

  lemma MergeOneOn(dims: seq<Dim>, r: seq<nat>, p: seq<nat>, d: nat)
    requires d + 1 < |dims|
    ensures Merge(dims, r, p)[d + 1]
      == Merge(dims[1..], if dims[0].reduction then Tail(r) else r, if dims[0].reduction then p else Tail(p))[d]
  {
  }

  /** Each reduction dimension of a merge has its reduction coordinate. */
  lemma MergeAt(dims: seq<Dim>, r: seq<nat>, p: seq<nat>, i: nat)
    requires |r| == |Part(dims, true)| && i < |r|
    ensures Merge(dims, r, p)[ReductionDims(dims, 0)[i]] == r[i]
  {
    DimsRank(dims, 0, i);
    MergeReduced(dims, r, p, ReductionDims(dims, 0)[i]);
  }

  lemma {:induction false} ReducedIsListed(dims: seq<Dim>, base: nat, d: nat)
    requires d < |dims| && dims[d].reduction
    ensures base + d in ReductionDims(dims, base)
  {
    var rest := ReductionDims(dims[1..], base + 1);
    assert ReductionDims(dims, base) == (if dims[0].reduction then [base] else []) + rest;
    if d > 0 {
      ReducedIsListed(dims[1..], base + 1, d - 1);
      assert base + d in rest;
    }
  }

  /** Outside the reduction dimensions the reduction coordinates do not matter. */
  lemma {:induction false} MergeElsewhere(dims: seq<Dim>, r: seq<nat>, r': seq<nat>, p: seq<nat>, d: nat)
    requires d < |dims| && !dims[d].reduction
    ensures Merge(dims, r, p)[d] == Merge(dims, r', p)[d]
  {
    if d > 0 {
      MergeOneOn(dims, r, p, d - 1);
      MergeOneOn(dims, r', p, d - 1);
      if dims[0].reduction {
        MergeElsewhere(dims[1..], Tail(r), Tail(r'), p, d - 1);
      } else {
        MergeElsewhere(dims[1..], r, r', Tail(p), d - 1);
      }
    }
  }

  /** The transfer into the FIFO, before the loops are there: constant indices, one per memory dimension. */
  predicate WholeLoad(dims: seq<Dim>, op: Op) {
    && op.Load? && |op.indices| == |op.sizes| && |dims| <= |op.sizes|
    && forall k :: 0 <= k < |op.indices| ==> op.indices[k].Const?
  }

  /** In every reduction dimension it starts at 0. */
  predicate StartsAtZero(dims: seq<Dim>, op: Op)
    requires WholeLoad(dims, op)
  {
    forall i :: 0 <= i < |Part(dims, true)| ==> StartsAtZeroIn(dims, op, i)
  }

  predicate StartsAtZeroIn(dims: seq<Dim>, op: Op, i: nat)
    requires WholeLoad(dims, op) && i < |Part(dims, true)|
  {
    op.indices[ReductionDims(dims, 0)[i] + (|op.sizes| - |dims|)] == Const(0)
  }

  ghost predicate SliceOf(dims: seq<Dim>, was: Op, op: Op) {
    WholeLoad(dims, was) && ReadsSlice(was, op, ReductionDims(dims, 0), |was.sizes| - |dims|, |ReductionDims(dims, 0)|)
  }

  /** Slice `r` has at output element `p` what the whole tensor has at the merge of both. */
  ghost predicate RightElement(dims: seq<Dim>, was: Op, op: Op, r: seq<nat>, p: seq<nat>)
    requires SliceOf(dims, was, op) && |r| == |Part(dims, true)|
  {
    Address(Offsets(op.indices, r), Merge(dims, Zeros(|r|), p)) == Address(Offsets(was.indices, []), Merge(dims, r, p))
  }

  /** In the memory dimension of the `i`-th reduction dimension the index is the counter, not added to what it was. */
  lemma AddressInReduction(dims: seq<Dim>, was: Op, op: Op, r: seq<nat>, p: seq<nat>, i: nat)
    requires SliceOf(dims, was, op) && |r| == |Part(dims, true)| && i < |r|
    ensures var j := ReductionDims(dims, 0)[i] + (|was.sizes| - |dims|);
      j < |was.indices| == |op.indices|
      && Address(Offsets(op.indices, r), Merge(dims, Zeros(|r|), p))[j] == r[i]
      && Address(Offsets(was.indices, []), Merge(dims, r, p))[j] == was.indices[j].c + r[i]
  {
    CounterAddress(dims, was, op, r, p, i);
    var d := ReductionDims(dims, 0)[i];
    MergeAt(dims, r, p, i);
    AddressCoordinate(Offsets(was.indices, []), Merge(dims, r, p), d);
  }

  lemma CounterAddress(dims: seq<Dim>, was: Op, op: Op, r: seq<nat>, p: seq<nat>, i: nat)
    requires SliceOf(dims, was, op) && |r| == |Part(dims, true)| && i < |r|
    ensures var j := ReductionDims(dims, 0)[i] + (|was.sizes| - |dims|);
      j < |was.indices| == |op.indices| && Address(Offsets(op.indices, r), Merge(dims, Zeros(|r|), p))[j] == r[i]
  {
    var d := ReductionDims(dims, 0)[i];
    CounterIndex(dims, was, op, i);
    MergeAt(dims, Zeros(|r|), p, i);
    AddressCoordinate(Offsets(op.indices, r), Merge(dims, Zeros(|r|), p), d);
  }

  lemma CounterIndex(dims: seq<Dim>, was: Op, op: Op, i: nat)
    requires SliceOf(dims, was, op) && i < |Part(dims, true)|
    ensures var j := ReductionDims(dims, 0)[i] + (|was.sizes| - |dims|); j < |was.indices| == |op.indices| && op.indices[j] == Counter(i)
  {
    SliceIndex(was, op, ReductionDims(dims, 0), |was.sizes| - |dims|, i);
  }

  lemma SliceIndex(was: Op, op: Op, reductionDims: seq<nat>, offset: nat, i: nat)
    requires was.Load? && i < |reductionDims| && reductionDims[i] + offset < |was.indices|
    ensures ReadsSlice(was, op, reductionDims, offset, |reductionDims|) ==>
      |op.indices| == |was.indices| && op.indices[reductionDims[i] + offset] == Counter(i)
  {
    assert MemoryDim(reductionDims, offset, i) == reductionDims[i] + offset;
  }

  lemma AddressCoordinate(offsets: seq<int>, t: seq<nat>, d: nat)
    requires d < |t| <= |offsets|
    ensures Address(offsets, t)[d + (|offsets| - |t|)] == offsets[d + (|offsets| - |t|)] + t[d]
  {
  }

  /** In every other memory dimension nothing has changed. */
  lemma AddressElsewhere(dims: seq<Dim>, was: Op, op: Op, r: seq<nat>, p: seq<nat>, j: nat)
    requires SliceOf(dims, was, op) && |r| == |Part(dims, true)| && j < |was.indices|
    requires forall i :: 0 <= i < |r| ==> ReductionDims(dims, 0)[i] + (|was.sizes| - |dims|) != j
    ensures |op.indices| == |was.indices|
    ensures Address(Offsets(op.indices, r), Merge(dims, Zeros(|r|), p))[j] == Address(Offsets(was.indices, []), Merge(dims, r, p))[j]
  {
    var offset := |was.sizes| - |dims|;
    assert forall i :: 0 <= i < |r| ==> j != MemoryDim(ReductionDims(dims, 0), offset, i);
    assert op.indices[j] == was.indices[j];
    if j >= offset {
      if dims[j - offset].reduction {
        ReducedIsListed(dims, 0, j - offset);
        assert false;
      }
      MergeElsewhere(dims, r, Zeros(|r|), p, j - offset);
    }
  }

  lemma ZeroIsRightAt(dims: seq<Dim>, was: Op, op: Op, r: seq<nat>, p: seq<nat>, j: nat)
    requires SliceOf(dims, was, op) && |r| == |Part(dims, true)| && StartsAtZero(dims, was) && j < |was.indices|
    ensures |op.indices| == |was.indices|
    ensures Address(Offsets(op.indices, r), Merge(dims, Zeros(|r|), p))[j] == Address(Offsets(was.indices, []), Merge(dims, r, p))[j]
  {
    if i :| 0 <= i < |r| && ReductionDims(dims, 0)[i] + (|was.sizes| - |dims|) == j {
      AddressInReduction(dims, was, op, r, p, i);
      assert StartsAtZeroIn(dims, was, i);
    } else {
      AddressElsewhere(dims, was, op, r, p, j);
    }
  }

  lemma ZeroIsRight(dims: seq<Dim>, was: Op, op: Op, r: seq<nat>, p: seq<nat>)
    requires SliceOf(dims, was, op) && |r| == |Part(dims, true)| && StartsAtZero(dims, was)
    ensures RightElement(dims, was, op, r, p)
  {
    var a := Address(Offsets(op.indices, r), Merge(dims, Zeros(|r|), p));
    var b := Address(Offsets(was.indices, []), Merge(dims, r, p));
    forall j | 0 <= j < |was.indices| ensures a[j] == b[j] {
      ZeroIsRightAt(dims, was, op, r, p, j);
    }
  }

  lemma RightIsZeroAt(dims: seq<Dim>, was: Op, op: Op, r: seq<nat>, p: seq<nat>, i: nat)
    requires SliceOf(dims, was, op) && |r| == |Part(dims, true)| && i < |r|
    requires RightElement(dims, was, op, r, p)
    ensures StartsAtZeroIn(dims, was, i)
  {
    AddressInReduction(dims, was, op, r, p, i);
  }

  lemma RightIsZero(dims: seq<Dim>, was: Op, op: Op, r: seq<nat>, p: seq<nat>)
    requires SliceOf(dims, was, op) && |r| == |Part(dims, true)| && RightElement(dims, was, op, r, p)
    ensures StartsAtZero(dims, was)
  {
    forall i | 0 <= i < |r| ensures StartsAtZeroIn(dims, was, i) {
      RightIsZeroAt(dims, was, op, r, p, i);
    }
  }

  /**
   * The rewritten transfer reads the right elements exactly when the original one started at 0 in every
   * reduction dimension: the counter replaces the index instead of being added to it.
   */
  lemma RightElementIff(dims: seq<Dim>, was: Op, op: Op, r: seq<nat>, p: seq<nat>)
    requires SliceOf(dims, was, op) && |r| == |Part(dims, true)|
    ensures RightElement(dims, was, op, r, p) <==> StartsAtZero(dims, was)
  {
    if StartsAtZero(dims, was) {
      ZeroIsRight(dims, was, op, r, p);
    }
    if RightElement(dims, was, op, r, p) {
      RightIsZero(dims, was, op, r, p);
    }
  }

  // ---------------------------------------------------------------------------------------------
  // The stored result
  // ---------------------------------------------------------------------------------------------

  /** What the generic operation sees of the loaded tensor. */
  ghost function Loaded<V>(memory: seq<int> -> V, was: Op): Tensor<V>
    requires was.Load?
  {
    Block(memory)(Offsets(was.indices, []), was.sizes)
  }

  ghost function ExposedMeaning<V>(c: (V, V) -> V, dims: seq<Dim>, memory: seq<int> -> V, empty: Tensor<V>, zero: Tensor<V>): Meaning<Tensor<V>> {
    Meaning(Block(memory), Generic(c, Sliced(dims)), empty, zero)
  }

  /** The elements that the slices have at `p` are the elements of the whole tensor that belong to `p`. */
  lemma {:induction false} SliceElements<V>(m: Meaning<Tensor<V>>, memory: seq<int> -> V, dims: seq<Dim>, was: Op, op: Op,
      rs: seq<seq<nat>>, p: seq<nat>)
    requires SliceOf(dims, was, op) && StartsAtZero(dims, was) && m.block == Block(memory)
    requires forall k :: 0 <= k < |rs| ==> |rs[k]| == |Part(dims, true)|
    ensures ElementsOf(Slices(m, op, [], rs), Merge(dims, Zeros(|Part(dims, true)|), p))
      == Elements(Loaded(memory, was), MergeAll(dims, rs, p))
    decreases |rs|
  {
    if rs != [] {
      var t := Merge(dims, Zeros(|Part(dims, true)|), p);
      SliceElements(m, memory, dims, was, op, rs[1..], p);
      ZeroIsRight(dims, was, op, rs[0], p);
      assert [] + rs[0] == rs[0];
      assert Slices(m, op, [], rs)[0](t) == Loaded(memory, was)(Merge(dims, rs[0], p));
      assert MergeAll(dims, rs, p)[1..] == MergeAll(dims, rs[1..], p);
      assert Slices(m, op, [], rs)[1..] == Slices(m, op, [], rs[1..]);
    }
  }

  /**
   * Whatever the element operation, the memory and the dimensions: where the transfer started at 0 in
   * the reduction dimensions, every element of the stored tensor is what the generic operation over all
   * dimensions makes of the whole tensor, from the same start.
   */
  lemma ExposedStoresGeneric<V>(c: (V, V) -> V, dims: seq<Dim>, memory: seq<int> -> V, empty: Tensor<V>, zero: Tensor<V>,
      was: Op, op: Op, start: Tensor<V>, p: seq<nat>)
    requires SliceOf(dims, was, op) && StartsAtZero(dims, was) && InRange(p, Part(dims, false))
    ensures var m := ExposedMeaning(c, dims, memory, empty, zero);
      Fold(m.combine, start, Slices(m, op, [], Tuples(Part(dims, true))))(p)
      == Generic(c, dims)(start, Loaded(memory, was))(p)
  {
    var m := ExposedMeaning(c, dims, memory, empty, zero);
    var rs := Tuples(Part(dims, true));
    forall k | 0 <= k < |rs| ensures |rs[k]| == |Part(dims, true)| {
      TuplesInRange(Part(dims, true), rs[k]);
    }
    FoldSlices(c, dims, start, Slices(m, op, [], rs), p);
    SliceElements(m, memory, dims, was, op, rs, p);
    GenericAt(c, dims, Loaded(memory, was), Tuples(SizesOf(dims)), start, p);
    SameOrder(dims, p);
  }

  /** What the store stage of the exposed pipeline has stored when all stages have run. */
  ghost function StoredBy<T>(m: Meaning<T>, buffered: bool, sizes: seq<nat>, loads: seq<Op>, stores: seq<Op>, sk: nat, any: T): seq<T>
    requires sizes != [] && AllPositive(sizes) && sk < |stores|
  {
    var load := Exec(m, Nest(sizes, Nothing, Straight(loads)), [], Fed([], any));
    var compute := Exec(m, ComputeStage(buffered, 0, sizes), [], Fed(load.state.output, any));
    Exec(m, Nest(sizes, Nothing, GuardedAt(stores, sk, CountersFrom(0, |sizes|), sizes)), [], Fed(compute.state.output, any)).state.stored
  }

  /**
   * The exposed pipeline, carrying its accumulator or with the buffer, stores one tensor, and each of its
   * elements is the original reduction of the whole input.
   */
  lemma ExposureKeepsReduction<V>(c: (V, V) -> V, dims: seq<Dim>, memory: seq<int> -> V, empty: Tensor<V>, zero: Tensor<V>,
      buffered: bool, loads: seq<Op>, lk: nat, was: Op, stores: seq<Op>, sk: nat, any: Tensor<V>, p: seq<nat>)
    requires Part(dims, true) != [] && AllPositive(Part(dims, true)) && InRange(p, Part(dims, false))
    requires OnlyAt(loads, lk) && SliceOf(dims, was, loads[lk]) && StartsAtZero(dims, was)
    requires OnlyAt(stores, sk) && stores[sk] == Store
    ensures var stored := StoredBy(ExposedMeaning(c, dims, memory, empty, zero), buffered, Part(dims, true), loads, stores, sk, any);
      |stored| == 1 && stored[0](p) == Generic(c, dims)(if buffered then zero else empty, Loaded(memory, was))(p)
  {
    var m := ExposedMeaning(c, dims, memory, empty, zero);
    ExposedPipelineStoresFold(m, buffered, Part(dims, true), loads, lk, stores, sk, any);
    ExposedStoresGeneric(c, dims, memory, empty, zero, was, loads[lk], if buffered then zero else empty, p);
  }

  /** The stored tensor has at `p` what the original generic operation, which starts from `init`, would give. */
  ghost predicate KeepsReductionAt<V>(c: (V, V) -> V, dims: seq<Dim>, memory: seq<int> -> V, empty: Tensor<V>, zero: Tensor<V>, init: Tensor<V>,
      buffered: bool, loads: seq<Op>, was: Op, stores: seq<Op>, sk: nat, any: Tensor<V>, p: seq<nat>)
    requires Part(dims, true) != [] && AllPositive(Part(dims, true)) && sk < |stores| && was.Load?
  {
    var stored := StoredBy(ExposedMeaning(c, dims, memory, empty, zero), buffered, Part(dims, true), loads, stores, sk, any);
    |stored| == 1 && stored[0](p) == Generic(c, dims)(init, Loaded(memory, was))(p)
  }

  lemma {:induction false} FoldKeepsFirst<V>(start: V, xs: seq<V>)
    ensures Fold((a: V, b: V) => a, start, xs) == start
  {
    if xs != [] {
      FoldKeepsFirst(start, xs[1..]);
    }
  }

  lemma GenericIsFold<V>(c: (V, V) -> V, dims: seq<Dim>, input: Tensor<V>, acc: Tensor<V>, p: seq<nat>)
    ensures Generic(c, dims)(acc, input)(p) == Fold(c, acc(p), Elements(input, Select(dims, Tuples(SizesOf(dims)), p)))
  {
    GenericAt(c, dims, input, Tuples(SizesOf(dims)), acc, p);
  }

  ghost predicate SameResult<V>(c: (V, V) -> V, dims: seq<Dim>, input: Tensor<V>, acc: Tensor<V>, acc': Tensor<V>, p: seq<nat>) {
    Generic(c, dims)(acc, input)(p) == Generic(c, dims)(acc', input)(p)
  }

  /** Two start values give the same result for every element operation only when they are the same. */
  lemma StartMatters<V(!new)>(dims: seq<Dim>, input: Tensor<V>, acc: Tensor<V>, acc': Tensor<V>, p: seq<nat>)
    ensures (forall c: (V, V) -> V :: SameResult(c, dims, input, acc, acc', p)) <==> acc(p) == acc'(p)
  {
    var xs := Elements(input, Select(dims, Tuples(SizesOf(dims)), p));
    var first := (a: V, b: V) => a;
    FoldKeepsFirst(acc(p), xs);
    FoldKeepsFirst(acc'(p), xs);
    forall c: (V, V) -> V ensures SameResult(c, dims, input, acc, acc', p) <==> Fold(c, acc(p), xs) == Fold(c, acc'(p), xs) {
      GenericIsFold(c, dims, input, acc, p);
      GenericIsFold(c, dims, input, acc', p);
    }
    assert SameResult(first, dims, input, acc, acc', p) ==> acc(p) == acc'(p);
  }

  /**
   * The rewritten generic operation starts from the new empty tensor, or from the zero-filled buffer, not
   * from what the original one started from: the result is the original one, for every element operation,
   * exactly when the two have the same element there.
   */
  lemma ExposureKeepsReductionIff<V(!new)>(dims: seq<Dim>, memory: seq<int> -> V, empty: Tensor<V>, zero: Tensor<V>, init: Tensor<V>,
      buffered: bool, loads: seq<Op>, lk: nat, was: Op, stores: seq<Op>, sk: nat, any: Tensor<V>, p: seq<nat>)
    requires Part(dims, true) != [] && AllPositive(Part(dims, true)) && InRange(p, Part(dims, false))
    requires OnlyAt(loads, lk) && SliceOf(dims, was, loads[lk]) && StartsAtZero(dims, was)
    requires OnlyAt(stores, sk) && stores[sk] == Store
    ensures (forall c: (V, V) -> V :: KeepsReductionAt(c, dims, memory, empty, zero, init, buffered, loads, was, stores, sk, any, p))
      <==> init(p) == if buffered then zero(p) else empty(p)
  {
    var start: Tensor<V> := if buffered then zero else empty;
    var input: Tensor<V> := Loaded(memory, was);
    StartMatters(dims, input, start, init, p);
    forall c: (V, V) -> V
      ensures KeepsReductionAt(c, dims, memory, empty, zero, init, buffered, loads, was, stores, sk, any, p)
        <==> SameResult(c, dims, input, start, init, p)
    {
      ExposureKeepsReduction(c, dims, memory, empty, zero, buffered, loads, lk, was, stores, sk, any, p);
    }
  }
}
