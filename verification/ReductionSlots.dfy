/**
 * What is known of a reduction before its loops are built, and the FIFO slots, which shrink by the
 * number of iterations so that each holds one slice.
 */
module ReductionSlots {
  import opened Arithmetic
  import opened Sequences
  import opened LoopNests
  import opened ReductionOrder
  import opened ReductionElements

  /** A dimension of the generic operation; the size of the input may be unknown. */
  datatype Iterator = Iterator(size: Option<nat>, reduction: bool)

  datatype ReductionInfo = ReductionInfo(dims: seq<nat>, sizes: seq<nat>, total: nat)

  /** The dimensions, with 0 for an unknown size. */
  function Known(its: seq<Iterator>): (r: seq<Dim>)
    ensures |r| == |its|
    ensures forall k :: 0 <= k < |r| ==> r[k] == Dim(if its[k].size.Some? then its[k].size.value else 0, its[k].reduction)
  {
    seq(|its|, k requires 0 <= k < |its| => Dim(if its[k].size.Some? then its[k].size.value else 0, its[k].reduction))
  }

  function OwnSize(d: Dim): seq<nat> {
    if d.reduction then [d.size] else []
  }

  lemma {:induction false} PartSnoc(dims: seq<Dim>, d: Dim)
    ensures Part(dims + [d], true) == Part(dims, true) + OwnSize(d)
  {
    if dims == [] {
      assert dims + [d] == [d] && [d][1..] == [];
    } else {
      var rest := dims[1..];
      assert (dims + [d])[0] == dims[0] && (dims + [d])[1..] == rest + [d];
      PartSnoc(rest, d);
      JoinThree(OwnSize(dims[0]), Part(rest, true), OwnSize(d));
    }
  }

  lemma JoinThree(a: seq<nat>, b: seq<nat>, c: seq<nat>)
    ensures a + (b + c) == (a + b) + c
  {
  }

  lemma {:induction false} ReductionDimsSnoc(dims: seq<Dim>, d: Dim, base: nat)
    ensures ReductionDims(dims + [d], base) == ReductionDims(dims, base) + (if d.reduction then [base + |dims|] else [])
    decreases |dims|
  {
    if dims == [] {
      assert dims + [d] == [d] && [d][1..] == [];
      assert ReductionDims([d][1..], base + 1) == [];
    } else {
      assert (dims + [d])[0] == dims[0] && (dims + [d])[1..] == dims[1..] + [d];
      ReductionDimsSnoc(dims[1..], d, base + 1);
    }
  }

  /** What the first `k` dimensions contribute. */
  ghost predicate CollectedUpTo(its: seq<Iterator>, k: nat, found: ReductionInfo)
    requires k <= |its|
  {
    && (forall j :: 0 <= j < k && its[j].reduction ==> its[j].size.Some?)
    && (found.dims == [] <==> forall j :: 0 <= j < k ==> !its[j].reduction)
    && found.dims == ReductionDims(Known(its)[..k], 0) && found.sizes == Part(Known(its)[..k], true)
    && found.total == Product(found.sizes)
  }

  lemma CollectedNext(its: seq<Iterator>, k: nat, found: ReductionInfo)
    requires k < |its| && CollectedUpTo(its, k, found) && (its[k].reduction ==> its[k].size.Some?)
    ensures CollectedUpTo(its, k + 1,
      if !its[k].reduction then found
      else ReductionInfo(found.dims + [k], found.sizes + [its[k].size.value], found.total * its[k].size.value))
  {
    var all := Known(its);
    assert all[..k + 1] == all[..k] + [all[k]];
    PartSnoc(all[..k], all[k]);
    ReductionDimsSnoc(all[..k], all[k], 0);
    if its[k].reduction {
      ProductSnoc(found.sizes, its[k].size.value);
    }
  }

  lemma {:induction false} ProductSnoc(sizes: seq<nat>, n: nat)
    ensures Product(sizes + [n]) == Product(sizes) * n
  {
    if sizes == [] {
      assert [n][1..] == [];
      assert sizes + [n] == [n];
    } else {
      assert (sizes + [n])[1..] == sizes[1..] + [n];
      ProductSnoc(sizes[1..], n);
      MulShuffle(sizes[0], Product(sizes[1..]), n);
    }
  }

  lemma MulShuffle(a: int, b: int, n: int)
    ensures a * (b * n) == (a * b) * n
  {
  }

  /** The reduction dimensions of known size; nothing when there are none, or one is of unknown size. */
  method CollectReductionInfo(its: seq<Iterator>) returns (info: Option<ReductionInfo>)
    ensures info.Some? <==>
      ((exists k :: 0 <= k < |its| && its[k].reduction) && forall k :: 0 <= k < |its| && its[k].reduction ==> its[k].size.Some?)
    ensures info.Some? ==> var dims := Known(its);
      && info.value.dims == ReductionDims(dims, 0) && info.value.dims != []
      && info.value.sizes == Part(dims, true) && info.value.total == |Tuples(Part(dims, true))|
  {
    var found := ReductionInfo([], [], 1);
    var k := 0;
    while k < |its|
      invariant k <= |its| && CollectedUpTo(its, k, found)
    {
      if its[k].reduction && its[k].size.None? {
        return None;
      }
      CollectedNext(its, k, found);
      if its[k].reduction {
        found := ReductionInfo(found.dims + [k], found.sizes + [its[k].size.value], found.total * its[k].size.value);
      }
      k := k + 1;
    }
    assert Known(its)[..k] == Known(its);
    if found.dims == [] {
      return None;
    }
    CountTuples(found.sizes);
    return Some(found);
  }

  // ---------------------------------------------------------------------------------------------
  // FIFO slots
  // ---------------------------------------------------------------------------------------------

  /** The type of a private result; `link` stands for the engines and the element type. */
  datatype ResultType = Fifo(link: nat, elems: nat) | Plain(code: nat)

  predicate Shrinks(t: ResultType, factor: nat)
    requires factor > 0
  {
    t.Fifo? && t.elems % factor == 0
  }

  function Shrunk(t: ResultType, factor: nat): (r: ResultType)
    requires factor > 0
  {
    if Shrinks(t, factor) then Fifo(t.link, t.elems / factor) else t
  }

  /**
   * A type, patched for each shrunken slot in turn: whenever it is the old type of that slot, it becomes
   * the new one.
   */
  function Patched(t: ResultType, results: seq<ResultType>, factor: nat, order: seq<nat>): ResultType
    requires factor > 0 && forall k :: 0 <= k < |order| ==> order[k] < |results|
    decreases |order|
  {
    if order == [] then t
    else Patched(if t == results[order[0]] then Shrunk(t, factor) else t, results, factor, order[1..])
  }

  /**
   * All slots whose size is a multiple of the factor shrink; the allocations in the body are patched by
   * type, slot by slot in some `order`. Nothing when no slot shrinks.
   */
  method ShrinkPrivateFifoSlots(results: seq<ResultType>, allocs: seq<ResultType>, factor: nat, order: seq<nat>)
    returns (r: Option<(seq<ResultType>, seq<ResultType>)>)
    requires factor > 0 && forall k :: 0 <= k < |order| ==> order[k] < |results|
    ensures r == None <==> forall i :: 0 <= i < |results| ==> !Shrinks(results[i], factor)
    ensures r.Some? ==>
      && |r.value.0| == |results| && (forall i :: 0 <= i < |results| ==> r.value.0[i] == Shrunk(results[i], factor))
      && |r.value.1| == |allocs| && forall k :: 0 <= k < |allocs| ==> r.value.1[k] == Patched(allocs[k], results, factor, order)
  {
    var newResults := results;
    var any := false;
    var i := 0;
    while i < |results|
      invariant i <= |results| && |newResults| == |results|
      invariant any <==> exists j :: 0 <= j < i && Shrinks(results[j], factor)
      invariant forall j :: 0 <= j < |results| ==> newResults[j] == if j < i then Shrunk(results[j], factor) else results[j]
    {
      if Shrinks(results[i], factor) {
        any := true;
        newResults := newResults[i := Fifo(results[i].link, results[i].elems / factor)];
      }
      i := i + 1;
    }
    if !any {
      return None;
    }
    var newAllocs: seq<ResultType> := [];
    while |newAllocs| < |allocs|
      invariant |newAllocs| <= |allocs|
      invariant forall k :: 0 <= k < |newAllocs| ==> newAllocs[k] == Patched(allocs[k], results, factor, order)
    {
      var alloc := allocs[|newAllocs|];
      var n := 0;
      while n < |order|
        invariant n <= |order|
        invariant Patched(allocs[|newAllocs|], results, factor, order) == Patched(alloc, results, factor, order[n..])
      {
        if alloc == results[order[n]] && Shrinks(results[order[n]], factor) {
          alloc := Fifo(alloc.link, alloc.elems / factor);
        }
        n := n + 1;
      }
      newAllocs := newAllocs + [alloc];
    }
    return Some((newResults, newAllocs));
  }

  /** Some slot after place `n` of the order has type `t`, and would shrink it. */
  ghost predicate ShrinksAgain(t: ResultType, results: seq<ResultType>, factor: nat, order: seq<nat>, n: nat)
    requires factor > 0 && n <= |order| && forall k :: 0 <= k < |order| ==> order[k] < |results|
  {
    Shrunk(t, factor) != t && exists k :: n <= k < |order| && results[order[k]] == t
  }

  lemma SmallerWhenShrunk(t: ResultType, factor: nat)
    requires factor > 0
    ensures Shrunk(t, factor) == t || (t.Fifo? && Shrunk(t, factor).Fifo? && Shrunk(t, factor).elems < t.elems)
  {
    if Shrinks(t, factor) && factor > 1 && t.elems > 0 {
      QuotientIsSmaller(t.elems, factor);
    } else if Shrinks(t, factor) && factor > 1 {
      DivModUnique(0, factor, 0, 0);
    }
  }

  lemma QuotientIsSmaller(n: nat, factor: nat)
    requires factor > 1 && n > 0
    ensures n / factor < n
  {
    var q := n / factor;
    assert n == q * factor + n % factor;
    MulMonotone(2, factor, q);
  }

  /** A patched type is no larger, and the same only when nothing shrank it. */
  lemma {:induction false} PatchedIsSmaller(t: ResultType, results: seq<ResultType>, factor: nat, order: seq<nat>)
    requires factor > 0 && forall k :: 0 <= k < |order| ==> order[k] < |results|
    ensures Patched(t, results, factor, order) == t
      || (t.Fifo? && Patched(t, results, factor, order).Fifo? && Patched(t, results, factor, order).elems < t.elems)
    ensures Patched(t, results, factor, order) == t <==> !ShrinksAgain(t, results, factor, order, 0)
    decreases |order|
  {
    if order != [] {
      var next := if t == results[order[0]] then Shrunk(t, factor) else t;
      SmallerWhenShrunk(t, factor);
      PatchedIsSmaller(next, results, factor, order[1..]);
      if t != results[order[0]] {
        assert ShrinksAgain(t, results, factor, order, 0) <==> ShrinksAgain(t, results, factor, order[1..], 0) by {
          if k :| 0 <= k < |order| && results[order[k]] == t {
            assert results[order[1..][k - 1]] == t;
          }
          if k :| 0 <= k < |order[1..]| && results[order[1..][k]] == t {
            assert results[order[k + 1]] == t;
          }
        }
      } else if Shrunk(t, factor) == t {
        assert !ShrinksAgain(t, results, factor, order, 0);
      } else {
        assert results[order[0]] == t;
      }
    }
  }

  /**
   * The allocation of slot `i` ends up with the slot's new type exactly when no slot that comes later in
   * the order than the first of its old type has that new type and shrinks it once more.
   */
  lemma {:induction false} AllocationAgreesIff(results: seq<ResultType>, factor: nat, order: seq<nat>, t: ResultType, first: nat)
    requires factor > 0 && forall k :: 0 <= k < |order| ==> order[k] < |results|
    requires first < |order| && results[order[first]] == t && forall k :: 0 <= k < first ==> results[order[k]] != t
    ensures Patched(t, results, factor, order) == Shrunk(t, factor)
      <==> !ShrinksAgain(Shrunk(t, factor), results, factor, order, first + 1)
    decreases first
  {
    if first == 0 {
      PatchedIsSmaller(Shrunk(t, factor), results, factor, order[1..]);
      assert ShrinksAgain(Shrunk(t, factor), results, factor, order, 1) <==> ShrinksAgain(Shrunk(t, factor), results, factor, order[1..], 0) by {
        LaterInRest(Shrunk(t, factor), results, factor, order, 0);
      }
    } else {
      AllocationAgreesIff(results, factor, order[1..], t, first - 1);
      LaterInRest(Shrunk(t, factor), results, factor, order, first);
    }
  }

  lemma LaterInRest(t: ResultType, results: seq<ResultType>, factor: nat, order: seq<nat>, n: nat)
    requires factor > 0 && n < |order| && forall k :: 0 <= k < |order| ==> order[k] < |results|
    ensures ShrinksAgain(t, results, factor, order, n + 1) <==> ShrinksAgain(t, results, factor, order[1..], n)
  {
    if k :| n + 1 <= k < |order| && results[order[k]] == t {
      assert results[order[1..][k - 1]] == t;
    }
    if k :| n <= k < |order[1..]| && results[order[1..][k]] == t {
      assert results[order[k + 1]] == t;
    }
  }

  // ---------------------------------------------------------------------------------------------
  // Whatever the order
  // ---------------------------------------------------------------------------------------------

  /** An order in which a map may list the slots that shrink. */
  ghost predicate MapOrder(order: seq<nat>, results: seq<ResultType>, factor: nat)
    requires factor > 0
  {
    && NoDup(order) && (forall k :: 0 <= k < |order| ==> order[k] < |results|)
    && forall i: nat :: i in order <==> i < |results| && Shrinks(results[i], factor)
  }

  ghost predicate AllocationsAgree(results: seq<ResultType>, factor: nat, order: seq<nat>)
    requires factor > 0 && MapOrder(order, results, factor)
  {
    forall i :: 0 <= i < |results| ==> Patched(results[i], results, factor, order) == Shrunk(results[i], factor)
  }

  /** The new type of a slot is the old type of a slot that shrinks too. */
  ghost predicate Chained(results: seq<ResultType>, factor: nat)
    requires factor > 0
  {
    exists i, j :: 0 <= i < |results| && 0 <= j < |results| && ChainedAt(results, factor, i, j)
  }

  predicate ChainedAt(results: seq<ResultType>, factor: nat, i: nat, j: nat)
    requires factor > 0 && i < |results| && j < |results|
  {
    && results[i] != results[j] && results[j] == Shrunk(results[i], factor) && Shrunk(results[j], factor) != results[j]
  }

  /** The slots that shrink among the first `n`, without `skip`. */
  function ShrinkingBut(results: seq<ResultType>, factor: nat, skip: nat, n: nat): (r: seq<nat>)
    requires factor > 0 && n <= |results|
    ensures forall i: nat :: i in r <==> i < n && i != skip && Shrinks(results[i], factor)
    ensures NoDup(r)
  {
    if n == 0 then []
    else
      var r := ShrinkingBut(results, factor, skip, n - 1);
      if n - 1 != skip && Shrinks(results[n - 1], factor) then r + [n - 1] else r
  }

  lemma {:induction false} FirstOfType(results: seq<ResultType>, order: seq<nat>, t: ResultType, k: nat) returns (first: nat)
    requires forall n :: 0 <= n < |order| ==> order[n] < |results|
    requires k < |order| && results[order[k]] == t
    ensures first <= k && results[order[first]] == t && forall n :: 0 <= n < first ==> results[order[n]] != t
    decreases k
  {
    if n :| 0 <= n < k && results[order[n]] == t {
      first := FirstOfType(results, order, t, n);
    } else {
      first := k;
    }
  }

  lemma NotChainedAt(results: seq<ResultType>, factor: nat, i: nat, j: nat)
    requires factor > 0 && !Chained(results, factor) && i < |results| && j < |results|
    ensures !ChainedAt(results, factor, i, j)
  {
  }

  lemma UnchainedAgree(results: seq<ResultType>, factor: nat, order: seq<nat>, i: nat)
    requires factor > 0 && MapOrder(order, results, factor) && !Chained(results, factor) && i < |results|
    ensures Patched(results[i], results, factor, order) == Shrunk(results[i], factor)
  {
    var t := results[i];
    if Shrinks(t, factor) {
      var k :| 0 <= k < |order| && order[k] == i;
      var first := FirstOfType(results, order, t, k);
      AllocationAgreesIff(results, factor, order, t, first);
      forall n | first + 1 <= n < |order|
        ensures Shrunk(Shrunk(t, factor), factor) == Shrunk(t, factor) || results[order[n]] != Shrunk(t, factor)
      {
        NotChainedAt(results, factor, i, order[n]);
      }
    } else {
      PatchedIsSmaller(t, results, factor, order);
    }
  }

  /** The slots that shrink, slot `i` first. */
  lemma OrderFrom(results: seq<ResultType>, factor: nat, i: nat) returns (order: seq<nat>)
    requires factor > 0 && i < |results| && Shrinks(results[i], factor)
    ensures MapOrder(order, results, factor) && |order| > 0 && order[0] == i
  {
    var rest := ShrinkingBut(results, factor, i, |results|);
    order := [i] + rest;
    forall k | 0 <= k < |order| ensures order[k] < |results| {
      assert k > 0 ==> order[k] in rest;
    }
  }

  lemma ChainedDisagree(results: seq<ResultType>, factor: nat, i: nat, j: nat) returns (order: seq<nat>)
    requires factor > 0 && i < |results| && j < |results| && ChainedAt(results, factor, i, j)
    ensures MapOrder(order, results, factor) && !AllocationsAgree(results, factor, order)
  {
    order := OrderFrom(results, factor, i);
    var k :| 0 <= k < |order| && order[k] == j;
    assert ShrinksAgain(Shrunk(results[i], factor), results, factor, order, 1);
    AllocationAgreesIff(results, factor, order, results[i], 0);
  }

  /**
   * All allocations end up with the new types of their slots, in whatever order the slots come, exactly
   * when no slot shrinks to the type of another that shrinks.
   */
  lemma AllAllocationsAgreeIff(results: seq<ResultType>, factor: nat)
    requires factor > 0
    ensures (forall order: seq<nat> | MapOrder(order, results, factor) :: AllocationsAgree(results, factor, order)) <==> !Chained(results, factor)
  {
    if Chained(results, factor) {
      var i, j :| 0 <= i < |results| && 0 <= j < |results| && ChainedAt(results, factor, i, j);
      var order := ChainedDisagree(results, factor, i, j);
    } else {
      forall order: seq<nat> | MapOrder(order, results, factor) ensures AllocationsAgree(results, factor, order) {
        forall i | 0 <= i < |results| ensures Patched(results[i], results, factor, order) == Shrunk(results[i], factor) {
          UnchainedAgree(results, factor, order, i);
        }
      }
    }
  }

  /** Slots of 16 and 4 elements on the same link, by 4: the allocation of the first may end with 1 element. */
  lemma ShrunkTwice(link: nat)
    ensures var results := [Fifo(link, 16), Fifo(link, 4)];
      MapOrder([0, 1], results, 4) && Patched(results[0], results, 4, [0, 1]) == Fifo(link, 1) && Shrunk(results[0], 4) == Fifo(link, 4)
  {
    var results := [Fifo(link, 16), Fifo(link, 4)];
    assert [0, 1][1..] == [1] && [1][1..] == [];
    assert Patched(results[0], results, 4, [0, 1]) == Patched(Fifo(link, 4), results, 4, [1]);
    assert Patched(Fifo(link, 4), results, 4, [1]) == Patched(Fifo(link, 1), results, 4, []);
  }

  // ---------------------------------------------------------------------------------------------
  // What the slots hold
  // ---------------------------------------------------------------------------------------------

  lemma PartProduct(dims: seq<Dim>, reduction: bool)
    requires dims != []
    ensures Product(Part(dims, reduction))
      == if dims[0].reduction == reduction then dims[0].size * Product(Part(dims[1..], reduction)) else Product(Part(dims[1..], reduction))
  {
    if dims[0].reduction == reduction {
      assert ([dims[0].size] + Part(dims[1..], reduction))[1..] == Part(dims[1..], reduction);
    } else {
      assert [] + Part(dims[1..], reduction) == Part(dims[1..], reduction);
    }
  }

  lemma SizesProduct(dims: seq<Dim>)
    requires dims != []
    ensures Product(SizesOf(dims)) == dims[0].size * Product(SizesOf(dims[1..]))
  {
    assert ([dims[0].size] + SizesOf(dims[1..]))[1..] == SizesOf(dims[1..]);
  }

  lemma {:induction false} ProductOfParts(dims: seq<Dim>)
    ensures Product(SizesOf(dims)) == Product(Part(dims, false)) * Product(Part(dims, true))
  {
    if dims != [] {
      var n, p, r := dims[0].size, Product(Part(dims[1..], false)), Product(Part(dims[1..], true));
      ProductOfParts(dims[1..]);
      SizesProduct(dims);
      PartProduct(dims, false);
      PartProduct(dims, true);
      MulShuffle(n, p, r);
      MulShuffle(p, n, r);
      assert n * p == p * n;
    }
  }

  lemma {:induction false} ProductOfOnes(n: nat)
    ensures Product(Ones(n)) == 1
  {
    if n > 0 {
      ProductOfOnes(n - 1);
      assert Ones(n)[1..] == Ones(n - 1);
    }
  }

  /** A slot for the whole input shrinks, to what one slice has. */
  lemma InputSlotHoldsSlice(dims: seq<Dim>, link: nat)
    requires AllPositive(Part(dims, true))
    ensures Product(Part(dims, true)) > 0
    ensures Shrunk(Fifo(link, |Tuples(SizesOf(dims))|), Product(Part(dims, true))) == Fifo(link, |Tuples(SizesOf(Sliced(dims)))|)
  {
    var factor, kept := Product(Part(dims, true)), Product(Part(dims, false));
    CountTuples(SizesOf(dims));
    CountTuples(SizesOf(Sliced(dims)));
    ProductOfParts(dims);
    ProductOfParts(Sliced(dims));
    SlicedParts(dims);
    ProductOfOnes(|Part(dims, true)|);
    DivModUnique(kept * factor, factor, kept, 0);
  }

  /**
   * A slot for the whole result still holds the result exactly when there is one iteration only or its
   * size is no multiple of the iterations; otherwise it holds one part in so many of what is written to it.
   */
  lemma OutputSlotHoldsResultIff(dims: seq<Dim>, link: nat)
    requires AllPositive(Part(dims, true)) && AllPositive(Part(dims, false))
    ensures Product(Part(dims, true)) > 0
    ensures var factor, result := Product(Part(dims, true)), |Tuples(Part(dims, false))|;
      var shrunk := Shrunk(Fifo(link, result), factor);
      && (shrunk.elems == result <==> factor == 1 || result % factor != 0)
      && (shrunk.elems != result ==> shrunk.elems * factor == result)
  {
    CountTuples(Part(dims, false));
    ShrunkSize(link, |Tuples(Part(dims, false))|, Product(Part(dims, true)));
  }

  lemma ShrunkSize(link: nat, n: nat, factor: nat)
    requires n > 0 && factor > 0
    ensures var shrunk := Shrunk(Fifo(link, n), factor);
      (shrunk.elems == n <==> factor == 1 || n % factor != 0) && (shrunk.elems != n ==> shrunk.elems * factor == n)
  {
    if factor > 1 {
      QuotientIsSmaller(n, factor);
    }
    assert n == (n / factor) * factor + n % factor;
  }
}
