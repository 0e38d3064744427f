/**
 * Values computed by a list of operations, and what is left of it when only those are kept that some
 * results need through operands. Cleaning up a private block is such a pruning.
 */
module BackwardSlices {
  import opened Sequences

  /** A result of an operation of the list, a value from elsewhere, block arguments included, or one that has been erased. */
  datatype Value = Result(op: nat, index: nat) | Outside(name: nat) | Erased(op: nat, index: nat)

  /** An operation computes each of its results from its operands and from what its regions use of the list. */
  datatype Op = Op(code: nat, operands: seq<Value>, inner: seq<Value>)

  predicate DefinedBefore(v: Value, i: nat) {
    match v
    case Result(op, _) => op < i
    case Outside(_) => true
    case Erased(_, _) => false
  }

  predicate AllDefinedBefore(vs: seq<Value>, i: nat) {
    forall k :: 0 <= k < |vs| ==> DefinedBefore(vs[k], i)
  }

  predicate ReadsBefore(op: Op, i: nat) {
    AllDefinedBefore(op.operands, i) && AllDefinedBefore(op.inner, i)
  }

  /** Everything is defined before it is used. */
  predicate Ordered(ops: seq<Op>) {
    forall i :: 0 <= i < |ops| ==> ReadsBefore(ops[i], i)
  }

  /** What the results of an operation are, given its code, the number of the result, its operands and what its regions use. */
  type Meaning<!V> = (nat, nat, seq<V>, seq<V>) -> V

  /** The value of `v`, for any meaning of the operations and any outside values. */
  ghost function Eval<V>(meaning: Meaning<V>, outside: nat -> V, ops: seq<Op>, v: Value): V
    requires Ordered(ops) && DefinedBefore(v, |ops|)
    decreases if v.Result? then v.op + 1 else 0, 0
  {
    match v
    case Outside(name) => outside(name)
    case Result(i, k) =>
      assert ReadsBefore(ops[i], i);
      meaning(ops[i].code, k, EvalAll(meaning, outside, ops, ops[i].operands, i), EvalAll(meaning, outside, ops, ops[i].inner, i))
  }

  ghost function EvalAll<V>(meaning: Meaning<V>, outside: nat -> V, ops: seq<Op>, vs: seq<Value>, bound: nat): (r: seq<V>)
    requires Ordered(ops) && bound <= |ops| && AllDefinedBefore(vs, bound)
    ensures |r| == |vs|
    decreases bound, |vs|, 1
  {
    if vs == [] then []
    else
      assert DefinedBefore(vs[0], bound);
      [Eval(meaning, outside, ops, vs[0])] + EvalAll(meaning, outside, ops, vs[1..], bound)
  }

  // ---------------------------------------------------------------------------------------------
  // Copies of some operations
  // ---------------------------------------------------------------------------------------------

  function Renamed(v: Value, place: map<nat, nat>): Value {
    if !v.Result? then v else if v.op in place then Result(place[v.op], v.index) else Erased(v.op, v.index)
  }

  function RenamedAll(vs: seq<Value>, place: map<nat, nat>): (r: seq<Value>)
    ensures |r| == |vs| && forall k :: 0 <= k < |vs| ==> r[k] == Renamed(vs[k], place)
  {
    if vs == [] then [] else [Renamed(vs[0], place)] + RenamedAll(vs[1..], place)
  }

  function RenamedOp(op: Op, place: map<nat, nat>): Op {
    Op(op.code, RenamedAll(op.operands, place), RenamedAll(op.inner, place))
  }

  /** The operations that define `vs` are in the map. */
  ghost predicate From(vs: seq<Value>, kept: set<nat>) {
    forall k :: 0 <= k < |vs| && vs[k].Result? ==> vs[k].op in kept
  }

  /** With an operation all operations that its operands come from are kept. */
  ghost predicate ClosedUnderOperands(ops: seq<Op>, kept: set<nat>) {
    forall i :: i in kept && i < |ops| ==> From(ops[i].operands, kept)
  }

  /** With an operation all operations that its regions use are kept. */
  ghost predicate ClosedUnderInner(ops: seq<Op>, kept: set<nat>) {
    forall i :: i in kept && i < |ops| ==> From(ops[i].inner, kept)
  }

  /** `copy` holds the kept operations at the places given, in their old order, renamed. */
  ghost predicate CopyOf(ops: seq<Op>, copy: seq<Op>, place: map<nat, nat>) {
    && (forall i :: i in place ==> i < |ops| && place[i] < |copy|)
    && (forall i :: i in place ==> copy[place[i]] == RenamedOp(ops[i], place))
    && (forall i, j :: i in place && j in place && i < j ==> place[i] < place[j])
    && forall p :: 0 <= p < |copy| ==> HoldsOne(place, p)
  }

  ghost predicate HoldsOne(place: map<nat, nat>, p: nat) {
    exists i :: i in place && place[i] == p
  }

  /** What was defined before `i` is defined before the copy of `i`, unless its operation is not kept. */
  lemma RenamedBefore(ops: seq<Op>, copy: seq<Op>, place: map<nat, nat>, i: nat, vs: seq<Value>)
    requires CopyOf(ops, copy, place) && i in place && AllDefinedBefore(vs, i)
    ensures AllDefinedBefore(RenamedAll(vs, place), place[i]) <==> From(vs, place.Keys)
  {
    var r := RenamedAll(vs, place);
    forall k | 0 <= k < |vs|
      ensures DefinedBefore(r[k], place[i]) <==> (vs[k].Result? ==> vs[k].op in place)
    {
      assert DefinedBefore(vs[k], i) && r[k] == Renamed(vs[k], place);
    }
    if From(vs, place.Keys) {
      assert AllDefinedBefore(r, place[i]);
    } else {
      var k :| 0 <= k < |vs| && vs[k].Result? && vs[k].op !in place.Keys;
      assert !DefinedBefore(r[k], place[i]);
    }
  }

  /** In a copy everything is still defined before it is used exactly when all that the regions use is kept. */
  lemma CopyIsOrderedIff(ops: seq<Op>, copy: seq<Op>, place: map<nat, nat>)
    requires Ordered(ops) && CopyOf(ops, copy, place) && ClosedUnderOperands(ops, place.Keys)
    ensures Ordered(copy) <==> ClosedUnderInner(ops, place.Keys)
  {
    forall i | i in place
      ensures ReadsBefore(copy[place[i]], place[i]) <==> From(ops[i].inner, place.Keys)
    {
      assert ReadsBefore(ops[i], i) && copy[place[i]] == RenamedOp(ops[i], place);
      RenamedBefore(ops, copy, place, i, ops[i].operands);
      RenamedBefore(ops, copy, place, i, ops[i].inner);
    }
    if ClosedUnderInner(ops, place.Keys) {
      forall p | 0 <= p < |copy|
        ensures ReadsBefore(copy[p], p)
      {
        assert HoldsOne(place, p);
      }
    } else {
      var i :| i in place && !From(ops[i].inner, place.Keys);
      assert !ReadsBefore(copy[place[i]], place[i]);
    }
  }

  /** Every value that the copy still has is the value it had before. */
  lemma {:induction false} CopyKeepsValue<V>(meaning: Meaning<V>, outside: nat -> V,
      ops: seq<Op>, copy: seq<Op>, place: map<nat, nat>, v: Value)
    requires Ordered(ops) && Ordered(copy) && CopyOf(ops, copy, place) && DefinedBefore(v, |ops|)
    requires v.Result? ==> v.op in place
    ensures DefinedBefore(Renamed(v, place), |copy|)
    ensures Eval(meaning, outside, copy, Renamed(v, place)) == Eval(meaning, outside, ops, v)
    decreases if v.Result? then v.op + 1 else 0, 0
  {
    if v.Result? {
      var i := v.op;
      assert ReadsBefore(ops[i], i) && copy[place[i]] == RenamedOp(ops[i], place);
      assert ReadsBefore(copy[place[i]], place[i]);
      CopyKeepsValues(meaning, outside, ops, copy, place, ops[i].operands, i);
      CopyKeepsValues(meaning, outside, ops, copy, place, ops[i].inner, i);
    }
  }

  lemma {:induction false} CopyKeepsValues<V>(meaning: Meaning<V>, outside: nat -> V,
      ops: seq<Op>, copy: seq<Op>, place: map<nat, nat>, vs: seq<Value>, i: nat)
    requires Ordered(ops) && Ordered(copy) && CopyOf(ops, copy, place) && i in place
    requires AllDefinedBefore(vs, i) && AllDefinedBefore(RenamedAll(vs, place), place[i])
    ensures EvalAll(meaning, outside, copy, RenamedAll(vs, place), place[i]) == EvalAll(meaning, outside, ops, vs, i)
    decreases i, |vs|, 1
  {
    if vs != [] {
      var r := RenamedAll(vs, place);
      assert DefinedBefore(vs[0], i) && DefinedBefore(r[0], place[i]) && r[0] == Renamed(vs[0], place);
      CopyKeepsValue(meaning, outside, ops, copy, place, vs[0]);
      assert r[1..] == RenamedAll(vs[1..], place);
      CopyKeepsValues(meaning, outside, ops, copy, place, vs[1..], i);
    }
  }

  // ---------------------------------------------------------------------------------------------
  // Cleaning up a private block
  // ---------------------------------------------------------------------------------------------

  ghost predicate UsedIn(vs: seq<Value>, i: nat) {
    exists k :: 0 <= k < |vs| && vs[k].Result? && vs[k].op == i
  }

  /** Some of `roots` is a result of operation `i`, or of one that needs it after fewer steps. */
  ghost predicate NeededIn(ops: seq<Op>, roots: seq<Value>, i: nat, steps: nat)
    decreases steps
  {
    || UsedIn(roots, i)
    || (steps > 0 && exists j :: 0 <= j < |ops| && NeededIn(ops, roots, j, steps - 1) && UsedIn(ops[j].operands, i))
  }

  ghost predicate Needed(ops: seq<Op>, roots: seq<Value>, i: nat) {
    exists steps: nat :: NeededIn(ops, roots, i, steps)
  }

  lemma OperandIsNeeded(ops: seq<Op>, roots: seq<Value>, j: nat, i: nat)
    requires j < |ops| && Needed(ops, roots, j) && UsedIn(ops[j].operands, i)
    ensures Needed(ops, roots, i)
  {
    var steps: nat :| NeededIn(ops, roots, j, steps);
    assert NeededIn(ops, roots, i, steps + 1);
  }

  lemma RootIsNeeded(ops: seq<Op>, roots: seq<Value>, i: nat)
    requires UsedIn(roots, i)
    ensures Needed(ops, roots, i)
  {
    assert NeededIn(ops, roots, i, 0);
  }

  /** A closed set of operations that has those of the roots has all that are needed. */
  lemma {:induction false} ClosedHasNeeded(ops: seq<Op>, roots: seq<Value>, kept: set<nat>, i: nat, steps: nat)
    requires Ordered(ops) && ClosedUnderOperands(ops, kept)
    requires forall r :: UsedIn(roots, r) ==> r in kept
    requires NeededIn(ops, roots, i, steps)
    ensures i in kept
    decreases steps
  {
    if !UsedIn(roots, i) {
      var j :| 0 <= j < |ops| && NeededIn(ops, roots, j, steps - 1) && UsedIn(ops[j].operands, i);
      ClosedHasNeeded(ops, roots, kept, j, steps - 1);
    }
  }

  lemma ClosedHasAllNeeded(ops: seq<Op>, roots: seq<Value>, kept: set<nat>, i: nat)
    requires Ordered(ops) && ClosedUnderOperands(ops, kept)
    requires forall r :: UsedIn(roots, r) ==> r in kept
    ensures Needed(ops, roots, i) ==> i in kept
  {
    if Needed(ops, roots, i) {
      var steps: nat :| NeededIn(ops, roots, i, steps);
      ClosedHasNeeded(ops, roots, kept, i, steps);
    }
  }

  /** The yield operands of the results that are used. */
  function LiveOf(yielded: seq<Value>, used: seq<bool>): (r: seq<Value>)
    requires |yielded| == |used|
  {
    if yielded == [] then []
    else (if used[0] then [yielded[0]] else []) + LiveOf(yielded[1..], used[1..])
  }

  /** What the search still has to look at, or has. */
  ghost predicate Accounted(v: Value, needed: set<nat>, worklist: seq<Value>) {
    v.Result? ==> v.op in needed || v in worklist
  }

  ghost predicate Searching(ops: seq<Op>, roots: seq<Value>, needed: set<nat>, worklist: seq<Value>) {
    && (forall i :: i in needed ==> i < |ops| && Needed(ops, roots, i))
    && (forall k :: 0 <= k < |worklist| ==> Wanted(ops, roots, worklist[k]))
    && (forall k :: 0 <= k < |roots| ==> Accounted(roots[k], needed, worklist))
    && forall i, k :: i in needed && 0 <= k < |ops[i].operands| ==> Accounted(ops[i].operands[k], needed, worklist)
  }

  ghost predicate Wanted(ops: seq<Op>, roots: seq<Value>, v: Value) {
    v.Result? ==> v.op < |ops| && Needed(ops, roots, v.op)
  }

  lemma SearchStarts(ops: seq<Op>, roots: seq<Value>)
    requires AllDefinedBefore(roots, |ops|)
    ensures Searching(ops, roots, {}, roots)
  {
    forall k | 0 <= k < |roots| ensures Wanted(ops, roots, roots[k]) {
      if roots[k].Result? {
        assert UsedIn(roots, roots[k].op);
        RootIsNeeded(ops, roots, roots[k].op);
      }
    }
  }

  /** The last entry is dropped: it is from elsewhere, or its operation is known already. */
  lemma SearchDrops(ops: seq<Op>, roots: seq<Value>, needed: set<nat>, worklist: seq<Value>)
    requires |worklist| > 0 && Searching(ops, roots, needed, worklist)
    requires worklist[|worklist| - 1].Result? ==> worklist[|worklist| - 1].op in needed
    ensures Searching(ops, roots, needed, worklist[..|worklist| - 1])
  {
    AccountedWithoutLast(needed, worklist);
  }

  lemma AccountedWithoutLast(needed: set<nat>, worklist: seq<Value>)
    requires |worklist| > 0
    requires worklist[|worklist| - 1].Result? ==> worklist[|worklist| - 1].op in needed
    ensures forall v :: Accounted(v, needed, worklist) ==> Accounted(v, needed, worklist[..|worklist| - 1])
  {
    assert worklist == worklist[..|worklist| - 1] + [worklist[|worklist| - 1]];
  }

  /** The last entry is taken: its operation is needed, and so are the operands of that. */
  lemma SearchTakes(ops: seq<Op>, roots: seq<Value>, needed: set<nat>, worklist: seq<Value>, i: nat)
    requires Ordered(ops) && |worklist| > 0 && Searching(ops, roots, needed, worklist)
    requires worklist[|worklist| - 1].Result? && worklist[|worklist| - 1].op == i
    ensures i < |ops| && Searching(ops, roots, needed + {i}, worklist[..|worklist| - 1] + ops[i].operands)
  {
    assert Wanted(ops, roots, worklist[|worklist| - 1]);
    var rest := worklist[..|worklist| - 1];
    AccountedWithoutLast(needed + {i}, worklist);
    forall v | Accounted(v, needed, worklist) ensures Accounted(v, needed + {i}, rest + ops[i].operands) {
      assert Accounted(v, needed + {i}, worklist);
      assert Accounted(v, needed + {i}, rest);
    }
    assert ReadsBefore(ops[i], i);
    forall k | 0 <= k < |ops[i].operands| ensures Wanted(ops, roots, ops[i].operands[k]) {
      var v := ops[i].operands[k];
      assert DefinedBefore(v, i);
      if v.Result? {
        assert UsedIn(ops[i].operands, v.op);
        OperandIsNeeded(ops, roots, i, v.op);
      }
    }
  }

  lemma SearchEnds(ops: seq<Op>, roots: seq<Value>, needed: set<nat>)
    requires Ordered(ops) && Searching(ops, roots, needed, [])
    ensures ClosedUnderOperands(ops, needed)
    ensures forall k :: 0 <= k < |roots| && roots[k].Result? ==> roots[k].op in needed
    ensures forall i :: i in needed <==> Needed(ops, roots, i)
  {
    forall i, k | i in needed && i < |ops| && 0 <= k < |ops[i].operands| && ops[i].operands[k].Result?
      ensures ops[i].operands[k].op in needed
    {
      assert Accounted(ops[i].operands[k], needed, []);
    }
    forall k | 0 <= k < |roots| && roots[k].Result? ensures roots[k].op in needed {
      assert Accounted(roots[k], needed, []);
    }
    forall i | Needed(ops, roots, i) ensures i in needed {
      ClosedHasAllNeeded(ops, roots, needed, i);
    }
  }

  /** The worklist finds exactly the operations that the roots need. */
  method FindNeeded(ops: seq<Op>, roots: seq<Value>) returns (needed: set<nat>)
    requires Ordered(ops) && AllDefinedBefore(roots, |ops|)
    ensures forall i :: i in needed <==> Needed(ops, roots, i)
    ensures forall i :: i in needed ==> i < |ops|
    ensures ClosedUnderOperands(ops, needed)
    ensures forall k :: 0 <= k < |roots| && roots[k].Result? ==> roots[k].op in needed
  {
    needed := {};
    var worklist := roots;
    ghost var all := Range(0, |ops|);
    SearchStarts(ops, roots);
    while worklist != []
      invariant Searching(ops, roots, needed, worklist)
      decreases |all - needed|, |worklist|
    {
      var value := worklist[|worklist| - 1];
      if value.Result? && value.op !in needed {
        SearchTakes(ops, roots, needed, worklist, value.op);
        assert all - (needed + {value.op}) == all - needed - {value.op};
        needed := needed + {value.op};
        worklist := worklist[..|worklist| - 1] + ops[value.op].operands;
      } else {
        SearchDrops(ops, roots, needed, worklist);
        worklist := worklist[..|worklist| - 1];
      }
    }
    SearchEnds(ops, roots, needed);
  }

  /** The kept operations below `i` have been copied. */
  ghost predicate CopiedUpTo(ops: seq<Op>, copy: seq<Op>, place: map<nat, nat>, kept: set<nat>, i: nat) {
    && (forall j :: j in place <==> j in kept && j < i)
    && (forall j :: j in place ==> place[j] < |copy|)
    && (forall j :: j in place && j < |ops| ==> copy[place[j]] == RenamedOp(ops[j], place))
    && (forall j, k :: j in place && k in place && j < k ==> place[j] < place[k])
    && forall p :: 0 <= p < |copy| ==> HoldsOne(place, p)
  }

  /** What is read is defined below, so a later entry of the map does not rename it. */
  lemma {:induction false} LaterEntryRenamesNothing(vs: seq<Value>, place: map<nat, nat>, i: nat, p: nat)
    requires AllDefinedBefore(vs, i)
    ensures RenamedAll(vs, place[i := p]) == RenamedAll(vs, place)
  {
    forall k | 0 <= k < |vs| ensures Renamed(vs[k], place[i := p]) == Renamed(vs[k], place) {
      assert DefinedBefore(vs[k], i);
    }
  }

  lemma LaterEntryKeepsCopies(ops: seq<Op>, place: map<nat, nat>, i: nat, p: nat)
    requires Ordered(ops) && i < |ops| && forall j :: j in place ==> j < i
    ensures forall j :: j in place || j == i ==> RenamedOp(ops[j], place[i := p]) == RenamedOp(ops[j], place)
  {
    forall j | j in place || j == i
      ensures RenamedOp(ops[j], place[i := p]) == RenamedOp(ops[j], place)
    {
      assert ReadsBefore(ops[j], j);
      LaterEntryRenamesNothing(ops[j].operands, place, i, p);
      LaterEntryRenamesNothing(ops[j].inner, place, i, p);
    }
  }

  lemma OneMoreHeld(place: map<nat, nat>, i: nat, n: nat, longer: map<nat, nat>)
    requires i !in place && longer == place[i := n] && forall p :: 0 <= p < n ==> HoldsOne(place, p)
    ensures forall p :: 0 <= p <= n ==> HoldsOne(longer, p)
  {
    forall p | 0 <= p <= n ensures HoldsOne(longer, p) {
      if p == n {
        assert i in longer && longer[i] == p;
      } else {
        assert HoldsOne(place, p);
        var j :| j in place && place[j] == p;
        assert j in longer && longer[j] == p;
      }
    }
  }

  lemma CopyTakesNext(ops: seq<Op>, copy: seq<Op>, place: map<nat, nat>, kept: set<nat>, i: nat)
    requires Ordered(ops) && i < |ops| && i in kept && CopiedUpTo(ops, copy, place, kept, i)
    ensures CopiedUpTo(ops, copy + [RenamedOp(ops[i], place)], place[i := |copy|], kept, i + 1)
  {
    LaterEntryKeepsCopies(ops, place, i, |copy|);
    OneMoreHeld(place, i, |copy|, place[i := |copy|]);
  }

  /** The operations that are kept, copied in their order, with all they read renamed to the copies. */
  method CopyKept(ops: seq<Op>, kept: set<nat>) returns (copy: seq<Op>, place: map<nat, nat>)
    requires Ordered(ops) && forall i :: i in kept ==> i < |ops|
    ensures place.Keys == kept && CopyOf(ops, copy, place)
  {
    copy, place := [], map[];
    var i := 0;
    while i < |ops|
      invariant i <= |ops| && CopiedUpTo(ops, copy, place, kept, i)
    {
      if i in kept {
        CopyTakesNext(ops, copy, place, kept, i);
        place, copy := place[i := |copy|], copy + [RenamedOp(ops[i], place)];
      }
      i := i + 1;
    }
  }

  lemma {:induction false} LiveOfNext(yielded: seq<Value>, used: seq<bool>, k: nat)
    requires |yielded| == |used| && k < |used|
    ensures LiveOf(yielded[..k + 1], used[..k + 1]) == LiveOf(yielded[..k], used[..k]) + (if used[k] then [yielded[k]] else [])
  {
    if k > 0 {
      LiveOfNext(yielded[1..], used[1..], k - 1);
      assert yielded[..k + 1][1..] == yielded[1..][..k] && used[..k + 1][1..] == used[1..][..k];
      assert yielded[..k][1..] == yielded[1..][..k - 1] && used[..k][1..] == used[1..][..k - 1];
    } else {
      assert LiveOf(yielded[..0], used[..0]) == [];
      assert yielded[..1][1..] == [] && used[..1][1..] == [];
    }
  }

  lemma {:induction false} LiveOfAll(yielded: seq<Value>, used: seq<bool>)
    requires |yielded| == |used|
    ensures |LiveOf(yielded, used)| <= |yielded|
    ensures |LiveOf(yielded, used)| == |yielded| ==> LiveOf(yielded, used) == yielded
    ensures forall v :: v in LiveOf(yielded, used) ==> v in yielded
  {
    if yielded != [] {
      LiveOfAll(yielded[1..], used[1..]);
      assert yielded == [yielded[0]] + yielded[1..];
    }
  }

  /** The used results below `k`, and only they, have a new number, in order and without a gap. */
  ghost predicate Numbered(yielded: seq<Value>, used: seq<bool>, live: seq<Value>, newIndex: map<nat, nat>, k: nat)
    requires |yielded| == |used| && k <= |used|
  {
    && (forall j :: j in newIndex <==> 0 <= j < k && used[j])
    && (forall j :: j in newIndex ==> newIndex[j] < |live| && live[newIndex[j]] == yielded[j])
    && (forall j, l :: j in newIndex && l in newIndex && j < l ==> newIndex[j] < newIndex[l])
    && forall p :: 0 <= p < |live| ==> HoldsOne(newIndex, p)
  }

  lemma NumberedNext(yielded: seq<Value>, used: seq<bool>, live: seq<Value>, newIndex: map<nat, nat>, k: nat)
    requires |yielded| == |used| && k < |used| && used[k] && Numbered(yielded, used, live, newIndex, k)
    ensures Numbered(yielded, used, live + [yielded[k]], newIndex[k := |live|], k + 1)
  {
    OneMoreHeld(newIndex, k, |live|, newIndex[k := |live|]);
  }

  method CollectLive(yielded: seq<Value>, used: seq<bool>) returns (live: seq<Value>, newIndex: map<nat, nat>)
    requires |used| == |yielded|
    ensures live == LiveOf(yielded, used)
    ensures Numbered(yielded, used, live, newIndex, |used|)
  {
    live, newIndex := [], map[];
    var k := 0;
    while k < |yielded|
      invariant k <= |yielded|
      invariant live == LiveOf(yielded[..k], used[..k])
      invariant Numbered(yielded, used, live, newIndex, k)
    {
      LiveOfNext(yielded, used, k);
      if used[k] {
        NumberedNext(yielded, used, live, newIndex, k);
        newIndex := newIndex[k := |live|];
        live := live + [yielded[k]];
      }
      k := k + 1;
    }
    assert yielded[..k] == yielded && used[..k] == used;
  }

  /** Every used result has a new one, in order and without a gap; results that nothing uses have none. */
  ghost predicate Renumbered(used: seq<bool>, newYielded: seq<Value>, newIndex: map<nat, nat>) {
    && (forall k :: 0 <= k < |used| ==> (used[k] <==> k in newIndex))
    && (forall k :: k in newIndex ==> k < |used| && newIndex[k] < |newYielded|)
    && (forall j, k :: j in newIndex && k in newIndex && j < k ==> newIndex[j] < newIndex[k])
    && forall p :: 0 <= p < |newYielded| ==> HoldsOne(newIndex, p)
  }

  /** What the regions of needed operations use is needed through operands too. */
  ghost predicate SelfContained(ops: seq<Op>, roots: seq<Value>) {
    forall i, k :: 0 <= i < |ops| && Needed(ops, roots, i) && 0 <= k < |ops[i].inner| && ops[i].inner[k].Result? ==>
      Needed(ops, roots, ops[i].inner[k].op)
  }

  lemma SelfContainedIsClosed(ops: seq<Op>, roots: seq<Value>, kept: set<nat>)
    requires forall i :: i in kept <==> Needed(ops, roots, i)
    requires forall i :: i in kept ==> i < |ops|
    ensures SelfContained(ops, roots) <==> ClosedUnderInner(ops, kept)
  {
    if ClosedUnderInner(ops, kept) {
      forall i, k | 0 <= i < |ops| && Needed(ops, roots, i) && 0 <= k < |ops[i].inner| && ops[i].inner[k].Result?
        ensures Needed(ops, roots, ops[i].inner[k].op)
      {
        assert i in kept && From(ops[i].inner, kept);
      }
    }
  }

  /** The values of two lists agree. */
  ghost predicate SameValues<V(!new)>(meaning: Meaning<V>, outside: nat -> V, ops: seq<Op>, vs: seq<Value>, newOps: seq<Op>, newVs: seq<Value>)
    requires Ordered(ops) && AllDefinedBefore(vs, |ops|) && Ordered(newOps) && AllDefinedBefore(newVs, |newOps|)
  {
    |newVs| == |vs| && forall k :: 0 <= k < |vs| ==> Eval(meaning, outside, newOps, newVs[k]) == Eval(meaning, outside, ops, vs[k])
  }

  /** The block with only what the live values need, and what they are called there. */
  method PruneTo<V(!new)>(ops: seq<Op>, live: seq<Value>, ghost meaning: Meaning<V>, ghost outside: nat -> V)
    returns (newOps: seq<Op>, newLive: seq<Value>, place: map<nat, nat>)
    requires Ordered(ops) && AllDefinedBefore(live, |ops|)
    ensures CopyOf(ops, newOps, place) && forall i :: i in place <==> Needed(ops, live, i)
    ensures |newLive| == |live| && AllDefinedBefore(newLive, |newOps|)
    ensures Ordered(newOps) <==> SelfContained(ops, live)
    ensures Ordered(newOps) ==> SameValues(meaning, outside, ops, live, newOps, newLive)
  {
    var needed := FindNeeded(ops, live);
    newOps, place := CopyKept(ops, needed);
    newLive := RenamedAll(live, place);
    SelfContainedIsClosed(ops, live, needed);
    CopyIsOrderedIff(ops, newOps, place);
    forall k | 0 <= k < |live|
      ensures DefinedBefore(newLive[k], |newOps|)
    {
      assert DefinedBefore(live[k], |ops|) && newLive[k] == Renamed(live[k], place);
    }
    if Ordered(newOps) {
      forall k | 0 <= k < |live|
        ensures Eval(meaning, outside, newOps, newLive[k]) == Eval(meaning, outside, ops, live[k])
      {
        CopyKeepsValue(meaning, outside, ops, newOps, place, live[k]);
      }
    }
  }

  /**
   * Drops the results that nothing uses, and every operation that only they needed. `newIndex` says
   * which new result takes the uses of an old one, `place` where a kept operation went. The new block
   * refers to nothing that has been erased exactly when the regions of needed operations use only what
   * is needed through operands too; then every used result keeps its value.
   */
  method CleanupPrivateOp<V(!new)>(ops: seq<Op>, yielded: seq<Value>, used: seq<bool>, ghost meaning: Meaning<V>, ghost outside: nat -> V)
    returns (newOps: seq<Op>, newYielded: seq<Value>, newIndex: map<nat, nat>, place: map<nat, nat>)
    requires Ordered(ops) && |used| == |yielded| && AllDefinedBefore(yielded, |ops|)
    ensures Renumbered(used, newYielded, newIndex) && AllDefinedBefore(newYielded, |newOps|)
    ensures Ordered(newOps) <==> LiveOf(yielded, used) == yielded || SelfContained(ops, LiveOf(yielded, used))
    ensures |newYielded| == |LiveOf(yielded, used)| && forall k :: k in newIndex ==> LiveOf(yielded, used)[newIndex[k]] == yielded[k]
    ensures AllDefinedBefore(LiveOf(yielded, used), |ops|)
    ensures Ordered(newOps) ==> SameValues(meaning, outside, ops, LiveOf(yielded, used), newOps, newYielded)
    ensures LiveOf(yielded, used) == yielded ==> newOps == ops && newYielded == yielded
    ensures LiveOf(yielded, used) != yielded ==>
      CopyOf(ops, newOps, place) && forall i :: i in place <==> Needed(ops, LiveOf(yielded, used), i)
  {
    var live;
    live, newIndex := CollectLive(yielded, used);
    LiveOfAll(yielded, used);
    if |live| == |yielded| {
      newOps, newYielded, place := ops, yielded, map[];
    } else {
      forall k | 0 <= k < |live|
        ensures DefinedBefore(live[k], |ops|)
      {
        assert live[k] in yielded;
      }
      newOps, newYielded, place := PruneTo(ops, live, meaning, outside);
    }
  }

  /** Nothing but the region of the second operation uses the first: it is erased, and still referred to. */
  lemma CapturedIsErased()
    ensures var ops, live := [Op(0, [], []), Op(1, [], [Result(0, 0)])], [Result(1, 0)];
      Ordered(ops) && AllDefinedBefore(live, |ops|) && !SelfContained(ops, live)
  {
    var ops, live := [Op(0, [], []), Op(1, [], [Result(0, 0)])], [Result(1, 0)];
    var kept := {1};
    assert live[0].op == 1;
    RootIsNeeded(ops, live, 1);
    ClosedHasAllNeeded(ops, live, kept, 0);
    assert ops[1].inner[0].op == 0;
  }
}
