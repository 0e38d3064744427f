/**
 * The private block of an expanded pipeline: the types of its results are put together by one set of
 * loops, the values that its body yields by another.
 */
module PrivateBlock {
  datatype Type = MemRef(code: nat) | Slot(link: nat, elems: nat) | TokenType | OtherType(code: nat)

  /** A new resource: one memory buffer, or a FIFO with slots of the given sizes; of unknown kind it is passed over. */
  datatype Spec = Unknown | MemoryBuffer(code: nat) | Fifo(link: nat, elems: seq<nat>)

  /** What a result of the private block is. */
  datatype Entry = Original(index: nat) | Buffer(spec: nat) | FifoSlot(spec: nat, slot: nat) | Token(index: nat)

  function Originals(n: nat): (r: seq<Entry>)
    ensures |r| == n && forall i :: 0 <= i < n ==> r[i] == Original(i)
  {
    seq(n, i requires 0 <= i < n => Original(i))
  }

  function EntriesOf(specs: seq<Spec>, k: nat): (r: seq<Entry>)
    requires k < |specs|
    ensures |r| == |TypesOf(specs[k])|
  {
    match specs[k]
    case Unknown => []
    case MemoryBuffer(_) => [Buffer(k)]
    case Fifo(_, elems) => seq(|elems|, s requires 0 <= s < |elems| => FifoSlot(k, s))
  }

  function Resources(specs: seq<Spec>, n: nat): seq<Entry>
    requires n <= |specs|
  {
    if n == 0 then [] else Resources(specs, n - 1) + EntriesOf(specs, n - 1)
  }

  function Tokens(n: nat): (r: seq<Entry>)
    ensures |r| == n && forall i :: 0 <= i < n ==> r[i] == Token(i)
  {
    seq(n, i requires 0 <= i < n => Token(i))
  }

  /** Originals, then buffers and FIFO slots in the order of the specs, then tokens. */
  function Layout(originals: nat, specs: seq<Spec>, tokens: nat): seq<Entry> {
    Originals(originals) + Resources(specs, |specs|) + Tokens(tokens)
  }

  // ---------------------------------------------------------------------------------------------
  // Result types
  // ---------------------------------------------------------------------------------------------

  function TypesOf(spec: Spec): (r: seq<Type>)
    ensures |r| == SlotsOf(spec)
  {
    match spec
    case Unknown => []
    case MemoryBuffer(code) => [MemRef(code)]
    case Fifo(link, elems) => seq(|elems|, s requires 0 <= s < |elems| => Slot(link, elems[s]))
  }

  function SlotsOf(spec: Spec): nat {
    match spec
    case Unknown => 0
    case MemoryBuffer(_) => 1
    case Fifo(_, elems) => |elems|
  }

  function ResourceTypes(specs: seq<Spec>, n: nat): (r: seq<Type>)
    requires n <= |specs|
    ensures |r| == |Resources(specs, n)|
  {
    if n == 0 then [] else ResourceTypes(specs, n - 1) + TypesOf(specs[n - 1])
  }

  function TokenTypes(n: nat): (r: seq<Type>)
    ensures |r| == n && forall i :: 0 <= i < n ==> r[i] == TokenType
  {
    seq(n, _ => TokenType)
  }

  function PrivateTypes(originals: seq<Type>, specs: seq<Spec>, tokens: nat): seq<Type> {
    originals + ResourceTypes(specs, |specs|) + TokenTypes(tokens)
  }

  /** The list of result types, and the number of results before the tokens. */
  method BuildPrivateResultTypes(originals: seq<Type>, specs: seq<Spec>, tokens: nat) returns (types: seq<Type>, nonTokens: nat)
    ensures types == PrivateTypes(originals, specs, tokens) && |types| == |Layout(|originals|, specs, tokens)|
    ensures nonTokens == |originals| + |Resources(specs, |specs|)|
  {
    types := [];
    var i := 0;
    while i < |originals|
      invariant i <= |originals| && types == originals[..i]
    {
      types := types + [originals[i]];
      i := i + 1;
    }
    types := AppendResourceTypes(specs, types);
    nonTokens := |types|;
    types := AppendTokenTypes(tokens, types);
  }

  method AppendResourceTypes(specs: seq<Spec>, before: seq<Type>) returns (types: seq<Type>)
    ensures types == before + ResourceTypes(specs, |specs|)
  {
    types := before;
    var k := 0;
    while k < |specs|
      invariant k <= |specs| && types == before + ResourceTypes(specs, k)
    {
      types := AppendTypesOf(specs[k], types);
      JoinIsAssociative(before, ResourceTypes(specs, k), TypesOf(specs[k]));
      k := k + 1;
    }
  }

  method AppendTypesOf(spec: Spec, before: seq<Type>) returns (types: seq<Type>)
    ensures types == before + TypesOf(spec)
  {
    types := before;
    match spec
    case Unknown =>
    case MemoryBuffer(code) => types := types + [MemRef(code)];
    case Fifo(link, elems) =>
      var s := 0;
      while s < |elems|
        invariant s <= |elems| && types == before + TypesOf(spec)[..s]
      {
        types := types + [Slot(link, elems[s])];
        s := s + 1;
      }
  }

  method AppendTokenTypes(tokens: nat, before: seq<Type>) returns (types: seq<Type>)
    ensures types == before + TokenTypes(tokens)
  {
    types := before;
    var i := 0;
    while i < tokens
      invariant i <= tokens && types == before + TokenTypes(i)
    {
      assert TokenTypes(i) + [TokenType] == TokenTypes(i + 1);
      types := types + [TokenType];
      i := i + 1;
    }
  }

  // ---------------------------------------------------------------------------------------------
  // Yielded values
  // ---------------------------------------------------------------------------------------------

  /** The operations in the body of a private block. */
  datatype Op =
    | Other(code: nat, types: seq<Type>, operands: seq<Value>)
    | Alloc(result: Type)
    | FifoAllocate(types: seq<Type>)
    | CreateToken

  /** A result in the new body, one in the body that it is made from, or a value from elsewhere. */
  datatype Value = Value(op: nat, result: nat) | Source(op: nat, result: nat) | Outside(name: nat)

  function ResultsOf(op: Op): seq<Type> {
    match op
    case Other(_, types, _) => types
    case Alloc(t) => [t]
    case FifoAllocate(types) => types
    case CreateToken => [TokenType]
  }

  predicate Defined(ops: seq<Op>, v: Value) {
    v.Value? && v.op < |ops| && v.result < |ResultsOf(ops[v.op])|
  }

  predicate SourceDefined(body: seq<Op>, v: Value) {
    v.Source? && v.op < |body| && v.result < |ResultsOf(body[v.op])|
  }

  function OperandsOf(op: Op): seq<Value> {
    if op.Other? then op.operands else []
  }

  /** What an operation reads of its own body is defined by an operation before it. */
  predicate Ordered(body: seq<Op>) {
    forall i, k :: 0 <= i < |body| && 0 <= k < |OperandsOf(body[i])| && OperandsOf(body[i])[k].Source? ==>
      SourceDefined(body[..i], OperandsOf(body[i])[k])
  }

  /** The values yielded by the body have the types. */
  predicate SourceTyped(body: seq<Op>, yielded: seq<Value>, types: seq<Type>) {
    && |yielded| == |types|
    && forall i :: 0 <= i < |yielded| ==> SourceDefined(body, yielded[i]) && ResultsOf(body[yielded[i].op])[yielded[i].result] == types[i]
  }

  /** What stands for `v` in the new body: a result of the clone, or what `values` has for a value from elsewhere. */
  function Clone(values: map<Value, Value>, v: Value): Value {
    if v.Source? then Value(v.op, v.result) else if v in values then values[v] else v
  }

  function Clones(values: map<Value, Value>, vs: seq<Value>): (r: seq<Value>)
    ensures |r| == |vs| && forall k :: 0 <= k < |vs| ==> r[k] == Clone(values, vs[k])
  {
    seq(|vs|, k requires 0 <= k < |vs| => Clone(values, vs[k]))
  }

  /** The same operation, on what stands for its operands. */
  predicate IsCloneOf(values: map<Value, Value>, op: Op, clone: Op) {
    if op.Other? then clone == Other(op.code, op.types, Clones(values, op.operands)) else clone == op
  }

  predicate AreClones(values: map<Value, Value>, body: seq<Op>, ops: seq<Op>) {
    |ops| == |body| && forall i :: 0 <= i < |body| ==> IsCloneOf(values, body[i], ops[i])
  }

  /** What a clone reads of the new body is defined by a clone before it. */
  lemma ClonesReadBefore(values: map<Value, Value>, body: seq<Op>, ops: seq<Op>, i: nat, k: nat)
    requires Ordered(body) && AreClones(values, body, ops) && i < |body| && k < |OperandsOf(body[i])|
    ensures k < |OperandsOf(ops[i])| && OperandsOf(ops[i])[k] == Clone(values, OperandsOf(body[i])[k])
    ensures OperandsOf(body[i])[k].Source? ==> Defined(ops[..i], OperandsOf(ops[i])[k])
  {
    assert IsCloneOf(values, body[i], ops[i]);
    var v := OperandsOf(body[i])[k];
    if v.Source? {
      assert SourceDefined(body[..i], v);
      assert IsCloneOf(values, body[v.op], ops[v.op]);
    }
  }

  lemma ClonesAreTyped(values: map<Value, Value>, body: seq<Op>, ops: seq<Op>, yielded: seq<Value>, types: seq<Type>)
    requires AreClones(values, body, ops) && SourceTyped(body, yielded, types)
    ensures Typed(ops, Clones(values, yielded), types)
  {
    forall i | 0 <= i < |yielded|
      ensures HasType(ops, Clones(values, yielded)[i], types[i])
    {
      assert SourceDefined(body, yielded[i]);
      assert IsCloneOf(values, body[yielded[i].op], ops[yielded[i].op]);
    }
  }

  /** The values have the types. */
  predicate Typed(ops: seq<Op>, values: seq<Value>, types: seq<Type>) {
    |values| == |types| && forall i :: 0 <= i < |values| ==> HasType(ops, values[i], types[i])
  }

  predicate HasType(ops: seq<Op>, v: Value, t: Type) {
    Defined(ops, v) && ResultsOf(ops[v.op])[v.result] == t
  }

  lemma TypedJoin(ops: seq<Op>, more: seq<Op>, a: seq<Value>, s: seq<Type>, b: seq<Value>, t: seq<Type>)
    requires Typed(ops, a, s) && Typed(ops + more, b, t)
    ensures Typed(ops + more, a + b, s + t)
  {
    forall i | 0 <= i < |a + b| ensures HasType(ops + more, (a + b)[i], (s + t)[i]) {
      if i < |a| {
        assert HasType(ops, a[i], s[i]);
      } else {
        assert HasType(ops + more, b[i - |a|], t[i - |a|]);
      }
    }
  }

  /** One operation for each of the first `n` specs, but those of unknown kind. */
  function Allocations(specs: seq<Spec>, n: nat): seq<Op>
    requires n <= |specs|
  {
    if n == 0 then [] else Allocations(specs, n - 1) + AllocationOf(specs[n - 1])
  }

  function AllocationOf(spec: Spec): seq<Op> {
    match spec
    case Unknown => []
    case MemoryBuffer(code) => [Alloc(MemRef(code))]
    case Fifo(_, _) => [FifoAllocate(TypesOf(spec))]
  }

  /** `e` stands for what `v` is: a value that was yielded before, or a result of the right one of the new operations. */
  ghost predicate StandsFor(ops: seq<Op>, yielded: seq<Value>, base: nat, specs: seq<Spec>, e: Entry, v: Value) {
    match e
    case Original(i) => i < |yielded| && v == yielded[i]
    case Buffer(k) => k < |specs| && v == Value(base + |Allocations(specs, k)|, 0) && v.op < |ops| && [ops[v.op]] == AllocationOf(specs[k])
    case FifoSlot(k, s) => k < |specs| && v == Value(base + |Allocations(specs, k)|, s) && v.op < |ops| && [ops[v.op]] == AllocationOf(specs[k])
    case Token(i) => v == Value(base + |Allocations(specs, |specs|)| + i, 0) && v.op < |ops| && ops[v.op] == CreateToken
  }

  /** The values are those that stand for the entries. */
  ghost predicate Stand(ops: seq<Op>, yielded: seq<Value>, base: nat, specs: seq<Spec>, entries: seq<Entry>, values: seq<Value>) {
    |values| == |entries| && forall i :: 0 <= i < |values| ==> StandsFor(ops, yielded, base, specs, entries[i], values[i])
  }

  lemma StandJoin(ops: seq<Op>, more: seq<Op>, yielded: seq<Value>, base: nat, specs: seq<Spec>,
      s: seq<Entry>, a: seq<Value>, t: seq<Entry>, b: seq<Value>)
    requires Stand(ops, yielded, base, specs, s, a) && Stand(ops + more, yielded, base, specs, t, b)
    ensures Stand(ops + more, yielded, base, specs, s + t, a + b)
  {
    forall i | 0 <= i < |a + b| ensures StandsFor(ops + more, yielded, base, specs, (s + t)[i], (a + b)[i]) {
      if i < |a| {
        assert StandsFor(ops, yielded, base, specs, s[i], a[i]);
      } else {
        assert StandsFor(ops + more, yielded, base, specs, t[i - |a|], b[i - |a|]);
      }
    }
  }

  /** The value map once the first `n` operations are cloned: their results stand for the original ones. */
  ghost predicate Mapped(values: map<Value, Value>, body: seq<Op>, n: nat, clones: map<Value, Value>)
    requires n <= |body|
  {
    && (forall v :: SourceDefined(body[..n], v) ==> v in clones && clones[v] == Value(v.op, v.result))
    && (forall v: Value :: !v.Source? ==> (v in clones <==> v in values))
    && forall v: Value :: !v.Source? && v in clones ==> clones[v] == values[v]
  }

  /** The clone of `op`, its operands looked up in the map. */
  method CloneOperation(op: Op, clones: map<Value, Value>) returns (clone: Op)
    ensures clone == if op.Other? then op.(operands := LookedUp(clones, op.operands)) else op
  {
    clone := op;
    if op.Other? {
      var operands: seq<Value> := [];
      while |operands| < |op.operands|
        invariant |operands| <= |op.operands| && operands == LookedUp(clones, op.operands)[..|operands|]
      {
        var v := op.operands[|operands|];
        operands := operands + [if v in clones then clones[v] else v];
      }
      clone := op.(operands := operands);
    }
  }

  /** The values that the map has, or the values themselves. */
  function LookedUp(clones: map<Value, Value>, vs: seq<Value>): (r: seq<Value>)
    ensures |r| == |vs|
  {
    seq(|vs|, k requires 0 <= k < |vs| => if vs[k] in clones then clones[vs[k]] else vs[k])
  }

  /** What an operation reads is in the map when its turn comes. */
  lemma LookedUpIsClone(values: map<Value, Value>, body: seq<Op>, i: nat, clones: map<Value, Value>)
    requires Ordered(body) && i < |body| && Mapped(values, body, i, clones)
    ensures LookedUp(clones, OperandsOf(body[i])) == Clones(values, OperandsOf(body[i]))
  {
    var vs := OperandsOf(body[i]);
    forall k | 0 <= k < |vs|
      ensures LookedUp(clones, vs)[k] == Clone(values, vs[k])
    {
      if vs[k].Source? {
        assert SourceDefined(body[..i], vs[k]);
      }
    }
  }

  /** Maps the results of operation `i` to those of its clone. */
  method MapResults(ghost values: map<Value, Value>, body: seq<Op>, i: nat, clones: map<Value, Value>) returns (more: map<Value, Value>)
    requires i < |body| && Mapped(values, body, i, clones)
    ensures Mapped(values, body, i + 1, more)
  {
    more := clones;
    var r: nat := 0;
    while r < |ResultsOf(body[i])|
      invariant r <= |ResultsOf(body[i])| && Mapped(values, body, i, more)
      invariant forall s: nat :: s < r ==> Source(i, s) in more && more[Source(i, s)] == Value(i, s)
    {
      more := more[Source(i, r) := Value(i, r)];
      r := r + 1;
    }
    forall v | SourceDefined(body[..i + 1], v)
      ensures v in more && more[v] == Value(v.op, v.result)
    {
      assert v.op == i ==> v == Source(i, v.result);
      assert v.op < i ==> SourceDefined(body[..i], v);
    }
  }

  /**
   * The operations of the body are cloned, each on the clones of its operands; what the body yielded is
   * looked up among the clones.
   */
  method CloneOriginalPrivateBody(body: seq<Op>, yielded: seq<Value>, values: map<Value, Value>)
    returns (ops: seq<Op>, operands: seq<Value>, clones: map<Value, Value>)
    requires Ordered(body) && forall i :: 0 <= i < |yielded| ==> SourceDefined(body, yielded[i])
    ensures AreClones(values, body, ops) && operands == Clones(values, yielded)
    ensures Mapped(values, body, |body|, clones)
  {
    ops, clones := [], values;
    while |ops| < |body|
      invariant |ops| <= |body| && Mapped(values, body, |ops|, clones)
      invariant forall i :: 0 <= i < |ops| ==> IsCloneOf(values, body[i], ops[i])
    {
      LookedUpIsClone(values, body, |ops|, clones);
      var clone := CloneOperation(body[|ops|], clones);
      clones := MapResults(values, body, |ops|, clones);
      ops := ops + [clone];
    }
    assert body[..|ops|] == body;
    operands := LookUpYielded(body, yielded, values, clones);
  }

  method LookUpYielded(ghost body: seq<Op>, yielded: seq<Value>, ghost values: map<Value, Value>, clones: map<Value, Value>)
    returns (operands: seq<Value>)
    requires Mapped(values, body, |body|, clones) && forall i :: 0 <= i < |yielded| ==> SourceDefined(body, yielded[i])
    ensures operands == Clones(values, yielded)
  {
    assert body[..|body|] == body;
    operands := [];
    while |operands| < |yielded|
      invariant |operands| <= |yielded| && operands == Clones(values, yielded)[..|operands|]
    {
      assert SourceDefined(body, yielded[|operands|]);
      operands := operands + [clones[yielded[|operands|]]];
    }
  }

  /** The types of the slots that a FIFO is allocated with. */
  method FifoSlotTypes(spec: Spec) returns (types: seq<Type>)
    requires spec.Fifo?
    ensures types == TypesOf(spec)
  {
    types := [];
    var s := 0;
    while s < |spec.elems|
      invariant s <= |spec.elems| && types == TypesOf(spec)[..s]
    {
      types := types + [Slot(spec.link, spec.elems[s])];
      s := s + 1;
    }
  }

  /** The results of the operation in place `op`, one by one. */
  method ResultValues(op: nat, n: nat) returns (values: seq<Value>)
    ensures |values| == n && forall s :: 0 <= s < n ==> values[s] == Value(op, s)
  {
    values := [];
    while |values| < n
      invariant |values| <= n && forall s :: 0 <= s < |values| ==> values[s] == Value(op, s)
    {
      values := values + [Value(op, |values|)];
    }
  }

  /** What there is after `n` specs: all values have their types, and stand for the entries of the layout. */
  ghost predicate Allocated(body: seq<Op>, yielded: seq<Value>, types: seq<Type>, specs: seq<Spec>, n: nat, ops: seq<Op>, operands: seq<Value>)
    requires n <= |specs|
  {
    && ops == body + Allocations(specs, n)
    && Typed(ops, operands, types + ResourceTypes(specs, n))
    && Stand(ops, yielded, |body|, specs, Originals(|yielded|) + Resources(specs, n), operands)
  }

  lemma AllocatedNext(body: seq<Op>, yielded: seq<Value>, types: seq<Type>, specs: seq<Spec>, n: nat,
      ops: seq<Op>, operands: seq<Value>, own: seq<Value>)
    requires n < |specs| && Allocated(body, yielded, types, specs, n, ops, operands)
    requires |own| == SlotsOf(specs[n]) && forall s :: 0 <= s < |own| ==> own[s] == Value(|ops|, s)
    ensures Allocated(body, yielded, types, specs, n + 1, ops + AllocationOf(specs[n]), operands + own)
  {
    OwnTyped(ops, specs[n], own);
    OwnStands(body, yielded, specs, n, ops, own);
    TypedNext(types, specs, n, ops, operands, own);
    StandsNext(body, yielded, specs, n, ops, operands, own);
    JoinIsAssociative(body, Allocations(specs, n), AllocationOf(specs[n]));
  }

  lemma JoinIsAssociative<T>(a: seq<T>, b: seq<T>, c: seq<T>)
    ensures (a + b) + c == a + (b + c)
  {
  }

  lemma TypedNext(types: seq<Type>, specs: seq<Spec>, n: nat, ops: seq<Op>, operands: seq<Value>, own: seq<Value>)
    requires n < |specs| && Typed(ops, operands, types + ResourceTypes(specs, n))
    requires Typed(ops + AllocationOf(specs[n]), own, TypesOf(specs[n]))
    ensures Typed(ops + AllocationOf(specs[n]), operands + own, types + ResourceTypes(specs, n + 1))
  {
    TypedJoin(ops, AllocationOf(specs[n]), operands, types + ResourceTypes(specs, n), own, TypesOf(specs[n]));
    JoinIsAssociative(types, ResourceTypes(specs, n), TypesOf(specs[n]));
  }

  lemma StandsNext(body: seq<Op>, yielded: seq<Value>, specs: seq<Spec>, n: nat, ops: seq<Op>, operands: seq<Value>, own: seq<Value>)
    requires n < |specs| && Stand(ops, yielded, |body|, specs, Originals(|yielded|) + Resources(specs, n), operands)
    requires Stand(ops + AllocationOf(specs[n]), yielded, |body|, specs, EntriesOf(specs, n), own)
    ensures Stand(ops + AllocationOf(specs[n]), yielded, |body|, specs, Originals(|yielded|) + Resources(specs, n + 1), operands + own)
  {
    StandJoin(ops, AllocationOf(specs[n]), yielded, |body|, specs, Originals(|yielded|) + Resources(specs, n), operands, EntriesOf(specs, n), own);
    JoinIsAssociative(Originals(|yielded|), Resources(specs, n), EntriesOf(specs, n));
  }

  lemma OwnTyped(ops: seq<Op>, spec: Spec, own: seq<Value>)
    requires |own| == SlotsOf(spec) && forall s :: 0 <= s < |own| ==> own[s] == Value(|ops|, s)
    ensures Typed(ops + AllocationOf(spec), own, TypesOf(spec))
  {
    forall s | 0 <= s < |own| ensures HasType(ops + AllocationOf(spec), own[s], TypesOf(spec)[s]) {
      assert (ops + AllocationOf(spec))[|ops|] == AllocationOf(spec)[0];
    }
  }

  lemma OwnStands(body: seq<Op>, yielded: seq<Value>, specs: seq<Spec>, n: nat, ops: seq<Op>, own: seq<Value>)
    requires n < |specs| && ops == body + Allocations(specs, n)
    requires |own| == SlotsOf(specs[n]) && forall s :: 0 <= s < |own| ==> own[s] == Value(|ops|, s)
    ensures Stand(ops + AllocationOf(specs[n]), yielded, |body|, specs, EntriesOf(specs, n), own)
  {
    forall s | 0 <= s < |own|
      ensures StandsFor(ops + AllocationOf(specs[n]), yielded, |body|, specs, EntriesOf(specs, n)[s], own[s])
    {
      EntryStands(ops, yielded, |body|, specs, n, s, EntriesOf(specs, n)[s]);
    }
  }

  lemma EntryStands(ops: seq<Op>, yielded: seq<Value>, base: nat, specs: seq<Spec>, n: nat, s: nat, e: Entry)
    requires n < |specs| && s < |EntriesOf(specs, n)| && e == EntriesOf(specs, n)[s] && |ops| == base + |Allocations(specs, n)|
    ensures StandsFor(ops + AllocationOf(specs[n]), yielded, base, specs, e, Value(|ops|, s))
  {
    match specs[n]
    case Unknown =>
    case MemoryBuffer(_) => assert e == Buffer(n);
    case Fifo(_, _) => assert e == FifoSlot(n, s);
  }

  /** One operation for each spec: a buffer gives its result, a FIFO each of its slots. */
  method AllocateNewPrivateResources(body: seq<Op>, yielded: seq<Value>, specs: seq<Spec>, ghost types: seq<Type>)
    returns (ops: seq<Op>, operands: seq<Value>)
    requires Typed(body, yielded, types)
    ensures Allocated(body, yielded, types, specs, |specs|, ops, operands)
  {
    ops, operands := body, yielded;
    var k := 0;
    assert types + ResourceTypes(specs, 0) == types;
    while k < |specs|
      invariant k <= |specs| && Allocated(body, yielded, types, specs, k, ops, operands)
    {
      var own: seq<Value> := [];
      var more: seq<Op> := [];
      if specs[k].MemoryBuffer? {
        more, own := [Alloc(MemRef(specs[k].code))], [Value(|ops|, 0)];
      } else if specs[k].Fifo? {
        var slotTypes := FifoSlotTypes(specs[k]);
        more := [FifoAllocate(slotTypes)];
        own := ResultValues(|ops|, |ResultsOf(more[0])|);
      }
      AllocatedNext(body, yielded, types, specs, k, ops, operands, own);
      ops, operands := ops + more, operands + own;
      k := k + 1;
    }
  }

  /** The private block with its first `n` tokens: every operand has the announced type and is what the layout says. */
  ghost predicate Complete(body: seq<Op>, yielded: seq<Value>, types: seq<Type>, specs: seq<Spec>, n: nat, ops: seq<Op>, operands: seq<Value>) {
    && |ops| == |body| + |Allocations(specs, |specs|)| + n && ops[..|body|] == body
    && Typed(ops, operands, PrivateTypes(types, specs, n))
    && Stand(ops, yielded, |body|, specs, Layout(|yielded|, specs, n), operands)
  }

  lemma CompleteNext(body: seq<Op>, yielded: seq<Value>, types: seq<Type>, specs: seq<Spec>, n: nat, ops: seq<Op>, operands: seq<Value>)
    requires Complete(body, yielded, types, specs, n, ops, operands)
    ensures Complete(body, yielded, types, specs, n + 1, ops + [CreateToken], operands + [Value(|ops|, 0)])
  {
    var own := Value(|ops|, 0);
    assert HasType(ops + [CreateToken], own, TokenType);
    TypedJoin(ops, [CreateToken], operands, PrivateTypes(types, specs, n), [own], [TokenType]);
    assert TokenTypes(n) + [TokenType] == TokenTypes(n + 1);
    JoinIsAssociative(types + ResourceTypes(specs, |specs|), TokenTypes(n), [TokenType]);
    TokenStands(body, yielded, specs, n, ops, operands);
  }

  lemma TokenStands(body: seq<Op>, yielded: seq<Value>, specs: seq<Spec>, n: nat, ops: seq<Op>, operands: seq<Value>)
    requires |ops| == |body| + |Allocations(specs, |specs|)| + n
    requires Stand(ops, yielded, |body|, specs, Layout(|yielded|, specs, n), operands)
    ensures Stand(ops + [CreateToken], yielded, |body|, specs, Layout(|yielded|, specs, n + 1), operands + [Value(|ops|, 0)])
  {
    assert StandsFor(ops + [CreateToken], yielded, |body|, specs, Token(n), Value(|ops|, 0));
    StandJoin(ops, [CreateToken], yielded, |body|, specs, Layout(|yielded|, specs, n), operands, [Token(n)], [Value(|ops|, 0)]);
    assert Tokens(n) + [Token(n)] == Tokens(n + 1);
    JoinIsAssociative(Originals(|yielded|) + Resources(specs, |specs|), Tokens(n), [Token(n)]);
  }

  /** One token for each stage that somebody depends on. */
  method CreateStageTokens(ghost body: seq<Op>, ghost yielded: seq<Value>, ghost types: seq<Type>, ghost specs: seq<Spec>,
      before: seq<Op>, values: seq<Value>, tokens: nat) returns (ops: seq<Op>, operands: seq<Value>)
    requires Allocated(body, yielded, types, specs, |specs|, before, values)
    ensures Complete(body, yielded, types, specs, tokens, ops, operands)
  {
    ops, operands := before, values;
    var n := 0;
    assert PrivateTypes(types, specs, 0) == types + ResourceTypes(specs, |specs|);
    assert Layout(|yielded|, specs, 0) == Originals(|yielded|) + Resources(specs, |specs|);
    while n < tokens
      invariant n <= tokens && Complete(body, yielded, types, specs, n, ops, operands)
    {
      CompleteNext(body, yielded, types, specs, n, ops, operands);
      operands := operands + [Value(|ops|, 0)];
      ops := ops + [CreateToken];
      n := n + 1;
    }
  }

  // ---------------------------------------------------------------------------------------------
  // Looking results up again
  // ---------------------------------------------------------------------------------------------

  /** The next `n` places. */
  method NextPlaces(first: nat, n: nat) returns (own: seq<nat>, next: nat)
    ensures next == first + n && |own| == n && forall j :: 0 <= j < n ==> own[j] == first + j
  {
    own, next := [], first;
    while |own| < n
      invariant |own| <= n && next == first + |own| && forall j :: 0 <= j < |own| ==> own[j] == first + j
    {
      own := own + [next];
      next := next + 1;
    }
  }

  /** For every spec the places of its results, counted up from the end of the original results. */
  method RegisterAllocatedResources(originals: nat, specs: seq<Spec>, ghost tokens: nat) returns (places: seq<seq<nat>>)
    ensures |places| == |specs|
    ensures forall k :: 0 <= k < |specs| ==> Registered(originals, specs, tokens, k, places[k])
    ensures forall k :: 0 <= k < |specs| ==> Counted(originals, specs, k, places[k])
  {
    places := CountPlaces(originals, specs);
    forall k | 0 <= k < |specs| ensures Registered(originals, specs, tokens, k, places[k]) {
      RegisterOne(originals, specs, tokens, k, places[k]);
    }
  }

  method CountPlaces(originals: nat, specs: seq<Spec>) returns (places: seq<seq<nat>>)
    ensures |places| == |specs| && forall k :: 0 <= k < |specs| ==> Counted(originals, specs, k, places[k])
  {
    places := [];
    var current, k := originals, 0;
    while k < |specs|
      invariant 0 <= k == |places| <= |specs| && current == originals + |Resources(specs, k)|
      invariant forall j :: 0 <= j < k ==> Counted(originals, specs, j, places[j])
    {
      var own;
      own, current := NextPlaces(current, SlotsOf(specs[k]));
      places := places + [own];
      k := k + 1;
    }
  }

  /** The places follow those of the specs before. */
  ghost predicate Counted(originals: nat, specs: seq<Spec>, k: nat, own: seq<nat>)
    requires k < |specs|
  {
    |own| == SlotsOf(specs[k]) && forall s :: 0 <= s < |own| ==> own[s] == originals + |Resources(specs, k)| + s
  }

  /** The places hold the results of spec `k`, slot by slot. */
  ghost predicate Registered(originals: nat, specs: seq<Spec>, tokens: nat, k: nat, own: seq<nat>)
    requires k < |specs|
  {
    && |own| == |EntriesOf(specs, k)|
    && forall s :: 0 <= s < |own| ==> HoldsAt(Layout(originals, specs, tokens), own[s], EntriesOf(specs, k)[s])
  }

  ghost predicate HoldsAt(entries: seq<Entry>, place: nat, e: Entry) {
    place < |entries| && entries[place] == e
  }

  /** What the last part of a prefix holds, the whole holds there. */
  lemma HoldsInPrefix(a: seq<Entry>, b: seq<Entry>, whole: seq<Entry>, s: nat, e: Entry)
    requires a + b <= whole && HoldsAt(b, s, e)
    ensures HoldsAt(whole, |a| + s, e)
  {
    assert whole[|a| + s] == (a + b)[|a| + s];
  }

  lemma JoinedPrefix<T>(a: seq<T>, b: seq<T>, c: seq<T>)
    requires a <= b
    ensures a <= b + c
  {
  }

  /** The resources of the first specs come first. */
  lemma {:induction false} ResourcesPrefix(specs: seq<Spec>, n: nat, k: nat)
    requires k <= n <= |specs|
    ensures Resources(specs, k) <= Resources(specs, n)
  {
    if k < n {
      ResourcesPrefix(specs, n - 1, k);
      JoinedPrefix(Resources(specs, k), Resources(specs, n - 1), EntriesOf(specs, n - 1));
    }
  }

  lemma ResourcesNext(specs: seq<Spec>, k: nat)
    requires k < |specs|
    ensures Resources(specs, k + 1) == Resources(specs, k) + EntriesOf(specs, k)
  {
  }

  lemma ResourcesAt(specs: seq<Spec>, n: nat, k: nat, s: nat, e: Entry)
    requires k < n <= |specs| && HoldsAt(EntriesOf(specs, k), s, e)
    ensures HoldsAt(Resources(specs, n), |Resources(specs, k)| + s, e)
  {
    ResourcesPrefix(specs, n, k + 1);
    ResourcesNext(specs, k);
    HoldsInPrefix(Resources(specs, k), EntriesOf(specs, k), Resources(specs, n), s, e);
  }

  /** What the middle part of the layout holds, the whole layout holds further on. */
  lemma Middle(a: seq<Entry>, b: seq<Entry>, c: seq<Entry>, i: nat, e: Entry)
    requires HoldsAt(b, i, e)
    ensures HoldsAt(a + b + c, |a| + i, e)
  {
  }

  lemma RegisterSlot(originals: nat, specs: seq<Spec>, tokens: nat, k: nat, s: nat, place: nat, e: Entry)
    requires k < |specs| && HoldsAt(EntriesOf(specs, k), s, e) && place == originals + |Resources(specs, k)| + s
    ensures HoldsAt(Layout(originals, specs, tokens), place, e)
  {
    ResourcesAt(specs, |specs|, k, s, e);
    Middle(Originals(originals), Resources(specs, |specs|), Tokens(tokens), |Resources(specs, k)| + s, e);
  }

  lemma RegisterOne(originals: nat, specs: seq<Spec>, tokens: nat, k: nat, own: seq<nat>)
    requires k < |specs| && Counted(originals, specs, k, own)
    ensures Registered(originals, specs, tokens, k, own)
  {
    forall s | 0 <= s < |own|
      ensures HoldsAt(Layout(originals, specs, tokens), own[s], EntriesOf(specs, k)[s])
    {
      RegisterSlot(originals, specs, tokens, k, s, own[s], EntriesOf(specs, k)[s]);
    }
  }

  /** The token of stage `i` is where the token map looks for it. */
  lemma TokenPlace(originals: nat, specs: seq<Spec>, tokens: nat, i: nat)
    requires i < tokens
    ensures var place := originals + |Resources(specs, |specs|)| + i;
      place < |Layout(originals, specs, tokens)| && Layout(originals, specs, tokens)[place] == Token(i)
  {
  }

  // ---------------------------------------------------------------------------------------------
  // The whole block
  // ---------------------------------------------------------------------------------------------

  /** At its places a spec has the types that it asks for. */
  predicate Announced(types: seq<Type>, spec: Spec, places: seq<nat>) {
    && (forall s :: 0 <= s < |places| ==> places[s] < |types|)
    && match spec
      case Unknown => places == []
      case MemoryBuffer(code) => |places| == 1 && types[places[0]] == MemRef(code)
      case Fifo(link, elems) => |places| == |elems| && forall s :: 0 <= s < |elems| ==> types[places[s]] == Slot(link, elems[s])
  }

  /** How many of the first `n` specs are of a kind that is allocated. */
  function Allocating(specs: seq<Spec>, n: nat): nat
    requires n <= |specs|
  {
    if n == 0 then 0 else Allocating(specs, n - 1) + if specs[n - 1].Unknown? then 0 else 1
  }

  lemma {:induction false} AllocationsCount(specs: seq<Spec>, n: nat)
    requires n <= |specs|
    ensures |Allocations(specs, n)| == Allocating(specs, n)
  {
    if n > 0 {
      AllocationsCount(specs, n - 1);
    }
  }

  /** At its places a spec has the results of the operation that allocates it, in their order. */
  ghost predicate AllocatedAt(ops: seq<Op>, operands: seq<Value>, op: nat, spec: Spec, places: seq<nat>) {
    places != [] ==> op < |ops| && ResultsAt(operands, op, places) && IsAllocation(ops[op], spec, |places|)
  }

  predicate IsAllocation(op: Op, spec: Spec, n: nat) {
    if spec.Fifo? then op.FifoAllocate? && |op.types| == n else op.Alloc? && n == 1
  }

  predicate ResultsAt(operands: seq<Value>, op: nat, places: seq<nat>) {
    forall s :: 0 <= s < |places| ==> places[s] < |operands| && operands[places[s]] == Value(op, s)
  }

  function Total(places: seq<seq<nat>>, n: nat): nat
    requires n <= |places|
  {
    if n == 0 then 0 else Total(places, n - 1) + |places[n - 1]|
  }

  /** All places one after the other, from `first` up to `next`. */
  ghost predicate InRow(places: seq<seq<nat>>, first: nat, next: nat) {
    && next == first + Total(places, |places|)
    && forall k :: 0 <= k < |places| ==> FollowsOn(places[k], first + Total(places, k))
  }

  predicate FollowsOn(own: seq<nat>, first: nat) {
    forall s :: 0 <= s < |own| ==> own[s] == first + s
  }

  lemma {:induction false} TotalIsResources(originals: nat, specs: seq<Spec>, places: seq<seq<nat>>, n: nat)
    requires |places| == |specs| && n <= |specs| && forall k :: 0 <= k < |specs| ==> Counted(originals, specs, k, places[k])
    ensures Total(places, n) == |Resources(specs, n)|
  {
    if n > 0 {
      TotalIsResources(originals, specs, places, n - 1);
      assert Counted(originals, specs, n - 1, places[n - 1]);
    }
  }

  lemma {:induction false} TypesPrefix(specs: seq<Spec>, n: nat, k: nat)
    requires k <= n <= |specs|
    ensures ResourceTypes(specs, k) <= ResourceTypes(specs, n)
  {
    if k < n {
      TypesPrefix(specs, n - 1, k);
      JoinedPrefix(ResourceTypes(specs, k), ResourceTypes(specs, n - 1), TypesOf(specs[n - 1]));
    }
  }

  lemma ResourceTypesNext(specs: seq<Spec>, k: nat)
    requires k < |specs|
    ensures ResourceTypes(specs, k + 1) == ResourceTypes(specs, k) + TypesOf(specs[k])
  {
  }

  lemma AmidAll<T>(first: seq<T>, a: seq<T>, b: seq<T>, all: seq<T>, last: seq<T>, s: nat)
    requires a + b <= all && s < |b|
    ensures |first| + |a| + s < |first + all + last| && (first + all + last)[|first| + |a| + s] == b[s]
  {
    assert all[|a| + s] == (a + b)[|a| + s];
  }

  lemma TypeAt(originals: seq<Type>, specs: seq<Spec>, tokens: nat, k: nat, s: nat, place: nat, t: Type)
    requires k < |specs| && s < SlotsOf(specs[k]) && place == |originals| + |Resources(specs, k)| + s && t == TypesOf(specs[k])[s]
    ensures place < |PrivateTypes(originals, specs, tokens)| && PrivateTypes(originals, specs, tokens)[place] == t
  {
    TypesPrefix(specs, |specs|, k + 1);
    ResourceTypesNext(specs, k);
    AmidAll(originals, ResourceTypes(specs, k), TypesOf(specs[k]), ResourceTypes(specs, |specs|), TokenTypes(tokens), s);
  }

  lemma PlacesAreAnnounced(originals: seq<Type>, specs: seq<Spec>, tokens: nat, k: nat, own: seq<nat>)
    requires k < |specs| && Counted(|originals|, specs, k, own)
    ensures Announced(PrivateTypes(originals, specs, tokens), specs[k], own)
  {
    forall s | 0 <= s < |own|
      ensures own[s] < |PrivateTypes(originals, specs, tokens)|
      ensures PrivateTypes(originals, specs, tokens)[own[s]] == TypesOf(specs[k])[s]
    {
      TypeAt(originals, specs, tokens, k, s, own[s], TypesOf(specs[k])[s]);
    }
  }

  lemma PlacesAreAllocated(ops: seq<Op>, yielded: seq<Value>, base: nat, specs: seq<Spec>, tokens: nat, operands: seq<Value>, k: nat, own: seq<nat>)
    requires k < |specs| && Counted(|yielded|, specs, k, own) && Registered(|yielded|, specs, tokens, k, own)
    requires Stand(ops, yielded, base, specs, Layout(|yielded|, specs, tokens), operands)
    ensures AllocatedAt(ops, operands, base + Allocating(specs, k), specs[k], own)
  {
    var op := base + Allocating(specs, k);
    forall s | 0 <= s < |own| ensures SlotOf(ops, operands, op, specs[k], s, own[s]) {
      SlotStands(ops, yielded, base, specs, tokens, operands, k, s, own[s]);
    }
    if own != [] {
      assert SlotOf(ops, operands, op, specs[k], 0, own[0]);
      AllocationIsOne(ops[op], specs[k]);
    }
  }

  ghost predicate SlotOf(ops: seq<Op>, operands: seq<Value>, op: nat, spec: Spec, s: nat, place: nat) {
    place < |operands| && operands[place] == Value(op, s) && op < |ops| && [ops[op]] == AllocationOf(spec)
  }

  lemma AllocationIsOne(op: Op, spec: Spec)
    requires [op] == AllocationOf(spec)
    ensures IsAllocation(op, spec, SlotsOf(spec))
  {
    assert AllocationOf(spec)[0] == op;
  }

  lemma SlotStands(ops: seq<Op>, yielded: seq<Value>, base: nat, specs: seq<Spec>, tokens: nat, operands: seq<Value>, k: nat, s: nat, place: nat)
    requires k < |specs| && s < |EntriesOf(specs, k)| && HoldsAt(Layout(|yielded|, specs, tokens), place, EntriesOf(specs, k)[s])
    requires Stand(ops, yielded, base, specs, Layout(|yielded|, specs, tokens), operands)
    ensures SlotOf(ops, operands, base + Allocating(specs, k), specs[k], s, place)
  {
    AllocationsCount(specs, k);
    assert StandsFor(ops, yielded, base, specs, Layout(|yielded|, specs, tokens)[place], operands[place]);
  }

  /** The original results come first and the tokens last, each from an operation of its own. */
  ghost predicate Ends(ops: seq<Op>, originals: seq<Value>, base: nat, operands: seq<Value>, nonTokens: nat, tokens: nat) {
    && |operands| == nonTokens + tokens && |originals| <= nonTokens && operands[..|originals|] == originals
    && |ops| >= base + tokens && forall i :: nonTokens <= i < |operands| ==> TokenAt(ops, operands[i], |ops| - |operands| + i)
  }

  predicate TokenAt(ops: seq<Op>, v: Value, op: int) {
    0 <= op < |ops| && v == Value(op, 0) && ops[op] == CreateToken
  }

  lemma LayoutEnds(ops: seq<Op>, originals: seq<Value>, base: nat, specs: seq<Spec>, tokens: nat, operands: seq<Value>)
    requires Stand(ops, originals, base, specs, Layout(|originals|, specs, tokens), operands)
    requires |ops| == base + |Allocations(specs, |specs|)| + tokens
    ensures Ends(ops, originals, base, operands, |originals| + |Resources(specs, |specs|)|, tokens)
  {
    var layout := Layout(|originals|, specs, tokens);
    forall i | 0 <= i < |originals| ensures operands[i] == originals[i] {
      assert layout[i] == Original(i) && StandsFor(ops, originals, base, specs, layout[i], operands[i]);
    }
    var nonTokens := |originals| + |Resources(specs, |specs|)|;
    forall i | nonTokens <= i < |operands| ensures TokenAt(ops, operands[i], |ops| - |operands| + i) {
      assert layout[i] == Token(i - nonTokens) && StandsFor(ops, originals, base, specs, layout[i], operands[i]);
    }
  }

  /** The clones of the original body, then the allocations, then the tokens; everything as the layout says. */
  method BuildBody(body: seq<Op>, yielded: seq<Value>, values: map<Value, Value>, ghost originals: seq<Type>, specs: seq<Spec>, tokens: nat)
    returns (ops: seq<Op>, operands: seq<Value>, clones: map<Value, Value>)
    requires Ordered(body) && SourceTyped(body, yielded, originals)
    ensures Mapped(values, body, |body|, clones)
    ensures |ops| == |body| + |Allocations(specs, |specs|)| + tokens && AreClones(values, body, ops[..|body|])
    ensures Typed(ops, operands, PrivateTypes(originals, specs, tokens))
    ensures Stand(ops, Clones(values, yielded), |body|, specs, Layout(|yielded|, specs, tokens), operands)
  {
    var clonedOps, cloned;
    clonedOps, cloned, clones := CloneOriginalPrivateBody(body, yielded, values);
    ClonesAreTyped(values, body, clonedOps, yielded, originals);
    ops, operands := AllocateNewPrivateResources(clonedOps, cloned, specs, originals);
    ops, operands := CreateStageTokens(clonedOps, cloned, originals, specs, ops, operands, tokens);
  }

  /** The originals first and the tokens last. */
  predicate TypesEnd(types: seq<Type>, originals: seq<Type>, nonTokens: nat) {
    |originals| <= |types| && types[..|originals|] == originals && forall i :: nonTokens <= i < |types| ==> types[i] == TokenType
  }

  lemma PrivateTypesEnd(originals: seq<Type>, specs: seq<Spec>, tokens: nat)
    ensures TypesEnd(PrivateTypes(originals, specs, tokens), originals, |originals| + |Resources(specs, |specs|)|)
  {
  }

  /** What every spec finds at its places. */
  ghost predicate Served(types: seq<Type>, ops: seq<Op>, operands: seq<Value>, base: nat, specs: seq<Spec>, places: seq<seq<nat>>) {
    && |places| == |specs|
    && forall k :: 0 <= k < |specs| ==>
      Announced(types, specs[k], places[k]) && AllocatedAt(ops, operands, base + Allocating(specs, k), specs[k], places[k])
  }

  lemma AllServed(originals: seq<Type>, ops: seq<Op>, yielded: seq<Value>, operands: seq<Value>, base: nat,
      specs: seq<Spec>, tokens: nat, places: seq<seq<nat>>)
    requires |yielded| == |originals| && Stand(ops, yielded, base, specs, Layout(|yielded|, specs, tokens), operands)
    requires |places| == |specs| && forall k :: 0 <= k < |specs| ==> Counted(|yielded|, specs, k, places[k])
    requires forall k :: 0 <= k < |specs| ==> Registered(|yielded|, specs, tokens, k, places[k])
    ensures Served(PrivateTypes(originals, specs, tokens), ops, operands, base, specs, places)
  {
    forall k | 0 <= k < |specs|
      ensures Announced(PrivateTypes(originals, specs, tokens), specs[k], places[k])
      ensures AllocatedAt(ops, operands, base + Allocating(specs, k), specs[k], places[k])
    {
      PlacesAreAnnounced(originals, specs, tokens, k, places[k]);
      PlacesAreAllocated(ops, yielded, base, specs, tokens, operands, k, places[k]);
    }
  }

  /**
   * The new private block: its body begins with the clones of the original one and yields, for every
   * result, a value of the type announced for that result. The results are the original ones, then at the
   * places recorded for each spec the memory or the slots of the sizes that it asks for, each allocated by
   * an operation of its own, then the tokens.
   */
  method MaterializePrivateNode(body: seq<Op>, yielded: seq<Value>, values: map<Value, Value>,
      originals: seq<Type>, specs: seq<Spec>, tokens: nat)
    returns (types: seq<Type>, nonTokens: nat, ops: seq<Op>, operands: seq<Value>, clones: map<Value, Value>, places: seq<seq<nat>>)
    requires Ordered(body) && SourceTyped(body, yielded, originals)
    ensures |ops| == |body| + Allocating(specs, |specs|) + tokens
    ensures AreClones(values, body, ops[..|body|]) && Mapped(values, body, |body|, clones)
    ensures Typed(ops, operands, types) && TypesEnd(types, originals, nonTokens)
    ensures Ends(ops, Clones(values, yielded), |body|, operands, nonTokens, tokens)
    ensures InRow(places, |originals|, nonTokens) && Served(types, ops, operands, |body|, specs, places)
  {
    types, nonTokens := BuildPrivateResultTypes(originals, specs, tokens);
    ops, operands, clones := BuildBody(body, yielded, values, originals, specs, tokens);
    places := RegisterAllocatedResources(|originals|, specs, tokens);
    PrivateTypesEnd(originals, specs, tokens);
    AllServed(originals, ops, Clones(values, yielded), operands, |body|, specs, tokens, places);
    LayoutEnds(ops, Clones(values, yielded), |body|, specs, tokens, operands);
    PlacesInRow(|originals|, specs, places);
    AllocationsCount(specs, |specs|);
  }

  lemma PlacesInRow(originals: nat, specs: seq<Spec>, places: seq<seq<nat>>)
    requires |places| == |specs| && forall k :: 0 <= k < |specs| ==> Counted(originals, specs, k, places[k])
    ensures InRow(places, originals, originals + |Resources(specs, |specs|)|)
  {
    TotalIsResources(originals, specs, places, |specs|);
    forall k | 0 <= k < |places| ensures FollowsOn(places[k], originals + Total(places, k)) {
      TotalIsResources(originals, specs, places, k);
      assert Counted(originals, specs, k, places[k]);
    }
  }
}
