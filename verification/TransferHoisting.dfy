/**
 * Broadcast promotion: transfers into memory that do not depend on the loops around their pipeline
 * are hoisted out of them, one at a time, until none can be.
 */
module TransferHoisting {
  import opened Sequences

  /** Buffers and loop counters are numbers. A push is a transfer whose destination is a FIFO. */
  datatype Op =
    | Transfer(id: nat, source: nat, dest: nat, uses: seq<nat>)
    | Push(id: nat, source: nat, uses: seq<nat>)
    | Compute(id: nat, code: nat, sources: seq<nat>, dests: seq<nat>, uses: seq<nat>)
    | Alloc(id: nat, buffer: nat)

  datatype Kind = Loop(iv: nat, trip: nat) | Pipeline | Stage | Region(code: nat)

  datatype Stmt = Do(op: Op) | Block(kind: Kind, body: seq<Stmt>)

  /** A loop around a pipeline: its counter, its body, and which statement of the body leads to the pipeline. */
  datatype Frame = Frame(iv: nat, body: seq<Stmt>, at: nat)

  // ---------------------------------------------------------------------------------------------
  // Which loops a pipeline can be hoisted out of
  // ---------------------------------------------------------------------------------------------

  /** All statements of a region, at any depth. */
  ghost function Nested(stmts: seq<Stmt>): set<Stmt> {
    if stmts == [] then {}
    else {stmts[0]} + (if stmts[0].Block? then Nested(stmts[0].body) else {}) + Nested(stmts[1..])
  }

  predicate IsPipeline(s: Stmt) {
    s.Block? && s.kind == Pipeline
  }

  predicate HasPipeline(stmts: seq<Stmt>) {
    stmts != [] && (HasPipeline(stmts[1..]) || (stmts[0].Block? && (stmts[0].kind == Pipeline || HasPipeline(stmts[0].body))))
  }

  /** No pipeline in the loop but in the statement that leads to this one. */
  predicate NoPeer(f: Frame) {
    forall k :: 0 <= k < |f.body| && k != f.at ==> !HasPipeline([f.body[k]])
  }

  /** In the loop nothing at any depth is a pipeline, but in statement `at`. */
  ghost predicate Alone(body: seq<Stmt>, at: nat) {
    forall k, s :: 0 <= k < |body| && k != at && s in Nested([body[k]]) ==> !IsPipeline(s)
  }

  lemma {:induction false} PipelineIsNested(stmts: seq<Stmt>)
    ensures HasPipeline(stmts) <==> exists s :: s in Nested(stmts) && IsPipeline(s)
  {
    if stmts != [] {
      PipelineIsNested(stmts[1..]);
      if stmts[0].Block? {
        PipelineIsNested(stmts[0].body);
      }
      assert IsPipeline(stmts[0]) ==> stmts[0] in Nested(stmts);
    }
  }

  lemma NoPeerIsAlone(f: Frame)
    ensures NoPeer(f) <==> Alone(f.body, f.at)
  {
    forall k | 0 <= k < |f.body|
      ensures HasPipeline([f.body[k]]) <==> exists s :: s in Nested([f.body[k]]) && IsPipeline(s)
    {
      PipelineIsNested([f.body[k]]);
    }
  }

  /** How many of the loops around a pipeline, from the innermost, hold no other pipeline. */
  method GetPipelineEnclosingScope(chain: seq<Frame>) returns (n: nat)
    ensures n <= |chain| && forall i :: 0 <= i < n ==> Alone(chain[i].body, chain[i].at)
    ensures n < |chain| ==> !Alone(chain[n].body, chain[n].at)
    ensures n == ScopeSize(chain)
  {
    n := 0;
    while n < |chain| && NoPeer(chain[n])
      invariant n <= |chain| && forall i :: 0 <= i < n ==> NoPeer(chain[i])
      invariant ScopeSize(chain) == n + ScopeSize(chain[n..])
    {
      n := n + 1;
    }
    forall i | 0 <= i <= n && i < |chain| ensures NoPeer(chain[i]) <==> Alone(chain[i].body, chain[i].at) {
      NoPeerIsAlone(chain[i]);
    }
  }

  function ScopeSize(chain: seq<Frame>): (n: nat)
    ensures n <= |chain|
  {
    if chain == [] || !NoPeer(chain[0]) then 0 else 1 + ScopeSize(chain[1..])
  }

  // ---------------------------------------------------------------------------------------------
  // Legality
  // ---------------------------------------------------------------------------------------------

  predicate WritesTo(op: Op, buffer: nat) {
    match op
    case Transfer(_, _, dest, _) => dest == buffer
    case Push(_, _, _) => false
    case Compute(_, _, _, dests, _) => buffer in dests
    case Alloc(_, _) => false
  }

  /** Some operation in the region writes the buffer, the one to be ignored aside. */
  predicate RegionWritesTo(stmts: seq<Stmt>, buffer: nat, ignored: Option<nat>) {
    stmts != [] && (RegionWritesTo(stmts[1..], buffer, ignored) || match stmts[0]
      case Do(op) => Some(op.id) != ignored && WritesTo(op, buffer)
      case Block(_, body) => RegionWritesTo(body, buffer, ignored))
  }

  predicate RegionDefines(stmts: seq<Stmt>, buffer: nat) {
    stmts != [] && (RegionDefines(stmts[1..], buffer) || match stmts[0]
      case Do(op) => op.Alloc? && op.buffer == buffer
      case Block(_, body) => RegionDefines(body, buffer))
  }

  /** The transfer does the same in every iteration of the loop, and nothing in the loop interferes. */
  predicate LegalFor(t: Op, f: Frame)
    requires t.Transfer?
  {
    && f.iv !in t.uses
    && !RegionWritesTo(f.body, t.source, None)
    && !RegionWritesTo(f.body, t.dest, Some(t.id))
    && !RegionDefines(f.body, t.source)
  }

  /** The operation keeps the transfer in a loop that they are both in. */
  predicate Holds(op: Op, t: Op)
    requires t.Transfer?
  {
    || WritesTo(op, t.source)
    || (op.id != t.id && WritesTo(op, t.dest))
    || (op.Alloc? && op.buffer == t.source)
  }

  /** The transfer has to stay in the loop: it uses the counter, or some operation of the loop keeps it there. */
  ghost predicate Tied(t: Op, iv: nat, body: seq<Stmt>)
    requires t.Transfer?
  {
    iv in t.uses || exists op :: Do(op) in Nested(body) && Holds(op, t)
  }

  lemma {:induction false} WritesInRegion(stmts: seq<Stmt>, buffer: nat, ignored: Option<nat>)
    ensures RegionWritesTo(stmts, buffer, ignored) <==>
      exists op :: Do(op) in Nested(stmts) && Some(op.id) != ignored && WritesTo(op, buffer)
  {
    if stmts != [] {
      WritesInRegion(stmts[1..], buffer, ignored);
      match stmts[0]
      case Do(op) => assert Do(op) in Nested(stmts);
      case Block(_, body) => WritesInRegion(body, buffer, ignored);
    }
  }

  lemma {:induction false} DefinedInRegion(stmts: seq<Stmt>, buffer: nat)
    ensures RegionDefines(stmts, buffer) <==> exists op :: Do(op) in Nested(stmts) && op.Alloc? && op.buffer == buffer
  {
    if stmts != [] {
      DefinedInRegion(stmts[1..], buffer);
      match stmts[0]
      case Do(op) => assert Do(op) in Nested(stmts);
      case Block(_, body) => DefinedInRegion(body, buffer);
    }
  }

  /** The four checks together say that the transfer does not have to stay. */
  lemma LegalIffNotTied(t: Op, f: Frame)
    requires t.Transfer?
    ensures LegalFor(t, f) <==> !Tied(t, f.iv, f.body)
  {
    WritesInRegion(f.body, t.source, None);
    WritesInRegion(f.body, t.dest, Some(t.id));
    DefinedInRegion(f.body, t.source);
  }

  /** How many loops, from the innermost, the transfer can be hoisted out of. */
  function LegalLoops(t: Op, scope: seq<Frame>): (n: nat)
    requires t.Transfer?
    ensures n <= |scope|
  {
    if scope == [] || !LegalFor(t, scope[0]) then 0 else 1 + LegalLoops(t, scope[1..])
  }

  method FindOutermostLegalTargetDepth(t: Op, scope: seq<Frame>) returns (best: int)
    requires t.Transfer?
    ensures -1 <= best < |scope| && best + 1 == LegalLoops(t, scope)
    ensures forall i :: 0 <= i <= best ==> !Tied(t, scope[i].iv, scope[i].body)
    ensures best + 1 < |scope| ==> Tied(t, scope[best + 1].iv, scope[best + 1].body)
  {
    best := -1;
    var i := 0;
    while i < |scope|
      invariant i <= |scope| && best == i - 1
      invariant LegalLoops(t, scope) == i + LegalLoops(t, scope[i..])
      invariant forall j :: 0 <= j < i ==> !Tied(t, scope[j].iv, scope[j].body)
    {
      LegalIffNotTied(t, scope[i]);
      if !LegalFor(t, scope[i]) {
        break;
      }
      best := i;
      i := i + 1;
    }
  }

  /** The transfers into memory in a region, in order. */
  function TransfersIn(stmts: seq<Stmt>): (r: seq<Op>)
    ensures forall k :: 0 <= k < |r| ==> r[k].Transfer?
  {
    if stmts == [] then []
    else (match stmts[0]
      case Do(op) => if op.Transfer? then [op] else []
      case Block(_, body) => TransfersIn(body)) + TransfersIn(stmts[1..])
  }

  /** They come in the order of the statements, those in a block at the place of the block. */
  lemma {:induction false} TransfersInOrder(a: seq<Stmt>, b: seq<Stmt>)
    ensures TransfersIn(a + b) == TransfersIn(a) + TransfersIn(b)
  {
    if a == [] {
      assert a + b == b;
    } else {
      assert (a + b)[0] == a[0] && (a + b)[1..] == a[1..] + b;
      TransfersInOrder(a[1..], b);
    }
  }

  /** A transfer, the stage of the pipeline it is in, and the index of the outermost loop it can leave. */
  datatype Candidate = Candidate(transfer: Op, stage: nat, depth: nat)

  predicate IsStage(s: Stmt) {
    s.Block? && s.kind == Stage
  }

  /** No transfer in the first `n` statements of the pipeline can leave more loops than `loops`. */
  ghost predicate NoneDeeper(body: seq<Stmt>, scope: seq<Frame>, n: nat, loops: nat)
    requires n <= |body|
  {
    forall k :: 0 <= k < n && IsStage(body[k]) ==> NoneDeeperIn(TransfersIn(body[k].body), scope, loops)
  }

  ghost predicate NoneDeeperIn(ts: seq<Op>, scope: seq<Frame>, loops: nat)
    requires forall k :: 0 <= k < |ts| ==> ts[k].Transfer?
  {
    forall k :: 0 <= k < |ts| ==> LegalLoops(ts[k], scope) <= loops
  }

  ghost predicate IsCandidate(body: seq<Stmt>, scope: seq<Frame>, c: Candidate) {
    && c.stage < |body| && IsStage(body[c.stage]) && c.transfer in TransfersIn(body[c.stage].body)
    && c.depth + 1 == LegalLoops(c.transfer, scope)
  }

  /** All transfers before it can leave fewer loops. */
  ghost predicate FirstOfItsDepth(body: seq<Stmt>, scope: seq<Frame>, c: Candidate) {
    && c.stage < |body| && IsStage(body[c.stage]) && NoneDeeper(body, scope, c.stage, c.depth)
    && exists at: nat :: FirstInStage(TransfersIn(body[c.stage].body), scope, c, at)
  }

  ghost predicate FirstInStage(ts: seq<Op>, scope: seq<Frame>, c: Candidate, at: nat)
    requires forall k :: 0 <= k < |ts| ==> ts[k].Transfer?
  {
    at < |ts| && ts[at] == c.transfer && forall k :: 0 <= k < at ==> LegalLoops(ts[k], scope) <= c.depth
  }

  /** The first of the transfers that can leave the most loops, nothing when none can leave any. */
  method FindFirstCandidate(body: seq<Stmt>, scope: seq<Frame>) returns (best: Option<Candidate>)
    ensures best.Some? ==> IsCandidate(body, scope, best.value) && FirstOfItsDepth(body, scope, best.value)
    ensures NoneDeeper(body, scope, |body|, if best.Some? then best.value.depth + 1 else 0)
  {
    best := None;
    var k := 0;
    while k < |body|
      invariant k <= |body| && (best.Some? ==> IsCandidate(body, scope, best.value) && FirstOfItsDepth(body, scope, best.value))
      invariant NoneDeeper(body, scope, k, if best.Some? then best.value.depth + 1 else 0)
    {
      if IsStage(body[k]) {
        best := DeepestInStage(body, scope, k, best);
      }
      k := k + 1;
    }
  }

  method DeepestInStage(body: seq<Stmt>, scope: seq<Frame>, stage: nat, before: Option<Candidate>) returns (best: Option<Candidate>)
    requires stage < |body| && IsStage(body[stage])
    requires before.Some? ==> IsCandidate(body, scope, before.value) && FirstOfItsDepth(body, scope, before.value)
    requires NoneDeeper(body, scope, stage, if before.Some? then before.value.depth + 1 else 0)
    ensures best.Some? ==> IsCandidate(body, scope, best.value) && FirstOfItsDepth(body, scope, best.value)
    ensures before.Some? ==> best.Some? && before.value.depth <= best.value.depth
    ensures NoneDeeperIn(TransfersIn(body[stage].body), scope, if best.Some? then best.value.depth + 1 else 0)
  {
    best := before;
    var ts := TransfersIn(body[stage].body);
    var k := 0;
    while k < |ts|
      invariant k <= |ts| && (best.Some? ==> IsCandidate(body, scope, best.value) && FirstOfItsDepth(body, scope, best.value))
      invariant before.Some? ==> best.Some? && before.value.depth <= best.value.depth
      invariant forall j :: 0 <= j < k ==> LegalLoops(ts[j], scope) <= if best.Some? then best.value.depth + 1 else 0
    {
      var depth := FindOutermostLegalTargetDepth(ts[k], scope);
      if depth >= 0 && (best.None? || depth > best.value.depth) {
        assert FirstInStage(ts, scope, Candidate(ts[k], stage, depth), k);
        best := Some(Candidate(ts[k], stage, depth));
      }
      k := k + 1;
    }
  }

  // ---------------------------------------------------------------------------------------------
  // Hoisting
  // ---------------------------------------------------------------------------------------------

  function Renamed(b: nat, was: nat, now: nat): nat {
    if b == was then now else b
  }

  function RenamedAll(bs: seq<nat>, was: nat, now: nat): (r: seq<nat>)
    ensures |r| == |bs| && forall k :: 0 <= k < |r| ==> r[k] == Renamed(bs[k], was, now)
  {
    seq(|bs|, k requires 0 <= k < |bs| => Renamed(bs[k], was, now))
  }

  /** What defines a buffer keeps it, what uses it is rewired. */
  function RewiredOp(op: Op, was: nat, now: nat): Op {
    match op
    case Transfer(id, source, dest, uses) => Transfer(id, Renamed(source, was, now), Renamed(dest, was, now), uses)
    case Push(id, source, uses) => Push(id, Renamed(source, was, now), uses)
    case Compute(id, code, sources, dests, uses) => Compute(id, code, RenamedAll(sources, was, now), RenamedAll(dests, was, now), uses)
    case Alloc(_, _) => op
  }

  function Rewired(stmts: seq<Stmt>, was: nat, now: nat): (r: seq<Stmt>)
    ensures |r| == |stmts|
  {
    if stmts == [] then []
    else
      [match stmts[0]
        case Do(op) => Do(RewiredOp(op, was, now))
        case Block(kind, body) => Block(kind, Rewired(body, was, now))]
      + Rewired(stmts[1..], was, now)
  }

  predicate Has(stmts: seq<Stmt>, t: Op) {
    stmts != [] && (HasIn(stmts[0], t) || Has(stmts[1..], t))
  }

  predicate HasIn(s: Stmt, t: Op) {
    match s
    case Do(op) => op == t
    case Block(_, body) => Has(body, t)
  }

  /** The region without the transfer. */
  function Erased(stmts: seq<Stmt>, t: Op): seq<Stmt> {
    if stmts == [] then []
    else if HasIn(stmts[0], t) then ErasedIn(stmts[0], t) + stmts[1..]
    else [stmts[0]] + Erased(stmts[1..], t)
  }

  function ErasedIn(s: Stmt, t: Op): seq<Stmt> {
    match s
    case Do(_) => []
    case Block(kind, body) => [Block(kind, Erased(body, t))]
  }

  /** Only the transfer, in what it is nested in; loops whose counter it does not use are left out. */
  function Slice(stmts: seq<Stmt>, t: Op, dest: nat): seq<Stmt>
    requires t.Transfer?
  {
    if stmts == [] then []
    else if HasIn(stmts[0], t) then SliceIn(stmts[0], t, dest)
    else Slice(stmts[1..], t, dest)
  }

  function SliceIn(s: Stmt, t: Op, dest: nat): seq<Stmt>
    requires t.Transfer?
  {
    match s
    case Do(_) => [Do(t.(dest := dest))]
    case Block(kind, body) =>
      if kind.Loop? && kind.iv !in t.uses then Slice(body, t, dest) else [Block(kind, Slice(body, t, dest))]
  }

  /** What the transfer is nested in, from the outside in. */
  function Nesting(stmts: seq<Stmt>, t: Op): seq<Kind> {
    if stmts == [] then [] else if HasIn(stmts[0], t) then NestingIn(stmts[0], t) else Nesting(stmts[1..], t)
  }

  function NestingIn(s: Stmt, t: Op): seq<Kind> {
    match s
    case Do(_) => []
    case Block(kind, body) => [kind] + Nesting(body, t)
  }

  /** The slice has around the transfer what the region has, as often, but no loop whose counter it does not use. */
  lemma {:induction false} SliceNesting(stmts: seq<Stmt>, t: Op, dest: nat, k: Kind)
    requires Has(stmts, t) && t.Transfer?
    ensures var slice := Slice(stmts, t, dest);
      && |slice| == 1 && HasIn(slice[0], t.(dest := dest))
      && multiset(Nesting(slice, t.(dest := dest)))[k] == if k.Loop? && k.iv !in t.uses then 0 else multiset(Nesting(stmts, t))[k]
  {
    if !HasIn(stmts[0], t) {
      SliceNesting(stmts[1..], t, dest, k);
    } else if stmts[0].Block? {
      var kind, body := stmts[0].kind, stmts[0].body;
      SliceNesting(body, t, dest, k);
      assert multiset([kind] + Nesting(body, t)) == multiset([kind]) + multiset(Nesting(body, t));
      if !(kind.Loop? && kind.iv !in t.uses) {
        var inner := Nesting(Slice(body, t, dest), t.(dest := dest));
        assert multiset([kind] + inner) == multiset([kind]) + multiset(inner);
      }
    }
  }

  /** The new allocation, and the pipeline with the one stage that holds the transfer. */
  function Sibling(stage: seq<Stmt>, t: Op, dest: nat, id: nat): seq<Stmt>
    requires t.Transfer?
  {
    [Do(Alloc(id, dest)), Block(Pipeline, [Block(Stage, Slice(stage, t, dest))])]
  }

  // ---------------------------------------------------------------------------------------------
  // The loops that are left around transfers
  // ---------------------------------------------------------------------------------------------

  function Deeper(kind: Kind, depth: nat): nat {
    if kind.Loop? then depth + 1 else depth
  }

  /** For each transfer into memory the number of loops around it, added up. */
  function Weight(stmts: seq<Stmt>, depth: nat): nat {
    if stmts == [] then 0 else WeightOf(stmts[0], depth) + Weight(stmts[1..], depth)
  }

  function WeightOf(s: Stmt, depth: nat): nat {
    match s
    case Do(op) => if op.Transfer? then depth else 0
    case Block(kind, body) => Weight(body, Deeper(kind, depth))
  }

  lemma {:induction false} WeightJoin(a: seq<Stmt>, b: seq<Stmt>, depth: nat)
    ensures Weight(a + b, depth) == Weight(a, depth) + Weight(b, depth)
  {
    if a == [] {
      assert a + b == b;
    } else {
      assert (a + b)[0] == a[0] && (a + b)[1..] == a[1..] + b;
      WeightJoin(a[1..], b, depth);
    }
  }

  lemma WeightOne(s: Stmt, depth: nat)
    ensures Weight([s], depth) == WeightOf(s, depth)
  {
    assert [s][1..] == [];
  }

  lemma {:induction false} RewiredWeight(stmts: seq<Stmt>, was: nat, now: nat, depth: nat)
    ensures Weight(Rewired(stmts, was, now), depth) == Weight(stmts, depth)
    decreases stmts
  {
    if stmts != [] {
      RewiredWeight(stmts[1..], was, now, depth);
      assert Rewired(stmts, was, now)[1..] == Rewired(stmts[1..], was, now);
      match stmts[0]
      case Do(op) =>
      case Block(kind, body) => RewiredWeight(body, was, now, Deeper(kind, depth));
    }
  }

  /** The number of loops around the transfer, where it is first found. */
  function DepthOf(stmts: seq<Stmt>, t: Op, depth: nat): nat {
    if stmts == [] then depth
    else if HasIn(stmts[0], t) then DepthIn(stmts[0], t, depth)
    else DepthOf(stmts[1..], t, depth)
  }

  function DepthIn(s: Stmt, t: Op, depth: nat): nat {
    match s
    case Do(_) => depth
    case Block(kind, body) => DepthOf(body, t, Deeper(kind, depth))
  }

  /** Erasing the transfer takes away the loops around it. */
  lemma {:induction false} ErasedWeight(stmts: seq<Stmt>, t: Op, depth: nat)
    requires Has(stmts, t) && t.Transfer?
    ensures Weight(Erased(stmts, t), depth) + DepthOf(stmts, t, depth) == Weight(stmts, depth)
    ensures DepthOf(stmts, t, depth) >= depth
    decreases stmts
  {
    if HasIn(stmts[0], t) {
      WeightJoin(ErasedIn(stmts[0], t), stmts[1..], depth);
      match stmts[0]
      case Do(op) =>
      case Block(kind, body) =>
        ErasedWeight(body, t, Deeper(kind, depth));
        WeightOne(Block(kind, Erased(body, t)), depth);
    } else {
      ErasedWeight(stmts[1..], t, depth);
      assert Erased(stmts, t)[1..] == Erased(stmts[1..], t);
    }
  }

  /** At another depth the slice has no more loops around the transfer than it had inside its stage. */
  lemma {:induction false} SliceWeight(stmts: seq<Stmt>, t: Op, dest: nat, depth: nat, at: nat)
    requires Has(stmts, t) && t.Transfer?
    ensures Weight(Slice(stmts, t, dest), at) + depth <= DepthOf(stmts, t, depth) + at
    decreases stmts, 1
  {
    if HasIn(stmts[0], t) {
      SliceInWeight(stmts[0], t, dest, depth, at);
    } else {
      SliceWeight(stmts[1..], t, dest, depth, at);
    }
  }

  lemma {:induction false} SliceInWeight(s: Stmt, t: Op, dest: nat, depth: nat, at: nat)
    requires HasIn(s, t) && t.Transfer?
    ensures Weight(SliceIn(s, t, dest), at) + depth <= DepthIn(s, t, depth) + at
    decreases s, 0
  {
    match s
    case Do(op) => WeightOne(Do(t.(dest := dest)), at);
    case Block(kind, body) =>
      if kind.Loop? && kind.iv !in t.uses {
        SliceWeight(body, t, dest, depth + 1, at);
      } else {
        SliceWeight(body, t, dest, Deeper(kind, depth), Deeper(kind, at));
        WeightOne(Block(kind, Slice(body, t, dest)), at);
      }
  }

  // ---------------------------------------------------------------------------------------------
  // One hoist, and the loop that hoists until nothing changes
  // ---------------------------------------------------------------------------------------------

  /** The statements with `child` in place `j`; around it everything uses the new buffer. */
  function Around(stmts: seq<Stmt>, j: nat, child: seq<Stmt>, was: nat, now: nat): seq<Stmt>
    requires j < |stmts|
  {
    Rewired(stmts[..j], was, now) + child + Rewired(stmts[j + 1..], was, now)
  }

  lemma AroundWeight(stmts: seq<Stmt>, j: nat, child: seq<Stmt>, was: nat, now: nat, depth: nat)
    requires j < |stmts|
    ensures Weight(Around(stmts, j, child, was, now), depth) + WeightOf(stmts[j], depth) == Weight(stmts, depth) + Weight(child, depth)
  {
    var a, b := Rewired(stmts[..j], was, now), Rewired(stmts[j + 1..], was, now);
    WeightJoin(a + child, b, depth);
    WeightJoin(a, child, depth);
    RewiredWeight(stmts[..j], was, now, depth);
    RewiredWeight(stmts[j + 1..], was, now, depth);
    assert stmts == stmts[..j] + ([stmts[j]] + stmts[j + 1..]);
    WeightJoin(stmts[..j], [stmts[j]] + stmts[j + 1..], depth);
  }

  lemma {:induction false} TransfersInHas(stmts: seq<Stmt>, t: Op)
    requires t in TransfersIn(stmts)
    ensures Has(stmts, t) && t.Transfer?
    decreases stmts
  {
    match stmts[0]
    case Do(op) =>
      if !(op.Transfer? && t == op) {
        TransfersInHas(stmts[1..], t);
      }
    case Block(kind, body) =>
      if t in TransfersIn(body) {
        TransfersInHas(body, t);
      } else {
        TransfersInHas(stmts[1..], t);
      }
  }

  /** The loops around statement `j`: the one whose body this is, and those around it. */
  function ChainAt(stmts: seq<Stmt>, iv: Option<nat>, outer: seq<Frame>, j: nat): seq<Frame> {
    if iv.Some? then [Frame(iv.value, stmts, j)] + outer else []
  }

  function IvOf(kind: Kind): Option<nat> {
    if kind.Loop? then Some(kind.iv) else None
  }

  /** The loops around the statements of a block: anything but a loop starts anew. */
  function ChainInto(kind: Kind, chain: seq<Frame>): seq<Frame> {
    if kind.Loop? then chain else []
  }

  /** No pipeline has a transfer left that can be hoisted. */
  ghost predicate Settled(stmts: seq<Stmt>, iv: Option<nat>, outer: seq<Frame>)
    decreases stmts, 1
  {
    forall j :: 0 <= j < |stmts| ==> SettledAt(stmts, iv, outer, j)
  }

  ghost predicate SettledAt(stmts: seq<Stmt>, iv: Option<nat>, outer: seq<Frame>, j: nat)
    requires j < |stmts|
    decreases stmts, 0
  {
    stmts[j].Block? ==>
      var chain := ChainAt(stmts, iv, outer, j);
      && Settled(stmts[j].body, IvOf(stmts[j].kind), ChainInto(stmts[j].kind, chain))
      && (stmts[j].kind == Pipeline ==> NoneDeeper(stmts[j].body, chain[..ScopeSize(chain)], |stmts[j].body|, 0))
  }

  // ---------------------------------------------------------------------------------------------
  // Transfers that can be hoisted
  // ---------------------------------------------------------------------------------------------

  /** In the loop with this body, place `j` is the only pipeline, and a stage of it has the transfer, which need not stay in the loop. */
  ghost predicate FreeAt(iv: nat, body: seq<Stmt>, j: nat, k: nat, t: Op) {
    && j < |body| && IsPipeline(body[j]) && Alone(body, j) && k < |body[j].body| && IsStage(body[j].body[k])
    && t.Transfer? && Do(t) in Nested(body[j].body[k].body) && !Tied(t, iv, body)
  }

  ghost predicate FreeInLoop(iv: nat, body: seq<Stmt>, t: Op) {
    exists j: nat, k: nat :: FreeAt(iv, body, j, k, t)
  }

  /** The transfer can leave the loop around its pipeline, somewhere in the statements or in the loop whose body they are. */
  ghost predicate FreeIn(stmts: seq<Stmt>, iv: Option<nat>, t: Op) {
    || (iv.Some? && FreeInLoop(iv.value, stmts, t))
    || exists s :: s in Nested(stmts) && s.Block? && s.kind.Loop? && FreeInLoop(s.kind.iv, s.body, t)
  }

  lemma {:induction false} NestedAt(stmts: seq<Stmt>, j: nat)
    requires j < |stmts|
    ensures stmts[j] in Nested(stmts) && (stmts[j].Block? ==> Nested(stmts[j].body) <= Nested(stmts))
  {
    if j > 0 {
      NestedAt(stmts[1..], j - 1);
    }
  }

  lemma {:induction false} NestedFrom(stmts: seq<Stmt>, s: Stmt) returns (j: nat)
    requires s in Nested(stmts)
    ensures j < |stmts| && (s == stmts[j] || (stmts[j].Block? && s in Nested(stmts[j].body)))
  {
    if s in Nested(stmts[1..]) {
      j := NestedFrom(stmts[1..], s);
      j := j + 1;
    } else {
      j := 0;
    }
  }

  /** What is free inside a block is free in the statements. */
  lemma FreeOutwards(stmts: seq<Stmt>, iv: Option<nat>, j: nat, t: Op)
    requires j < |stmts| && stmts[j].Block? && FreeIn(stmts[j].body, IvOf(stmts[j].kind), t)
    ensures FreeIn(stmts, iv, t)
  {
    NestedAt(stmts, j);
    var block := stmts[j];
    if !(block.kind.Loop? && FreeInLoop(block.kind.iv, block.body, t)) {
      var s :| s in Nested(block.body) && s.Block? && s.kind.Loop? && FreeInLoop(s.kind.iv, s.body, t);
      assert s in Nested(stmts);
    }
  }

  /** A transfer of the pipeline in place `j` can leave the loop exactly when it can leave some loop of its scope. */
  lemma FreeIffLegal(stmts: seq<Stmt>, iv: nat, outer: seq<Frame>, j: nat, k: nat, t: Op)
    requires j < |stmts| && IsPipeline(stmts[j]) && k < |stmts[j].body| && IsStage(stmts[j].body[k])
    requires t in TransfersIn(stmts[j].body[k].body)
    ensures var chain := ChainAt(stmts, Some(iv), outer, j);
      FreeAt(iv, stmts, j, k, t) <==> LegalLoops(t, chain[..ScopeSize(chain)]) > 0
  {
    var f := Frame(iv, stmts, j);
    TransfersInNested(stmts[j].body[k].body, t);
    LegalIffNotTied(t, f);
    NoPeerIsAlone(f);
  }

  lemma {:induction false} TransfersInNested(stmts: seq<Stmt>, t: Op)
    ensures t in TransfersIn(stmts) <==> t.Transfer? && Do(t) in Nested(stmts)
    decreases stmts
  {
    if stmts != [] {
      TransfersInNested(stmts[1..], t);
      if stmts[0].Block? {
        TransfersInNested(stmts[0].body, t);
      }
    }
  }

  /** In settled statements no transfer can leave the loop around its pipeline. */
  lemma {:induction false} SettledIsTied(stmts: seq<Stmt>, iv: Option<nat>, outer: seq<Frame>, t: Op)
    requires Settled(stmts, iv, outer)
    ensures !FreeIn(stmts, iv, t)
    decreases stmts
  {
    if iv.Some? && FreeInLoop(iv.value, stmts, t) {
      var j: nat, k: nat :| FreeAt(iv.value, stmts, j, k, t);
      assert SettledAt(stmts, iv, outer, j);
      TransfersInNested(stmts[j].body[k].body, t);
      FreeIffLegal(stmts, iv.value, outer, j, k, t);
    }
    forall j | 0 <= j < |stmts| && stmts[j].Block? ensures !FreeIn(stmts[j].body, IvOf(stmts[j].kind), t) {
      assert SettledAt(stmts, iv, outer, j);
      SettledIsTied(stmts[j].body, IvOf(stmts[j].kind), ChainInto(stmts[j].kind, ChainAt(stmts, iv, outer, j)), t);
    }
    if s :| s in Nested(stmts) && s.Block? && s.kind.Loop? && FreeInLoop(s.kind.iv, s.body, t) {
      var j := NestedFrom(stmts, s);
      assert !FreeIn(stmts[j].body, IvOf(stmts[j].kind), t);
    }
  }

  /**
   * `Rising`: the transfer has been taken out of the statements, and its sibling pipeline still has to
   * leave `left` loops. `Done`: it stands before its target loop.
   */
  datatype Hoist =
    | NoCandidate
    | Failed
    | Rising(stmts: seq<Stmt>, sibling: seq<Stmt>, left: nat, was: nat, now: nat)
    | Done(stmts: seq<Stmt>, was: nat, now: nat)

  /** What a hoist in statements at this depth, inside this many loops, does to the weight. */
  ghost predicate Lighter(stmts: seq<Stmt>, loops: nat, depth: nat, r: Hoist) {
    match r
    case NoCandidate => true
    case Failed => true
    case Rising(after, sibling, left, _, _) =>
      1 <= left <= loops && left <= depth && Weight(after, depth) + Weight(sibling, depth - left) < Weight(stmts, depth)
    case Done(after, _, _) => Weight(after, depth) < Weight(stmts, depth)
  }

  /** The pipeline in place `j` without the transfer; all but the donor stage uses the new buffer. */
  function TakenOut(stmts: seq<Stmt>, j: nat, stage: nat, t: Op, now: nat): seq<Stmt>
    requires t.Transfer? && j < |stmts| && stmts[j].Block? && stage < |stmts[j].body| && IsStage(stmts[j].body[stage])
  {
    var body := stmts[j].body;
    Around(stmts, j, [Block(Pipeline, Around(body, stage, [Block(Stage, Erased(body[stage].body, t))], t.dest, now))], t.dest, now)
  }

  /**
   * Where a hoist takes place: the places of the statements that lead to the pipeline, from outside in,
   * which of them is the target loop, the donor stage in the pipeline, and the transfer.
   */
  datatype Spot = Spot(path: seq<nat>, at: nat, stage: nat, transfer: Op)

  /** The path leads to a pipeline, and the stage there has the transfer. */
  predicate ValidPath(stmts: seq<Stmt>, path: seq<nat>, stage: nat, t: Op)
    decreases |path|
  {
    && path != [] && path[0] < |stmts| && stmts[path[0]].Block? && t.Transfer?
    && var body := stmts[path[0]].body;
      if |path| == 1 then
        stmts[path[0]].kind == Pipeline && stage < |body| && IsStage(body[stage]) && Has(body[stage].body, t)
      else ValidPath(body, path[1..], stage, t)
  }

  /** The donor stage at the end of the path. */
  function Donor(stmts: seq<Stmt>, path: seq<nat>, stage: nat, t: Op): seq<Stmt>
    requires ValidPath(stmts, path, stage, t)
    decreases |path|
  {
    var body := stmts[path[0]].body;
    if |path| == 1 then body[stage].body else Donor(body, path[1..], stage, t)
  }

  /** The statements without the transfer. */
  function OutOf(stmts: seq<Stmt>, path: seq<nat>, stage: nat, t: Op, now: nat): seq<Stmt>
    requires ValidPath(stmts, path, stage, t)
    decreases |path|
  {
    var s := stmts[path[0]];
    if |path| == 1 then TakenOut(stmts, path[0], stage, t, now)
    else Around(stmts, path[0], [Block(s.kind, OutOf(s.body, path[1..], stage, t, now))], t.dest, now)
  }

  /** The statements with the sibling pipeline right before the target loop. */
  function HoistedAt(stmts: seq<Stmt>, path: seq<nat>, at: nat, stage: nat, t: Op, now: nat): seq<Stmt>
    requires ValidPath(stmts, path, stage, t) && at + 1 < |path|
    decreases |path|
  {
    var s := stmts[path[0]];
    if at == 0 then
      Around(stmts, path[0],
        Sibling(Donor(stmts, path, stage, t), t, now, now) + [Block(s.kind, OutOf(s.body, path[1..], stage, t, now))], t.dest, now)
    else Around(stmts, path[0], [Block(s.kind, HoistedAt(s.body, path[1..], at - 1, stage, t, now))], t.dest, now)
  }

  /** All that the path leads through before the pipeline are loops for which the transfer is legal. */
  predicate LegalPath(stmts: seq<Stmt>, path: seq<nat>, stage: nat, t: Op)
    requires ValidPath(stmts, path, stage, t)
    decreases |path|
  {
    |path| > 1 ==>
      && stmts[path[0]].kind.Loop? && LegalFor(t, Frame(stmts[path[0]].kind.iv, stmts[path[0]].body, path[1]))
      && LegalPath(stmts[path[0]].body, path[1..], stage, t)
  }

  /** From the target loop on. */
  predicate LegalFrom(stmts: seq<Stmt>, path: seq<nat>, at: nat, stage: nat, t: Op)
    requires ValidPath(stmts, path, stage, t) && at + 1 < |path|
    decreases |path|
  {
    if at == 0 then LegalPath(stmts, path, stage, t) else LegalFrom(stmts[path[0]].body, path[1..], at - 1, stage, t)
  }

  /** The transfer is legal for the `left` innermost loops around statement `j`. */
  ghost predicate LegalAbove(stmts: seq<Stmt>, iv: Option<nat>, outer: seq<Frame>, j: nat, t: Op, left: nat)
    requires t.Transfer?
  {
    var chain := ChainAt(stmts, iv, outer, j);
    left <= |chain| && forall i :: 0 <= i < left ==> LegalFor(t, chain[i])
  }

  /** What a hoist has made of the statements. */
  ghost predicate Explained(stmts: seq<Stmt>, iv: Option<nat>, outer: seq<Frame>, next: nat, r: Hoist, spot: Spot) {
    var Spot(path, at, stage, t) := spot;
    match r
    case NoCandidate => true
    case Failed => true
    case Rising(after, sibling, left, was, now) =>
      && ValidPath(stmts, path, stage, t) && was == t.dest && now == next
      && after == OutOf(stmts, path, stage, t, next) && sibling == Sibling(Donor(stmts, path, stage, t), t, next, next)
      && LegalPath(stmts, path, stage, t) && LegalAbove(stmts, iv, outer, path[0], t, left)
    case Done(after, was, now) =>
      && ValidPath(stmts, path, stage, t) && at + 1 < |path| && was == t.dest && now == next
      && after == HoistedAt(stmts, path, at, stage, t, next) && LegalFrom(stmts, path, at, stage, t)
  }

  lemma {:induction false} LegalLoopsAll(t: Op, chain: seq<Frame>, n: nat, i: nat)
    requires t.Transfer? && n <= |chain| && i < LegalLoops(t, chain[..n])
    ensures i < |chain| && LegalFor(t, chain[i])
    decreases i
  {
    if i > 0 {
      assert chain[..n][1..] == chain[1..][..n - 1];
      LegalLoopsAll(t, chain[1..], n - 1, i - 1);
    }
  }

  /** One statement further out. */
  ghost function Outwards(stmts: seq<Stmt>, j: nat, inner: Hoist, spot: Spot): Spot {
    Spot([j] + spot.path, if inner.Done? then spot.at + 1 else 0, spot.stage, spot.transfer)
  }

  lemma ExplainedOutwards(stmts: seq<Stmt>, iv: Option<nat>, outer: seq<Frame>, next: nat, j: nat, inner: Hoist, spot: Spot, r: Hoist)
    requires j < |stmts| && stmts[j].Block? && (inner.Rising? || inner.Done?)
    requires Explained(stmts[j].body, IvOf(stmts[j].kind), ChainInto(stmts[j].kind, ChainAt(stmts, iv, outer, j)), next, inner, spot)
    requires inner.Rising? ==> inner.left >= 1
    requires r == PassedOn(stmts, j, inner)
    ensures Explained(stmts, iv, outer, next, r, Outwards(stmts, j, inner, spot))
  {
    var path := [j] + spot.path;
    assert path[1..] == spot.path;
    assert ValidPath(stmts, path, spot.stage, spot.transfer);
    if inner.Rising? {
      var chain := ChainAt(stmts, iv, outer, j);
      var kind, body := stmts[j].kind, stmts[j].body;
      var below := ChainAt(body, IvOf(kind), ChainInto(kind, chain), spot.path[0]);
      assert below[0] == Frame(kind.iv, body, spot.path[0]) && LegalFor(spot.transfer, below[0]);
      forall i | 0 <= i < inner.left - 1 ensures i < |chain| && LegalFor(spot.transfer, chain[i]) {
        assert below[i + 1] == chain[i];
      }
    }
  }

  /** The loop that comes next, if any, keeps the transfer, or holds another pipeline. */
  ghost predicate Blocked(chain: seq<Frame>, left: nat, t: Op) {
    t.Transfer? && left <= |chain| && (left == |chain| || Tied(t, chain[left].iv, chain[left].body) || !Alone(chain[left].body, chain[left].at))
  }

  /** The transfer cannot go further out than right before statement `path[at]`. */
  ghost predicate Outermost(stmts: seq<Stmt>, iv: Option<nat>, outer: seq<Frame>, path: seq<nat>, at: nat, t: Op)
    decreases |path|
  {
    && path != [] && path[0] < |stmts|
    && var chain := ChainAt(stmts, iv, outer, path[0]);
      if at == 0 then Blocked(chain, 0, t)
      else
        && stmts[path[0]].Block?
        && Outermost(stmts[path[0]].body, IvOf(stmts[path[0]].kind), ChainInto(stmts[path[0]].kind, chain), path[1..], at - 1, t)
  }

  /**
   * The path leads to the first pipeline, inner ones before outer ones, that has a candidate, and the
   * transfer is its candidate.
   */
  ghost predicate Chosen(stmts: seq<Stmt>, iv: Option<nat>, outer: seq<Frame>, path: seq<nat>, stage: nat, t: Op)
    decreases |path|
  {
    && path != [] && path[0] < |stmts| && stmts[path[0]].Block?
    && (forall k :: 0 <= k < path[0] ==> SettledAt(stmts, iv, outer, k))
    && var Block(kind, body) := stmts[path[0]];
      var chain := ChainAt(stmts, iv, outer, path[0]);
      if |path| == 1 then
        Settled(body, IvOf(kind), ChainInto(kind, chain)) && exists depth: nat :: CandidateOf(body, chain[..ScopeSize(chain)], stage, t, depth)
      else Chosen(body, IvOf(kind), ChainInto(kind, chain), path[1..], stage, t)
  }

  ghost predicate CandidateOf(body: seq<Stmt>, scope: seq<Frame>, stage: nat, t: Op, depth: nat) {
    var c := Candidate(t, stage, depth);
    IsCandidate(body, scope, c) && FirstOfItsDepth(body, scope, c) && NoneDeeper(body, scope, |body|, depth + 1)
  }

  /** Why this transfer, and why that far. */
  ghost predicate Preferred(stmts: seq<Stmt>, iv: Option<nat>, outer: seq<Frame>, r: Hoist, spot: Spot) {
    var Spot(path, at, stage, t) := spot;
    match r
    case NoCandidate => true
    case Failed => true
    case Rising(_, _, left, _, _) =>
      Chosen(stmts, iv, outer, path, stage, t) && Blocked(ChainAt(stmts, iv, outer, path[0]), left, t)
    case Done(_, _, _) => Chosen(stmts, iv, outer, path, stage, t) && Outermost(stmts, iv, outer, path, at, t)
  }

  lemma PreferredOutwards(stmts: seq<Stmt>, iv: Option<nat>, outer: seq<Frame>, j: nat, inner: Hoist, spot: Spot, r: Hoist)
    requires j < |stmts| && stmts[j].Block? && (inner.Rising? || inner.Done?) && r == PassedOn(stmts, j, inner)
    requires forall k :: 0 <= k < j ==> SettledAt(stmts, iv, outer, k)
    requires Preferred(stmts[j].body, IvOf(stmts[j].kind), ChainInto(stmts[j].kind, ChainAt(stmts, iv, outer, j)), inner, spot)
    requires inner.Rising? ==> 1 <= inner.left
    ensures Preferred(stmts, iv, outer, r, Outwards(stmts, j, inner, spot))
  {
    var path := [j] + spot.path;
    assert path[1..] == spot.path && spot.path != [];
    if inner.Rising? {
      var chain := ChainAt(stmts, iv, outer, j);
      var below := ChainAt(stmts[j].body, IvOf(stmts[j].kind), ChainInto(stmts[j].kind, chain), spot.path[0]);
      assert below != [] && below[1..] == chain;
      assert inner.left < |below| ==> below[inner.left] == chain[inner.left - 1];
    }
  }

  /** What a hoist has made of the statements, why it is this hoist, and why it has failed. */
  ghost predicate Told(stmts: seq<Stmt>, iv: Option<nat>, outer: seq<Frame>, buffers: set<nat>, next: nat, r: Hoist, spot: Spot) {
    && Explained(stmts, iv, outer, next, r, spot) && Preferred(stmts, iv, outer, r, spot)
    && (r == Failed ==> Unallocated(stmts, iv, buffers, spot.transfer))
  }

  /** What is told of a hoist inside statement `j` is told of it outside. */
  lemma ToldOutwards(stmts: seq<Stmt>, iv: Option<nat>, outer: seq<Frame>, buffers: set<nat>, next: nat, j: nat, inner: Hoist, spot: Spot, r: Hoist)
    requires j < |stmts| && stmts[j].Block? && inner != NoCandidate && r == PassedOn(stmts, j, inner)
    requires forall k :: 0 <= k < j ==> SettledAt(stmts, iv, outer, k)
    requires Told(stmts[j].body, IvOf(stmts[j].kind), ChainInto(stmts[j].kind, ChainAt(stmts, iv, outer, j)), buffers, next, inner, spot)
    requires inner.Rising? ==> inner.left >= 1
    ensures Told(stmts, iv, outer, buffers, next, r, Outwards(stmts, j, inner, spot))
  {
    if inner == Failed {
      FreeOutwards(stmts, iv, j, spot.transfer);
    } else {
      ExplainedOutwards(stmts, iv, outer, next, j, inner, spot, r);
      PreferredOutwards(stmts, iv, outer, j, inner, spot, r);
    }
  }

  lemma {:induction false} ScopeStops(chain: seq<Frame>)
    ensures ScopeSize(chain) < |chain| ==> !NoPeer(chain[ScopeSize(chain)])
  {
    if chain != [] && NoPeer(chain[0]) {
      ScopeStops(chain[1..]);
    }
  }

  lemma {:induction false} LegalLoopsStop(t: Op, scope: seq<Frame>)
    requires t.Transfer?
    ensures LegalLoops(t, scope) < |scope| ==> !LegalFor(t, scope[LegalLoops(t, scope)])
  {
    if scope != [] && LegalFor(t, scope[0]) {
      LegalLoopsStop(t, scope[1..]);
    }
  }

  /** The candidate goes as far as it can, or as far as its pipeline is alone. */
  lemma CandidateIsBlocked(chain: seq<Frame>, t: Op)
    requires t.Transfer?
    ensures Blocked(chain, LegalLoops(t, chain[..ScopeSize(chain)]), t)
  {
    var n := ScopeSize(chain);
    var left := LegalLoops(t, chain[..n]);
    LegalLoopsStop(t, chain[..n]);
    ScopeStops(chain);
    if left < |chain| {
      LegalIffNotTied(t, chain[left]);
      NoPeerIsAlone(chain[left]);
    }
  }

  lemma CandidatePreferred(stmts: seq<Stmt>, iv: Option<nat>, outer: seq<Frame>, j: nat, c: Candidate, r: Hoist)
    requires j < |stmts| && stmts[j].Block? && r.Rising? && r.left == c.depth + 1
    requires forall k :: 0 <= k < j ==> SettledAt(stmts, iv, outer, k)
    requires var chain := ChainAt(stmts, iv, outer, j);
      Settled(stmts[j].body, IvOf(stmts[j].kind), ChainInto(stmts[j].kind, chain))
      && CandidateOf(stmts[j].body, chain[..ScopeSize(chain)], c.stage, c.transfer, c.depth)
    ensures Preferred(stmts, iv, outer, r, Spot([j], 0, c.stage, c.transfer))
  {
    TransfersInHas(stmts[j].body[c.stage].body, c.transfer);
    CandidateIsBlocked(ChainAt(stmts, iv, outer, j), c.transfer);
  }

  /** What a hoist inside statement `j` is outside it. */
  function PassedOn(stmts: seq<Stmt>, j: nat, inner: Hoist): Hoist
    requires j < |stmts| && stmts[j].Block?
  {
    var kind := stmts[j].kind;
    match inner
    case NoCandidate => NoCandidate
    case Failed => Failed
    case Done(body, was, now) => Done(Around(stmts, j, [Block(kind, body)], was, now), was, now)
    case Rising(body, sibling, left, was, now) =>
      if left == 1 then Done(Around(stmts, j, sibling + [Block(kind, body)], was, now), was, now)
      else Rising(Around(stmts, j, [Block(kind, body)], was, now), sibling, if left > 0 then left - 1 else 0, was, now)
  }

  /** The candidate of the pipeline in place `j` is taken out. */
  method PerformHoist(stmts: seq<Stmt>, j: nat, scope: seq<Frame>, c: Candidate, next: nat, ghost depth: nat) returns (r: Hoist)
    requires j < |stmts| && stmts[j].Block? && stmts[j].kind == Pipeline && IsCandidate(stmts[j].body, scope, c)
    requires |scope| <= depth
    ensures Lighter(stmts, |scope|, depth, r) && r.Rising? && r.left == c.depth + 1 && r.was == c.transfer.dest && r.now == next
    ensures r.sibling == Sibling(stmts[j].body[c.stage].body, c.transfer, next, next)
    ensures r.stmts == TakenOut(stmts, j, c.stage, c.transfer, next)
  {
    var t, dest := c.transfer, c.transfer.dest;
    var body := stmts[j].body;
    var stage := body[c.stage].body;
    var donor := Block(Stage, Erased(stage, t));
    var pipeline := Block(Pipeline, Around(body, c.stage, [donor], dest, next));
    r := Rising(Around(stmts, j, [pipeline], dest, next), Sibling(stage, t, next, next), c.depth + 1, dest, next);

    TransfersInHas(stage, t);
    ErasedWeight(stage, t, depth);
    AroundWeight(body, c.stage, [donor], dest, next, depth);
    WeightOne(donor, depth);
    AroundWeight(stmts, j, [pipeline], dest, next, depth);
    WeightOne(pipeline, depth);
    SiblingWeight(stage, t, next, depth, depth - (c.depth + 1));
  }

  lemma SiblingWeight(stage: seq<Stmt>, t: Op, dest: nat, depth: nat, at: nat)
    requires Has(stage, t) && t.Transfer?
    ensures Weight(Sibling(stage, t, dest, dest), at) + depth <= DepthOf(stage, t, depth) + at
  {
    SliceWeight(stage, t, dest, depth, at);
    var inner := Block(Stage, Slice(stage, t, dest));
    WeightOne(inner, at);
    WeightOne(Block(Pipeline, [inner]), at);
    assert Sibling(stage, t, dest, dest)[1..] == [Block(Pipeline, [inner])];
  }

  /** A hoist inside statement `j` goes on outside it: further up, or in before the target loop. */
  method PassOn(stmts: seq<Stmt>, j: nat, inner: Hoist, ghost loops: nat, ghost depth: nat) returns (r: Hoist)
    requires j < |stmts| && stmts[j].Block? && inner != NoCandidate
    requires Lighter(stmts[j].body, if stmts[j].kind.Loop? then loops + 1 else 0, Deeper(stmts[j].kind, depth), inner)
    requires loops <= depth
    ensures Lighter(stmts, loops, depth, r) && r != NoCandidate
    ensures r == PassedOn(stmts, j, inner)
  {
    var kind := stmts[j].kind;
    match inner
    case Failed => return Failed;
    case Done(body, was, now) =>
      AroundWeight(stmts, j, [Block(kind, body)], was, now, depth);
      WeightOne(Block(kind, body), depth);
      return Done(Around(stmts, j, [Block(kind, body)], was, now), was, now);
    case Rising(body, sibling, left, was, now) =>
      if left == 1 {
        AroundWeight(stmts, j, sibling + [Block(kind, body)], was, now, depth);
        WeightJoin(sibling, [Block(kind, body)], depth);
        WeightOne(Block(kind, body), depth);
        return Done(Around(stmts, j, sibling + [Block(kind, body)], was, now), was, now);
      }
      AroundWeight(stmts, j, [Block(kind, body)], was, now, depth);
      WeightOne(Block(kind, body), depth);
      return Rising(Around(stmts, j, [Block(kind, body)], was, now), sibling, left - 1, was, now);
  }

  lemma CandidateExplained(stmts: seq<Stmt>, iv: Option<nat>, outer: seq<Frame>, next: nat, j: nat, n: nat, c: Candidate, r: Hoist)
    requires j < |stmts| && stmts[j].Block? && stmts[j].kind == Pipeline && n <= |ChainAt(stmts, iv, outer, j)|
    requires IsCandidate(stmts[j].body, ChainAt(stmts, iv, outer, j)[..n], c)
    requires r.Rising? && r.left == c.depth + 1 && r.was == c.transfer.dest && r.now == next
    requires r.sibling == Sibling(stmts[j].body[c.stage].body, c.transfer, next, next) && r.stmts == TakenOut(stmts, j, c.stage, c.transfer, next)
    ensures Explained(stmts, iv, outer, next, r, Spot([j], 0, c.stage, c.transfer))
  {
    var chain := ChainAt(stmts, iv, outer, j);
    TransfersInHas(stmts[j].body[c.stage].body, c.transfer);
    forall i | 0 <= i < c.depth + 1 ensures i < |chain| && LegalFor(c.transfer, chain[i]) {
      LegalLoopsAll(c.transfer, chain, n, i);
    }
  }

  /** A transfer can leave the loop around its pipeline, but its destination has no allocation. */
  ghost predicate Unallocated(stmts: seq<Stmt>, iv: Option<nat>, buffers: set<nat>, t: Op) {
    t.Transfer? && t.dest !in buffers && FreeIn(stmts, iv, t)
  }

  /** What is told of a candidate without an allocation. */
  lemma LostIsTold(stmts: seq<Stmt>, iv: Option<nat>, outer: seq<Frame>, buffers: set<nat>, next: nat, j: nat, c: Candidate)
    requires j < |stmts| && IsPipeline(stmts[j]) && iv.Some?
    requires var chain := ChainAt(stmts, iv, outer, j); IsCandidate(stmts[j].body, chain[..ScopeSize(chain)], c)
    requires c.transfer.Transfer? && c.transfer.dest !in buffers
    ensures Told(stmts, iv, outer, buffers, next, Failed, Spot([j], 0, c.stage, c.transfer))
  {
    FreeIffLegal(stmts, iv.value, outer, j, c.stage, c.transfer);
  }

  /** What is told of a candidate that is taken out. */
  lemma TakenIsTold(stmts: seq<Stmt>, iv: Option<nat>, outer: seq<Frame>, buffers: set<nat>, next: nat, j: nat, c: Candidate, r: Hoist)
    requires j < |stmts| && IsPipeline(stmts[j])
    requires forall k :: 0 <= k < j ==> SettledAt(stmts, iv, outer, k)
    requires Settled(stmts[j].body, IvOf(stmts[j].kind), ChainInto(stmts[j].kind, ChainAt(stmts, iv, outer, j)))
    requires var chain := ChainAt(stmts, iv, outer, j);
      CandidateOf(stmts[j].body, chain[..ScopeSize(chain)], c.stage, c.transfer, c.depth)
    requires r.Rising? && r.left == c.depth + 1 && r.was == c.transfer.dest && r.now == next
    requires r.sibling == Sibling(stmts[j].body[c.stage].body, c.transfer, next, next) && r.stmts == TakenOut(stmts, j, c.stage, c.transfer, next)
    ensures Told(stmts, iv, outer, buffers, next, r, Spot([j], 0, c.stage, c.transfer))
  {
    CandidateExplained(stmts, iv, outer, next, j, ScopeSize(ChainAt(stmts, iv, outer, j)), c, r);
    CandidatePreferred(stmts, iv, outer, j, c, r);
  }

  /** The candidate of the pipeline in place `j`, if there is one, is taken out. */
  method HoistFromPipeline(stmts: seq<Stmt>, j: nat, iv: Option<nat>, outer: seq<Frame>, buffers: set<nat>, next: nat, ghost depth: nat)
    returns (r: Hoist, ghost spot: Spot)
    requires j < |stmts| && stmts[j].Block? && stmts[j].kind == Pipeline && |ChainAt(stmts, iv, outer, j)| <= depth
    requires forall k :: 0 <= k < j ==> SettledAt(stmts, iv, outer, k)
    requires Settled(stmts[j].body, IvOf(stmts[j].kind), ChainInto(stmts[j].kind, ChainAt(stmts, iv, outer, j)))
    ensures Told(stmts, iv, outer, buffers, next, r, spot) && Lighter(stmts, |ChainAt(stmts, iv, outer, j)|, depth, r)
    ensures r == NoCandidate ==>
      var chain := ChainAt(stmts, iv, outer, j);
      NoneDeeper(stmts[j].body, chain[..ScopeSize(chain)], |stmts[j].body|, 0)
  {
    var chain := ChainAt(stmts, iv, outer, j);
    var n := GetPipelineEnclosingScope(chain);
    var c := FindFirstCandidate(stmts[j].body, chain[..n]);
    spot := Spot([j], 0, 0, Alloc(0, 0));
    if c.None? {
      return NoCandidate, spot;
    }
    spot := Spot([j], 0, c.value.stage, c.value.transfer);
    if c.value.transfer.dest !in buffers {
      LostIsTold(stmts, iv, outer, buffers, next, j, c.value);
      return Failed, spot;
    }
    r := PerformHoist(stmts, j, chain[..n], c.value, next, depth);
    TakenIsTold(stmts, iv, outer, buffers, next, j, c.value, r);
  }

  /** Inner pipelines before outer ones; the first that has a candidate hoists it. */
  method TryHoistOneBroadcast(stmts: seq<Stmt>, iv: Option<nat>, outer: seq<Frame>, buffers: set<nat>, next: nat, ghost depth: nat)
    returns (r: Hoist, ghost spot: Spot)
    requires iv.None? ==> outer == []
    requires iv.Some? ==> |outer| + 1 <= depth
    ensures Told(stmts, iv, outer, buffers, next, r, spot)
    ensures Lighter(stmts, if iv.Some? then |outer| + 1 else 0, depth, r)
    ensures r == NoCandidate ==> Settled(stmts, iv, outer) && forall t :: !FreeIn(stmts, iv, t)
    decreases stmts
  {
    spot := Spot([], 0, 0, Alloc(0, 0));
    var j := 0;
    while j < |stmts|
      invariant j <= |stmts|
      invariant forall k :: 0 <= k < j ==> SettledAt(stmts, iv, outer, k)
    {
      if stmts[j].Block? {
        var kind, body := stmts[j].kind, stmts[j].body;
        var chain := ChainAt(stmts, iv, outer, j);
        var inner;
        inner, spot := TryHoistOneBroadcast(body, IvOf(kind), ChainInto(kind, chain), buffers, next, Deeper(kind, depth));
        if inner != NoCandidate {
          r := PassOn(stmts, j, inner, |chain|, depth);
          ghost var inside := spot;
          spot := Outwards(stmts, j, inner, spot);
          ToldOutwards(stmts, iv, outer, buffers, next, j, inner, inside, r);
          return;
        }
        if kind == Pipeline {
          r, spot := HoistFromPipeline(stmts, j, iv, outer, buffers, next, depth);
          if r != NoCandidate {
            return;
          }
        }
      }
      j := j + 1;
    }
    forall t ensures !FreeIn(stmts, iv, t) {
      SettledIsTied(stmts, iv, outer, t);
    }
    return NoCandidate, spot;
  }

  /** The second program is the first with the transfer at `spot` hoisted, which is legal. */
  ghost predicate HoistedTo(before: seq<Stmt>, after: seq<Stmt>, next: nat, spot: Spot) {
    var Spot(path, at, stage, t) := spot;
    && ValidPath(before, path, stage, t) && at + 1 < |path| && LegalFrom(before, path, at, stage, t)
    && after == HoistedAt(before, path, at, stage, t, next)
  }

  /** It is the candidate of the first pipeline that has one, and leaves all loops that it can. */
  ghost predicate PreferredIn(program: seq<Stmt>, spot: Spot) {
    Chosen(program, None, [], spot.path, spot.stage, spot.transfer) && Outermost(program, None, [], spot.path, spot.at, spot.transfer)
  }

  /** Every program is the one before it with one transfer hoisted; the new buffers are numbered from `firstFree`. */
  ghost predicate Hoists(programs: seq<seq<Stmt>>, spots: seq<Spot>, firstFree: nat) {
    |programs| == |spots| + 1 && forall i :: 0 <= i < |spots| ==> HoistedTo(programs[i], programs[i + 1], firstFree + i, spots[i])
  }

  /** The buffers that have an allocation after so many hoists. */
  ghost function Allocated(buffers: set<nat>, firstFree: nat, hoists: nat): set<nat> {
    buffers + Range(firstFree, firstFree + hoists)
  }

  /**
   * Hoists until nothing changes. That ends, because every hoist leaves fewer loops around transfers; and
   * then no transfer can leave the loop around its pipeline. It fails only when some transfer can whose
   * destination has no allocation. `programs` are the programs on the way, `spots` says which transfer was
   * hoisted where.
   */
  method RunOnOperation(program: seq<Stmt>, buffers: set<nat>, firstFree: nat)
    returns (r: Option<seq<Stmt>>, hoists: nat, ghost programs: seq<seq<Stmt>>, ghost spots: seq<Spot>)
    ensures r.Some? ==> (forall t :: !FreeIn(r.value, None, t)) && Weight(r.value, 0) + hoists <= Weight(program, 0)
    ensures hoists <= Weight(program, 0)
    ensures Hoists(programs, spots, firstFree) && |spots| == hoists && programs[0] == program
    ensures forall i :: 0 <= i < hoists ==> PreferredIn(programs[i], spots[i])
    ensures r.None? ==> exists t :: Unallocated(programs[hoists], None, Allocated(buffers, firstFree, hoists), t)
    ensures r.Some? ==> r.value == programs[hoists]
  {
    var current := program;
    var allocs, next := buffers, firstFree;
    hoists, programs, spots := 0, [program], [];
    var changed := true;
    while changed
      invariant Weight(current, 0) + hoists <= Weight(program, 0)
      invariant !changed ==> forall t :: !FreeIn(current, None, t)
      invariant allocs == Allocated(buffers, firstFree, hoists)
      invariant Hoists(programs, spots, firstFree) && |spots| == hoists && programs[0] == program
      invariant forall i :: 0 <= i < hoists ==> PreferredIn(programs[i], spots[i])
      invariant programs[hoists] == current && next == firstFree + hoists
      decreases Weight(current, 0), changed
    {
      var h, spot := TryHoistOneBroadcast(current, None, [], allocs, next, 0);
      match h
      case NoCandidate => changed := false;
      case Failed => return None, hoists, programs, spots;
      case Rising(_, _, _, _, _) => assert false;
      case Done(stmts, _, now) =>
        current := stmts;
        programs, spots := programs + [stmts], spots + [spot];
        allocs, next := allocs + {now}, next + 1;
        hoists := hoists + 1;
    }
    return Some(current), hoists, programs, spots;
  }
}
