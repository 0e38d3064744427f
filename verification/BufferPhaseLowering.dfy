/**
 * Choosing between the two copies of a buffer in a loop nest. Every loop of the nest gets one more
 * carried value, the offset; the innermost loop toggles it, at the end of its body or at the top. The
 * loop nest is then run to see which offset each run of the innermost body uses.
 */
module BufferPhaseLowering {
  import opened Arithmetic

  datatype Mode = BufferFirst | BufferLast

  /** Where the new carried value of a loop starts: not set yet, at the initial offset, or at the enclosing loop's value. */
  datatype Init = Unset | InitialOffset | EnclosingArg

  /** What a loop carries on: nothing yet, the toggled value, or the result of the loop inside it. */
  datatype Yield = NoYield | Toggled | InnerResult

  /** What the innermost body takes as its offset. */
  datatype Offset = OwnArg | ToggledOffset

  /** The new operands of the loops, outermost first. */
  datatype Wiring = Wiring(inits: seq<Init>, nexts: seq<Yield>, offset: Offset)

  /** Starting offset chosen before the nest. */
  function InitialValue(mode: Mode, offset0: int, offset1: int): int {
    if mode == BufferFirst then offset0 else offset1
  }

  /** Threads the carried value from the outermost loop to the innermost and back. */
  ghost predicate Threaded(w: Wiring, mode: Mode) {
    && |w.inits| == |w.nexts| > 0
    && (forall i :: 0 <= i < |w.inits| ==> w.inits[i] == if i == 0 then InitialOffset else EnclosingArg)
    && (forall i :: 0 <= i < |w.nexts| ==> w.nexts[i] == if i == |w.nexts| - 1 then Toggled else InnerResult)
    && w.offset == if mode == BufferFirst then OwnArg else ToggledOffset
  }

  /** Wires the loops from the innermost outwards: a loop sets its own yield, and the start of the loop inside it. */
  method CloneLoopChain(depth: nat, mode: Mode) returns (w: Wiring)
    requires depth > 0
    ensures |w.inits| == depth && Threaded(w, mode)
  {
    var inits := new Init[depth](_ => Unset);
    var nexts := new Yield[depth](_ => NoYield);
    var i := depth;
    while i > 0
      invariant 0 <= i <= depth
      invariant forall j :: 0 <= j < depth ==> inits[j] == if i < j then EnclosingArg else Unset
      invariant forall j :: i <= j < depth ==> nexts[j] == if j == depth - 1 then Toggled else InnerResult
    {
      i := i - 1;
      if i == depth - 1 {
        nexts[i] := Toggled;
      } else {
        nexts[i] := InnerResult;
        inits[i + 1] := EnclosingArg;
      }
    }
    inits[0] := InitialOffset;
    w := Wiring(inits[..], nexts[..], if mode == BufferFirst then OwnArg else ToggledOffset);
  }

  // ---------------------------------------------------------------------------------------------
  // Running a nest
  // ---------------------------------------------------------------------------------------------

  /** Trip counts, outermost loop first; a count may depend on the indices of the loops around. */
  type Nest = seq<seq<nat> -> nat>

  /** The two offsets, the size of a machine word, and what an operand that was never set would hold. */
  datatype Machine = Machine(offset0: int, offset1: int, word: nat, junk: int)

  ghost predicate Sound(m: Machine) {
    m.word > 0 && 0 <= m.offset0 < m.word && 0 <= m.offset1 < m.word
  }

  function Wrapped(m: Machine, x: int): int
    requires m.word > 0
  {
    x % m.word
  }

  /** The sum of both offsets less the value, in machine arithmetic. */
  function Toggle(m: Machine, v: int): int
    requires m.word > 0
  {
    Wrapped(m, Wrapped(m, m.offset0 + m.offset1) - v)
  }

  /** Offsets used by the innermost body, in order, and the carried value in the end. */
  datatype Outcome = Outcome(used: seq<int>, carried: int)

  function StartValue(m: Machine, mode: Mode, init: Init, enclosing: int): int {
    match init
    case Unset => m.junk
    case InitialOffset => InitialValue(mode, m.offset0, m.offset1)
    case EnclosingArg => enclosing
  }

  function NextValue(m: Machine, nexts: Yield, toggled: int, inner: int): int {
    match nexts
    case NoYield => m.junk
    case Toggled => toggled
    case InnerResult => inner
  }

  /** One iteration of loop `i`. */
  function RunBody(m: Machine, mode: Mode, w: Wiring, nest: Nest, i: nat, idx: seq<nat>, k: nat, v: int): Outcome
    requires m.word > 0 && i < |nest| == |w.inits| == |w.nexts|
    decreases |nest| - i, 0
  {
    if i == |nest| - 1 then Outcome([if w.offset == OwnArg then v else Toggle(m, v)], m.junk)
    else RunLoop(m, mode, w, nest, i + 1, idx + [k], 0, StartValue(m, mode, w.inits[i + 1], v))
  }

  /** Loop `i` from its iteration `k` on, inside the iterations `idx` of the loops around it, carrying `v`. */
  function RunLoop(m: Machine, mode: Mode, w: Wiring, nest: Nest, i: nat, idx: seq<nat>, k: nat, v: int): Outcome
    requires m.word > 0 && i < |nest| == |w.inits| == |w.nexts| && k <= nest[i](idx)
    decreases |nest| - i, 1 + nest[i](idx) - k
  {
    if k == nest[i](idx) then Outcome([], v)
    else
      var body := RunBody(m, mode, w, nest, i, idx, k, v);
      var rest := RunLoop(m, mode, w, nest, i, idx, k + 1, NextValue(m, w.nexts[i], Toggle(m, v), body.carried));
      Outcome(body.used + rest.used, rest.carried)
  }

  function RunNest(m: Machine, mode: Mode, w: Wiring, nest: Nest): Outcome
    requires m.word > 0 && 0 < |nest| == |w.inits| == |w.nexts|
  {
    RunLoop(m, mode, w, nest, 0, [], 0, StartValue(m, mode, w.inits[0], m.junk))
  }

  /** The offset of the copy that run `k` of the innermost body is meant to use. */
  function Phase(m: Machine, k: nat): int {
    if k % 2 == 0 then m.offset0 else m.offset1
  }

  /** The carried value after `n` runs of the innermost body. */
  function CarriedAfter(m: Machine, mode: Mode, n: nat): int {
    if mode == BufferFirst then Phase(m, n) else Phase(m, n + 1)
  }

  lemma ToggleSwaps(m: Machine)
    requires Sound(m)
    ensures Toggle(m, m.offset0) == m.offset1 && Toggle(m, m.offset1) == m.offset0
  {
    WrapCancels(m.offset0, m.offset1, m.word);
    WrapCancels(m.offset1, m.offset0, m.word);
  }

  lemma WrapCancels(a: int, b: int, word: nat)
    requires 0 <= a < word && 0 <= b < word
    ensures ((a + b) % word - a) % word == b
  {
    if a + b < word {
      DivModUnique(a + b, word, 0, a + b);
      DivModUnique(b, word, 0, b);
    } else {
      DivModUnique(a + b, word, 1, a + b - word);
      DivModUnique(b - word, word, -1, b);
    }
  }

  /** The runs listed, counted from `n`, use the copies they are meant to use. */
  ghost predicate Alternates(m: Machine, used: seq<int>, n: nat) {
    forall j :: 0 <= j < |used| ==> used[j] == Phase(m, n + j)
  }

  lemma AlternatesJoin(m: Machine, a: seq<int>, b: seq<int>, n: nat)
    requires Alternates(m, a, n) && Alternates(m, b, n + |a|)
    ensures Alternates(m, a + b, n)
  {
    forall j | 0 <= j < |a + b|
      ensures (a + b)[j] == Phase(m, n + j)
    {
      if j >= |a| {
        assert b[j - |a|] == Phase(m, n + |a| + (j - |a|));
      }
    }
  }

  lemma {:induction false} RunBodyAlternates(m: Machine, mode: Mode, w: Wiring, nest: Nest, i: nat, idx: seq<nat>, k: nat, n: nat)
    requires Sound(m) && i < |nest| == |w.inits| && Threaded(w, mode)
    ensures var v := CarriedAfter(m, mode, n);
      var b := RunBody(m, mode, w, nest, i, idx, k, v);
      Alternates(m, b.used, n) && NextValue(m, w.nexts[i], Toggle(m, v), b.carried) == CarriedAfter(m, mode, n + |b.used|)
    decreases |nest| - i, 0
  {
    ToggleSwaps(m);
    if i < |nest| - 1 {
      RunLoopAlternates(m, mode, w, nest, i + 1, idx + [k], 0, n);
    }
  }

  lemma {:induction false} RunLoopAlternates(m: Machine, mode: Mode, w: Wiring, nest: Nest, i: nat, idx: seq<nat>, k: nat, n: nat)
    requires Sound(m) && i < |nest| == |w.inits| && Threaded(w, mode) && k <= nest[i](idx)
    ensures var r := RunLoop(m, mode, w, nest, i, idx, k, CarriedAfter(m, mode, n));
      Alternates(m, r.used, n) && r.carried == CarriedAfter(m, mode, n + |r.used|)
    decreases |nest| - i, 1 + nest[i](idx) - k
  {
    if k < nest[i](idx) {
      var v := CarriedAfter(m, mode, n);
      RunBodyAlternates(m, mode, w, nest, i, idx, k, n);
      var body := RunBody(m, mode, w, nest, i, idx, k, v);
      RunLoopAlternates(m, mode, w, nest, i, idx, k + 1, n + |body.used|);
      var rest := RunLoop(m, mode, w, nest, i, idx, k + 1, CarriedAfter(m, mode, n + |body.used|));
      AlternatesJoin(m, body.used, rest.used, n);
    }
  }

  /** In either mode run k of the innermost body uses the copy k mod 2, whatever the trip counts. */
  lemma RunsAlternate(m: Machine, mode: Mode, w: Wiring, nest: Nest)
    requires Sound(m) && 0 < |nest| == |w.inits| && Threaded(w, mode)
    ensures var used := RunNest(m, mode, w, nest).used;
      forall k :: 0 <= k < |used| ==> used[k] == Phase(m, k)
  {
    RunLoopAlternates(m, mode, w, nest, 0, [], 0, 0);
  }

  /** How often the innermost body runs does not depend on the wiring. */
  lemma {:induction false} SameRuns(
      m: Machine, mode: Mode, w: Wiring, v: int, mode': Mode, w': Wiring, v': int, nest: Nest, i: nat, idx: seq<nat>, k: nat)
    requires m.word > 0 && i < |nest| == |w.inits| == |w.nexts| && |nest| == |w'.inits| == |w'.nexts|
    requires k <= nest[i](idx)
    ensures |RunLoop(m, mode, w, nest, i, idx, k, v).used| == |RunLoop(m, mode', w', nest, i, idx, k, v').used|
    decreases |nest| - i, 1 + nest[i](idx) - k
  {
    if k < nest[i](idx) {
      if i < |nest| - 1 {
        SameRuns(m, mode, w, StartValue(m, mode, w.inits[i + 1], v), mode', w', StartValue(m, mode', w'.inits[i + 1], v'),
          nest, i + 1, idx + [k], 0);
      }
      var b, b' := RunBody(m, mode, w, nest, i, idx, k, v), RunBody(m, mode', w', nest, i, idx, k, v');
      SameRuns(m, mode, w, NextValue(m, w.nexts[i], Toggle(m, v), b.carried),
        mode', w', NextValue(m, w'.nexts[i], Toggle(m, v'), b'.carried), nest, i, idx, k + 1);
    }
  }

  /** Engines lowered in different modes use the same copies in the same runs. */
  lemma EnginesAgree(m: Machine, w: Wiring, w': Wiring, nest: Nest)
    requires Sound(m) && 0 < |nest| == |w.inits| == |w'.inits|
    requires Threaded(w, BufferFirst) && Threaded(w', BufferLast)
    ensures RunNest(m, BufferFirst, w, nest).used == RunNest(m, BufferLast, w', nest).used
  {
    RunsAlternate(m, BufferFirst, w, nest);
    RunsAlternate(m, BufferLast, w', nest);
    SameRuns(m, BufferFirst, w, StartValue(m, BufferFirst, w.inits[0], m.junk),
      BufferLast, w', StartValue(m, BufferLast, w'.inits[0], m.junk), nest, 0, [], 0);
  }
}
