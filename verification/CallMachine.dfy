/** A ground-truth call machine, and exactly when the range walk of `computeFrames` sees its stack. */
module CallMachine {
  // The machine knows which activation each instruction runs in; the trace it leaves behind does not.

  import opened Prelude
  import opened Frames

  /** A true activation: its function, and the record of the call that entered it. */
  datatype Activation = Activation(fn: int, callSite: Option<nat>)

  /** What the program really did between one record and the next. */
  datatype Move =
    | Hidden                          // a record with no validated position
    | Begin(pos: int, fn: nat)        // the outermost activation's first visible record
    | Stay(pos: int)                  // the next instruction of the executing activation
    | Enter(pos: int, fn: nat)        // the first instruction of a callee
    | TailEnter(pos: int, fn: nat)    // the same, by a tail call: the callee takes the caller's place
    | Land(pos: int, level: nat)      // back in the activation at `level`, returns leaving no record

  /** The machine: its true stack, outermost first, and the last visible record (-1: none). */
  datatype Machine = Machine(stack: seq<Activation>, prevVisible: int)

  function MovePosition(m: Move): Option<int> {
    match m
    case Hidden => None
    case Begin(pos, _) => Some(pos)
    case Stay(pos) => Some(pos)
    case Enter(pos, _) => Some(pos)
    case TailEnter(pos, _) => Some(pos)
    case Land(pos, _) => Some(pos)
  }

  ghost predicate InBody(ranges: seq<FunctionRange>, fn: int, pos: int) {
    0 <= fn < |ranges| && ranges[fn].start <= pos < ranges[fn].end
  }

  /** The moves a machine can make: calls enter a body's first offset right after a call-class record. */
  ghost predicate Possible(records: seq<Opcode>, ranges: seq<FunctionRange>, m: Machine, move: Move) {
    match move
    case Hidden => true
    case Begin(pos, fn) => m.stack == [] && InBody(ranges, fn, pos)
    case Stay(pos) => m.stack != [] && InBody(ranges, m.stack[|m.stack| - 1].fn, pos)
    case Enter(pos, fn) =>
      && m.stack != [] && InBody(ranges, fn, pos) && pos == ranges[fn].start
      && 0 <= m.prevVisible < |records| && records[m.prevVisible].Call?
    case TailEnter(pos, fn) =>
      && m.stack != [] && InBody(ranges, fn, pos) && pos == ranges[fn].start
      && 0 <= m.prevVisible < |records| && records[m.prevVisible].TailCall?
    case Land(pos, level) => level + 1 < |m.stack| && InBody(ranges, m.stack[level].fn, pos)
  }

  /** The true stack after a move made at record `i`. */
  function Next(m: Machine, move: Move, i: nat): Machine {
    match move
    case Hidden => m
    case Begin(_, fn) => Machine([Activation(fn, None)], i)
    case Stay(_) => m.(prevVisible := i)
    case Enter(_, fn) =>
      Machine(m.stack + [Activation(fn, if m.prevVisible >= 0 then Some(m.prevVisible) else None)], i)
    case TailEnter(_, fn) =>
      if m.stack == [] then m
      else
        var top := |m.stack| - 1;
        Machine(m.stack[..top] + [Activation(fn, m.stack[top].callSite)], i)
    case Land(_, level) => Machine(m.stack[..Min(level + 1, |m.stack|)], i)
  }

  function Run(moves: seq<Move>, n: nat): Machine
    requires n <= |moves|
  {
    if n == 0 then Machine([], -1) else Next(Run(moves, n - 1), moves[n - 1], n - 1)
  }

  ghost predicate PossibleRun(records: seq<Opcode>, ranges: seq<FunctionRange>, moves: seq<Move>) {
    forall i :: 0 <= i < |moves| ==> Possible(records, ranges, Run(moves, i), moves[i])
  }

  /**
   * The moves the walk can tell apart from the trace alone: no direct self-call, no tail call but of the
   * function itself, and a return lands in the topmost activation of its function, off the body's entry
   * unless no call precedes it.
   */
  ghost predicate Discernible(records: seq<Opcode>, ranges: seq<FunctionRange>, m: Machine, move: Move) {
    match move
    case Hidden => true
    case Begin(_, _) => true
    case Stay(_) => true
    case Enter(_, fn) => m.stack != [] ==> fn != m.stack[|m.stack| - 1].fn
    case TailEnter(_, fn) => m.stack != [] ==> fn == m.stack[|m.stack| - 1].fn
    case Land(pos, level) =>
      level < |m.stack| ==>
        && (forall k :: level < k < |m.stack| ==> m.stack[k].fn != m.stack[level].fn)
        && !IsEntry(records, ranges, m.prevVisible, m.stack[level].fn, pos)
  }

  /** Sorted bodies that do not overlap. */
  ghost predicate DisjointBodies(ranges: seq<FunctionRange>) {
    && StartsSorted(ranges)
    && forall j, k :: 0 <= j < k < |ranges| ==> ranges[j].end <= ranges[k].start
  }

  lemma BodyAtIsTheBody(ranges: seq<FunctionRange>, fn: int, pos: int)
    requires DisjointBodies(ranges) && InBody(ranges, fn, pos)
    ensures BodyAt(ranges, pos) == fn
  {
    var candidate := LastStartingBy(ranges, pos, |ranges|);
    assert candidate >= fn;
  }

  function Activations(stack: seq<WasmFrame>): (r: seq<Activation>)
    ensures |r| == |stack|
    ensures forall k :: 0 <= k < |stack| ==> r[k] == Activation(stack[k].fn, stack[k].callSite)
  {
    seq(|stack|, (k: int) requires 0 <= k < |stack| => Activation(stack[k].fn, stack[k].callSite))
  }

  /** A frame's caller chain, outermost first: what the Callstack view shows. */
  function CallerChain(f: WasmFrame): (r: seq<Activation>)
    ensures |r| == CallersBelow(f) + 1
  {
    (if f.caller.None? then [] else CallerChain(f.caller.value)) + [Activation(f.fn, f.callSite)]
  }

  /** The walk pushes a frame where a tail call put one in place of another; on a self tail call it does nothing. */
  lemma TailCallPushes(
    records: seq<Opcode>, ranges: seq<FunctionRange>, w: Walk, m: Machine, pos: int, fn: nat, i: nat)
    requires m == Machine(Activations(w.stack), w.prevVisible) && -1 <= w.prevVisible < |records|
    requires Possible(records, ranges, m, TailEnter(pos, fn)) && BodyAt(ranges, pos) == fn
    ensures Activations(StackAfter(records, ranges, w, pos)) == Next(m, TailEnter(pos, fn), i).stack
       <==> fn == m.stack[|m.stack| - 1].fn
  {
    var after, next := StackAfter(records, ranges, w, pos), Next(m, TailEnter(pos, fn), i).stack;
    var top := |m.stack| - 1;
    assert |next| == |m.stack|;
    if fn == m.stack[top].fn {
      assert m.stack[..top] + [m.stack[top]] == m.stack;
    } else {
      assert |after| == |w.stack| + 1;
    }
  }

  /** A walk in step with the machine stays in step across a move exactly when the move is discernible. */
  lemma StepExactIffDiscernible(
    records: seq<Opcode>, ranges: seq<FunctionRange>, w: Walk, m: Machine, move: Move, i: nat)
    requires DisjointBodies(ranges) && -1 <= w.prevVisible < |records|
    requires m == Machine(Activations(w.stack), w.prevVisible)
    requires w.prevVisible >= 0 <==> w.stack != []
    requires Possible(records, ranges, m, move) && move != Hidden
    ensures Activations(StackAfter(records, ranges, w, MovePosition(move).value)) == Next(m, move, i).stack
       <==> Discernible(records, ranges, m, move)
  {
    var pos := MovePosition(move).value;
    var after := StackAfter(records, ranges, w, pos);
    match move
    case Begin(_, fn) =>
      BodyAtIsTheBody(ranges, fn, pos);
    case Stay(_) =>
      BodyAtIsTheBody(ranges, m.stack[|m.stack| - 1].fn, pos);
    case Enter(_, fn) =>
      BodyAtIsTheBody(ranges, fn, pos);
    case TailEnter(_, fn) =>
      BodyAtIsTheBody(ranges, fn, pos);
      TailCallPushes(records, ranges, w, m, pos, fn, i);
    case Land(_, level) =>
      var fn := m.stack[level].fn;
      BodyAtIsTheBody(ranges, fn, pos);
      assert w.stack[level].fn == fn;
      assert TopmostOf(w.stack, fn) >= level;
      if Discernible(records, ranges, m, move) {
        assert TopmostOf(w.stack, fn) == level;
        assert Activations(w.stack[..level + 1]) == Activations(w.stack)[..level + 1];
      } else if IsEntry(records, ranges, m.prevVisible, fn, pos) {
        assert |after| > level + 1;
      } else {
        var k :| level < k < |m.stack| && m.stack[k].fn == fn;
        assert TopmostOf(w.stack, fn) >= k;
        assert |after| > level + 1;
      }
  }

  /** The records and positions a run leaves behind. */
  ghost predicate Traces(records: seq<Opcode>, positions: Positions, moves: seq<Move>) {
    && |records| == |positions| == |moves|
    && forall i :: 0 <= i < |moves| ==> positions[i] == MovePosition(moves[i])
  }

  ghost predicate DiscernibleBelow(records: seq<Opcode>, ranges: seq<FunctionRange>, moves: seq<Move>, n: nat)
    requires n <= |moves|
  {
    forall i :: 0 <= i < n ==> Discernible(records, ranges, Run(moves, i), moves[i])
  }

  ghost predicate InStep(
    records: seq<Opcode>, positions: Positions, ranges: seq<FunctionRange>, moves: seq<Move>, n: nat)
    requires n <= |moves| && n <= |records|
  {
    var w := WalkAt(records, positions, ranges, n);
    Run(moves, n) == Machine(Activations(w.stack), w.prevVisible)
  }

  lemma {:induction false} InStepWhileDiscernible(
    records: seq<Opcode>, positions: Positions, ranges: seq<FunctionRange>, moves: seq<Move>, n: nat)
    requires DisjointBodies(ranges) && Traces(records, positions, moves)
    requires PossibleRun(records, ranges, moves) && n <= |moves|
    requires DiscernibleBelow(records, ranges, moves, n)
    ensures InStep(records, positions, ranges, moves, n)
  {
    if n > 0 {
      InStepWhileDiscernible(records, positions, ranges, moves, n - 1);
      if moves[n - 1] != Hidden {
        StepExactIffDiscernible(
          records, ranges, WalkAt(records, positions, ranges, n - 1), Run(moves, n - 1), moves[n - 1], n - 1);
      }
    }
  }

  lemma {:induction false} ChainOfLinked(
    records: seq<Opcode>, frames: seq<Option<WasmFrame>>, stack: seq<WasmFrame>, n: nat, k: nat)
    requires LinkedStack(records, frames, stack, n) && k < |stack|
    ensures CallerChain(stack[k]) == Activations(stack[..k + 1])
  {
    if k > 0 {
      ChainOfLinked(records, frames, stack, n, k - 1);
      assert stack[..k + 1] == stack[..k] + [stack[k]];
    }
    assert Activations(stack[..k + 1]) == Activations(stack[..k]) + [Activation(stack[k].fn, stack[k].callSite)];
  }

  /** The frame reported for record `i` shows the true stack the program had there. */
  ghost predicate ShowsTrueStack(frame: Option<WasmFrame>, moves: seq<Move>, i: nat)
    requires i < |moves|
  {
    frame.Some? && CallerChain(frame.value) == Run(moves, i + 1).stack
  }

  lemma FrameShowsWalk(
    records: seq<Opcode>, positions: Positions, functionRanges: Option<seq<FunctionRange>>,
    frames: seq<Option<WasmFrame>>, moves: seq<Move>, i: nat)
    requires i < |records| == |frames| == |moves| && WalkRanges(functionRanges) != []
    requires forall k :: 0 <= k < |records| ==> frames[k] == FrameAt(records, positions, functionRanges, k)
    ensures var stack := WalkAt(records, positions, WalkRanges(functionRanges), i + 1).stack;
            ShowsTrueStack(frames[i], moves, i) <==> stack != [] && Activations(stack) == Run(moves, i + 1).stack
  {
    var ranges := WalkRanges(functionRanges);
    var stack := WalkAt(records, positions, ranges, i + 1).stack;
    if stack != [] {
      WalkIsLinked(records, positions, ranges, frames, i + 1);
      ChainOfLinked(records, frames, stack, i + 1, |stack| - 1);
      assert stack[..|stack|] == stack;
    }
  }

  /** Up to its first unseen move the walk is exact, and at that move it goes wrong. */
  lemma ExactUpToFirstUnseen(
    records: seq<Opcode>, positions: Positions, functionRanges: Option<seq<FunctionRange>>,
    frames: seq<Option<WasmFrame>>, moves: seq<Move>, i: nat)
    requires WalkRanges(functionRanges) != [] && DisjointBodies(WalkRanges(functionRanges))
    requires Traces(records, positions, moves)
    requires PossibleRun(records, WalkRanges(functionRanges), moves)
    requires |frames| == |records|
    requires forall k :: 0 <= k < |records| ==> frames[k] == FrameAt(records, positions, functionRanges, k)
    requires i < |moves| && moves[i] != Hidden
    requires DiscernibleBelow(records, WalkRanges(functionRanges), moves, i)
    ensures ShowsTrueStack(frames[i], moves, i)
       <==> Discernible(records, WalkRanges(functionRanges), Run(moves, i), moves[i])
  {
    var ranges := WalkRanges(functionRanges);
    InStepWhileDiscernible(records, positions, ranges, moves, i);
    StepExactIffDiscernible(records, ranges, WalkAt(records, positions, ranges, i), Run(moves, i), moves[i], i);
    FrameShowsWalk(records, positions, functionRanges, frames, moves, i);
  }

  /**
   * Call-stack reconstruction is exact, and this is when: over every possible run, with hidden
   * records interleaved anywhere, the frames `computeFrames` reports show the true stack at every
   * visible record if and only if every move of the run is discernible.
   */
  lemma ReconstructionExactIffDiscernible(
    records: seq<Opcode>, positions: Positions, functionRanges: Option<seq<FunctionRange>>,
    frames: seq<Option<WasmFrame>>, moves: seq<Move>)
    requires WalkRanges(functionRanges) != [] && DisjointBodies(WalkRanges(functionRanges))
    requires Traces(records, positions, moves)
    requires PossibleRun(records, WalkRanges(functionRanges), moves)
    requires |frames| == |records|
    requires forall k :: 0 <= k < |records| ==> frames[k] == FrameAt(records, positions, functionRanges, k)
    ensures (forall i :: 0 <= i < |moves| && moves[i] != Hidden ==> ShowsTrueStack(frames[i], moves, i))
       <==> DiscernibleBelow(records, WalkRanges(functionRanges), moves, |moves|)
  {
    var ranges := WalkRanges(functionRanges);
    if DiscernibleBelow(records, ranges, moves, |moves|) {
      forall i | 0 <= i < |moves| && moves[i] != Hidden ensures ShowsTrueStack(frames[i], moves, i) {
        ExactUpToFirstUnseen(records, positions, functionRanges, frames, moves, i);
      }
    } else {
      var i := FirstUnseen(records, ranges, moves, |moves|);
      ExactUpToFirstUnseen(records, positions, functionRanges, frames, moves, i);
    }
  }

  /** Where the reconstruction is exact, stepping depth is the true depth. */
  lemma ExactDepth(
    records: seq<Opcode>, positions: Positions, functionRanges: Option<seq<FunctionRange>>,
    frames: seq<Option<WasmFrame>>, moves: seq<Move>, i: nat)
    requires |frames| == |records| == |moves| && i < |moves|
    requires forall k :: 0 <= k < |records| ==> frames[k] == FrameAt(records, positions, functionRanges, k)
    requires ShowsTrueStack(frames[i], moves, i)
    ensures Depth(frames[i]) == |Run(moves, i + 1).stack| - 1
  {
    EveryFrameIsSound(records, positions, functionRanges, frames, i);
  }

  lemma {:induction false} FirstUnseen(
    records: seq<Opcode>, ranges: seq<FunctionRange>, moves: seq<Move>, n: nat) returns (i: nat)
    requires n <= |moves| && !DiscernibleBelow(records, ranges, moves, n)
    ensures i < n && DiscernibleBelow(records, ranges, moves, i)
    ensures !Discernible(records, ranges, Run(moves, i), moves[i])
  {
    if DiscernibleBelow(records, ranges, moves, n - 1) {
      i := n - 1;
    } else {
      i := FirstUnseen(records, ranges, moves, n - 1);
    }
  }

  // ----- One run for each move the walk cannot see -----

  /** A possible run the reconstruction gets wrong. */
  ghost predicate Unseen(records: seq<Opcode>, ranges: seq<FunctionRange>, moves: seq<Move>) {
    && DisjointBodies(ranges) && |records| == |moves|
    && PossibleRun(records, ranges, moves) && !DiscernibleBelow(records, ranges, moves, |moves|)
  }

  lemma RunFirst(moves: seq<Move>)
    requires |moves| >= 1
    ensures Run(moves, 0) == Machine([], -1) && Run(moves, 1) == Next(Machine([], -1), moves[0], 0)
  {
  }

  lemma RunNext(moves: seq<Move>, n: nat)
    requires n < |moves|
    ensures Run(moves, n + 1) == Next(Run(moves, n), moves[n], n)
  {
  }

  /** A function calls itself. */
  lemma SelfCallUnseen() returns (records: seq<Opcode>, ranges: seq<FunctionRange>, moves: seq<Move>)
    ensures Unseen(records, ranges, moves)
  {
    records, ranges, moves := [Call, Plain], [FunctionRange(0, 10)], [Begin(3, 0), Enter(0, 0)];
    RunFirst(moves);
    assert Possible(records, ranges, Run(moves, 0), moves[0]);
    assert Possible(records, ranges, Run(moves, 1), moves[1]);
    assert !Discernible(records, ranges, Run(moves, 1), moves[1]);
  }

  /** A tail call: `return_call` and `return_call_indirect` are call-class opcodes too. */
  lemma TailCallUnseen() returns (records: seq<Opcode>, ranges: seq<FunctionRange>, moves: seq<Move>)
    ensures Unseen(records, ranges, moves)
  {
    records, ranges := [TailCall, Plain], [FunctionRange(0, 10), FunctionRange(10, 20)];
    moves := [Begin(3, 0), TailEnter(10, 1)];
    RunFirst(moves);
    assert Possible(records, ranges, Run(moves, 0), moves[0]);
    assert Possible(records, ranges, Run(moves, 1), moves[1]);
    assert !Discernible(records, ranges, Run(moves, 1), moves[1]);
  }

  /** Two returns at once, past an activation of the very function returned to. */
  lemma DeepReturnUnseen() returns (records: seq<Opcode>, ranges: seq<FunctionRange>, moves: seq<Move>)
    ensures Unseen(records, ranges, moves)
  {
    records, ranges := [Call, Call, Plain, Plain], [FunctionRange(0, 10), FunctionRange(10, 20)];
    moves := [Begin(3, 0), Enter(10, 1), Enter(0, 0), Land(5, 0)];
    RunFirst(moves);
    RunNext(moves, 1);
    RunNext(moves, 2);
    assert Run(moves, 3).stack == [Activation(0, None), Activation(1, Some(0)), Activation(0, Some(1))];
    assert Possible(records, ranges, Run(moves, 0), moves[0]);
    assert Possible(records, ranges, Run(moves, 1), moves[1]);
    assert Possible(records, ranges, Run(moves, 2), moves[2]);
    assert Possible(records, ranges, Run(moves, 3), moves[3]);
    assert Run(moves, 3).stack[2].fn == Run(moves, 3).stack[0].fn;
    assert !Discernible(records, ranges, Run(moves, 3), moves[3]);
  }

  /** A return to a body's first offset, the callee's last record being a call. */
  lemma EntryLikeReturnUnseen() returns (records: seq<Opcode>, ranges: seq<FunctionRange>, moves: seq<Move>)
    ensures Unseen(records, ranges, moves)
  {
    records, ranges := [Call, Call, Plain], [FunctionRange(0, 10), FunctionRange(10, 20)];
    moves := [Begin(3, 0), Enter(10, 1), Land(0, 0)];
    RunFirst(moves);
    RunNext(moves, 1);
    assert Run(moves, 2).stack == [Activation(0, None), Activation(1, Some(0))];
    assert Possible(records, ranges, Run(moves, 0), moves[0]);
    assert Possible(records, ranges, Run(moves, 1), moves[1]);
    assert Possible(records, ranges, Run(moves, 2), moves[2]);
    assert !Discernible(records, ranges, Run(moves, 2), moves[2]);
  }
}
