/**
 * Call-stack reconstruction (src/debugAdapter/stops.ts): which activation each visible record runs in.
 */
module Frames {
  import opened Prelude
  import opened StableSorting

  /**
   * A record's opcode: `call` and `call_indirect`, `return_call` and `return_call_indirect`, RETURN_OPCODES,
   * the rest. The walks look no further than CALL_OPCODES, which holds the first four.
   */
  datatype Opcode = Call | TailCall | Return | Plain {
    predicate IsCall() { Call? || TailCall? }
  }

  /** A function body [start, end) in code-offset space. */
  datatype FunctionRange = FunctionRange(start: int, end: int)

  /** One reconstructed activation; `fn` is -1 when the pc is in no known body. */
  datatype WasmFrame = WasmFrame(fn: int, depth: nat, callSite: Option<nat>, caller: Option<WasmFrame>)

  type Positions = seq<Option<int>>

  /** `positions[i] ?? null`: a position list shorter than the trace reads as null. */
  function PositionAt(positions: Positions, i: nat): Option<int> {
    if i < |positions| then positions[i] else None
  }

  ghost predicate StartsSorted(ranges: seq<FunctionRange>) {
    forall j, k :: 0 <= j < k < |ranges| ==> ranges[j].start <= ranges[k].start
  }

  /** Position of the last range starting at or below `pos` among the first `n`, or -1. */
  function LastStartingBy(ranges: seq<FunctionRange>, pos: int, n: nat): (r: int)
    requires n <= |ranges|
    ensures -1 <= r < n
    ensures r >= 0 ==> ranges[r].start <= pos
    ensures forall k :: r < k < n ==> ranges[k].start > pos
  {
    if n == 0 then -1
    else if ranges[n - 1].start <= pos then n - 1
    else LastStartingBy(ranges, pos, n - 1)
  }

  /** The function body `pos` lies in: the last range starting at or below it, if `pos` is before its end. */
  function BodyAt(ranges: seq<FunctionRange>, pos: int): (r: int)
    ensures -1 <= r < |ranges|
    ensures r >= 0 ==> ranges[r].start <= pos < ranges[r].end
  {
    var candidate := LastStartingBy(ranges, pos, |ranges|);
    if candidate >= 0 && pos < ranges[candidate].end then candidate else -1
  }

  method FunctionIndexAt(ranges: seq<FunctionRange>, pos: int) returns (r: int)
    requires StartsSorted(ranges)
    ensures r == BodyAt(ranges, pos)
  {
    var lo, hi, candidate := 0, |ranges| - 1, -1;
    while lo <= hi
      invariant 0 <= lo <= hi + 1 <= |ranges|
      invariant candidate == lo - 1
      invariant forall k :: 0 <= k < lo ==> ranges[k].start <= pos
      invariant forall k :: hi < k < |ranges| ==> ranges[k].start > pos
    {
      var mid := (lo + hi) / 2;
      if ranges[mid].start <= pos {
        candidate := mid;
        lo := mid + 1;
      } else {
        hi := mid - 1;
      }
    }
    return if candidate >= 0 && pos < ranges[candidate].end then candidate else -1;
  }

  /** Topmost stack position holding function identity `fn`, or -1. */
  function TopmostOf(stack: seq<WasmFrame>, fn: int): (r: int)
    ensures -1 <= r < |stack|
    ensures r >= 0 ==> stack[r].fn == fn
    ensures forall k :: r < k < |stack| ==> stack[k].fn != fn
  {
    if stack == [] then -1
    else if stack[|stack| - 1].fn == fn then |stack| - 1
    else TopmostOf(stack[..|stack| - 1], fn)
  }

  method LastIndexOfFn(stack: seq<WasmFrame>, fn: int) returns (r: int)
    ensures r == TopmostOf(stack, fn)
  {
    var i := |stack| - 1;
    while i >= 0
      invariant -1 <= i < |stack|
      invariant forall k :: i < k < |stack| ==> stack[k].fn != fn
    {
      if stack[i].fn == fn {
        return i;
      }
      i := i - 1;
    }
    return -1;
  }

  // ----- The range walk -----

  /** The walk's local state: the frame stack, outermost first, and the last visible record (-1: none). */
  datatype Walk = Walk(stack: seq<WasmFrame>, prevVisible: int)

  predicate IsEntry(records: seq<Opcode>, ranges: seq<FunctionRange>, prevVisible: int, fn: int, pos: int) {
    0 <= fn < |ranges| && pos == ranges[fn].start && 0 <= prevVisible < |records| && records[prevVisible].IsCall()
  }

  /** The stack after a visible record at `pos`. */
  function StackAfter(records: seq<Opcode>, ranges: seq<FunctionRange>, w: Walk, pos: int): (r: seq<WasmFrame>)
    requires -1 <= w.prevVisible < |records|
    ensures r != []
  {
    var fn := BodyAt(ranges, pos);
    if w.stack == [] then
      [WasmFrame(fn, 0, None, None)]
    else
      var top := w.stack[|w.stack| - 1];
      if fn == top.fn then
        w.stack
      else if IsEntry(records, ranges, w.prevVisible, fn, pos) then
        w.stack + [WasmFrame(fn, |w.stack|, Some(w.prevVisible), Some(top))]
      else if TopmostOf(w.stack, fn) >= 0 then
        w.stack[..TopmostOf(w.stack, fn) + 1]
      else
        w.stack[..|w.stack| - 1] + [top.(fn := fn)]
  }

  /**
   * One visible record: the executing frame is of the body there; a level is added only on an entry, taken off
   * only to return to the topmost frame of the body; and all below the executing frame stays.
   */
  lemma StackStep(records: seq<Opcode>, ranges: seq<FunctionRange>, w: Walk, pos: int)
    requires -1 <= w.prevVisible < |records| && w.stack != []
    ensures var fn, before, after := BodyAt(ranges, pos), w.stack, StackAfter(records, ranges, w, pos);
            var n, m := |before|, |after|;
            && after[m - 1].fn == fn && after[..m - 1] == before[..m - 1]
            && (m > n <==> fn != before[n - 1].fn && IsEntry(records, ranges, w.prevVisible, fn, pos))
            && (m > n ==>
                  m == n + 1 && after[n].callSite == Some(w.prevVisible) && after[n].caller == Some(before[n - 1]))
            && (m < n ==> after[m - 1] == before[m - 1] && forall k :: m <= k < n ==> before[k].fn != fn)
            && (m == n ==> after[n - 1] == before[n - 1].(fn := fn))
            && (m == n && fn != before[n - 1].fn ==> forall k :: 0 <= k < n ==> before[k].fn != fn)
  {
  }

  /** The walk's state once records 0..n-1 are behind it. */
  function WalkAt(records: seq<Opcode>, positions: Positions, ranges: seq<FunctionRange>, n: nat): (w: Walk)
    requires n <= |records|
    ensures -1 <= w.prevVisible < n
    ensures w.prevVisible >= 0 <==> w.stack != []
  {
    if n == 0 then Walk([], -1)
    else
      var w := WalkAt(records, positions, ranges, n - 1);
      match PositionAt(positions, n - 1)
      case None => w
      case Some(pos) => Walk(StackAfter(records, ranges, w, pos), n - 1)
  }

  function Top(stack: seq<WasmFrame>): Option<WasmFrame> {
    if stack == [] then None else Some(stack[|stack| - 1])
  }

  function RangeFrame(records: seq<Opcode>, positions: Positions, ranges: seq<FunctionRange>, i: nat): Option<WasmFrame>
    requires i < |records|
  {
    Top(WalkAt(records, positions, ranges, i + 1).stack)
  }

  // ----- The opcode fallback -----

  /** The executing frame ahead of record `n`, from call and return opcodes alone. */
  function OpcodeFrame(records: seq<Opcode>, n: nat): WasmFrame
    requires n <= |records|
  {
    if n == 0 then WasmFrame(-1, 0, None, None)
    else
      var frame := OpcodeFrame(records, n - 1);
      if records[n - 1].IsCall() then WasmFrame(-1, frame.depth + 1, Some(n - 1), Some(frame))
      else if records[n - 1].Return? && frame.caller.Some? then frame.caller.value
      else frame
  }

  // ----- Returns in the fallback -----

  /** Calls less returns over records [from, n). */
  function Excess(records: seq<Opcode>, from: nat, n: nat): int
    requires from <= n <= |records|
  {
    if n == from then 0
    else
      Excess(records, from, n - 1) +
      (if records[n - 1].IsCall() then 1 else if records[n - 1].Return? then -1 else 0)
  }

  ghost predicate NeverBelow(records: seq<Opcode>, from: nat, n: nat)
    requires from <= n <= |records|
  {
    forall j :: from <= j <= n ==> Excess(records, from, j) >= 0
  }

  /** Record `e` returns from the call at record `c`: between them calls and returns balance. */
  ghost predicate ReturnsFrom(records: seq<Opcode>, c: nat, e: nat) {
    && c < e < |records| && records[c].IsCall() && records[e].Return?
    && NeverBelow(records, c + 1, e) && Excess(records, c + 1, e) == 0
  }

  /** The frame `depth` callers out. */
  function Out(f: WasmFrame, depth: nat): Option<WasmFrame> {
    if depth == 0 then Some(f) else if f.caller.None? then None else Out(f.caller.value, depth - 1)
  }

  lemma {:induction false} OutsideUnchanged(records: seq<Opcode>, c: nat, n: nat)
    requires c < n <= |records|
    requires NeverBelow(records, c + 1, n)
    ensures Excess(records, c + 1, n) >= 0
    ensures Out(OpcodeFrame(records, n), Excess(records, c + 1, n)) == Some(OpcodeFrame(records, c + 1))
    decreases n
  {
    if n > c + 1 {
      OutsideUnchanged(records, c, n - 1);
      assert Excess(records, c + 1, n) >= 0;
    }
  }

  /** A call makes a callee of the calling frame, and its return restores that very frame. */
  lemma OpcodeReturnRestores(records: seq<Opcode>, c: nat, e: nat)
    requires ReturnsFrom(records, c, e)
    ensures var inside := OpcodeFrame(records, c + 1);
            inside.callSite == Some(c) && inside.caller == Some(OpcodeFrame(records, c))
            && inside.depth == OpcodeFrame(records, c).depth + 1
    ensures OpcodeFrame(records, e) == OpcodeFrame(records, c + 1)
    ensures OpcodeFrame(records, e + 1) == OpcodeFrame(records, c)
  {
    OutsideUnchanged(records, c, e);
  }

  /** Anything else leaves the frame, a return with no caller to return to included. */
  lemma OpcodeStays(records: seq<Opcode>, i: nat)
    requires i < |records| && !records[i].IsCall()
    requires records[i].Return? ==> OpcodeFrame(records, i).caller.None?
    ensures OpcodeFrame(records, i + 1) == OpcodeFrame(records, i)
  {
  }

  method OpcodeFrames(records: seq<Opcode>) returns (frames: seq<Option<WasmFrame>>)
    ensures |frames| == |records|
    ensures forall i :: 0 <= i < |records| ==> frames[i] == Some(OpcodeFrame(records, i))
  {
    frames := [];
    var frame := WasmFrame(-1, 0, None, None);
    for i := 0 to |records|
      invariant |frames| == i && frame == OpcodeFrame(records, i)
      invariant forall k :: 0 <= k < i ==> frames[k] == Some(OpcodeFrame(records, k))
    {
      frames := frames + [Some(frame)];
      if records[i].IsCall() {
        frame := WasmFrame(-1, frame.depth + 1, Some(i), Some(frame));
      } else if records[i].Return? && frame.caller.Some? {
        frame := frame.caller.value;
      }
    }
  }

  // ----- computeFrames -----

  /** The ranges the walk indexes: sorted by start, empty in the opcode fallback. */
  function WalkRanges(functionRanges: Option<seq<FunctionRange>>): (r: seq<FunctionRange>)
  {
    if functionRanges.None? then [] else StableSort((f: FunctionRange) => f.start, functionRanges.value)
  }

  lemma WalkRangesSorted(functionRanges: Option<seq<FunctionRange>>)
    ensures StartsSorted(WalkRanges(functionRanges))
    ensures functionRanges.Some? ==>
              multiset(WalkRanges(functionRanges)) == multiset(functionRanges.value)
              && |WalkRanges(functionRanges)| == |functionRanges.value|
  {
    if functionRanges.Some? {
      StableSortCorrect((f: FunctionRange) => f.start, functionRanges.value);
    }
  }

  /** What `computeFrames` reports for record `i`. */
  function FrameAt(
    records: seq<Opcode>, positions: Positions, functionRanges: Option<seq<FunctionRange>>, i: nat): Option<WasmFrame>
    requires i < |records|
  {
    var ranges := WalkRanges(functionRanges);
    if ranges == [] then Some(OpcodeFrame(records, i)) else RangeFrame(records, positions, ranges, i)
  }

  /** The walk's stack update at a visible record (the body of the loop in `computeFrames`). */
  method AdvanceStack(
    records: seq<Opcode>, ranges: seq<FunctionRange>, stack: seq<WasmFrame>, prevVisible: int, pos: int)
    returns (next: seq<WasmFrame>)
    requires StartsSorted(ranges) && -1 <= prevVisible < |records|
    ensures next == StackAfter(records, ranges, Walk(stack, prevVisible), pos)
  {
    next := stack;
    var fn := FunctionIndexAt(ranges, pos);
    if stack == [] {
      next := [WasmFrame(fn, 0, None, None)];
    } else if fn != stack[|stack| - 1].fn {
      var top := stack[|stack| - 1];
      var isEntry := fn >= 0 && pos == ranges[fn].start && prevVisible >= 0 && records[prevVisible].IsCall();
      if isEntry {
        next := next + [WasmFrame(fn, |stack|, Some(prevVisible), Some(top))];
      } else {
        var frame := LastIndexOfFn(stack, fn);
        if frame >= 0 {
          next := next[..frame + 1];
        } else {
          next := next[|stack| - 1 := top.(fn := fn)];
        }
      }
    }
  }

  method ComputeFrames(records: seq<Opcode>, positions: Positions, functionRanges: Option<seq<FunctionRange>>)
    returns (frames: seq<Option<WasmFrame>>, ranges: seq<FunctionRange>)
    ensures |frames| == |records| && ranges == WalkRanges(functionRanges)
    ensures forall i :: 0 <= i < |records| ==> frames[i] == FrameAt(records, positions, functionRanges, i)
  {
    ranges := WalkRanges(functionRanges);
    WalkRangesSorted(functionRanges);
    if functionRanges.None? || functionRanges.value == [] {
      frames := OpcodeFrames(records);
      return;
    }
    frames := [];
    var stack: seq<WasmFrame> := [];
    var prevVisible := -1;
    for i := 0 to |records|
      invariant |frames| == i
      invariant Walk(stack, prevVisible) == WalkAt(records, positions, ranges, i)
      invariant forall k :: 0 <= k < i ==> frames[k] == RangeFrame(records, positions, ranges, k)
    {
      var pos := PositionAt(positions, i);
      if pos.None? {
        frames := frames + [Top(stack)];
        continue;
      }
      stack := AdvanceStack(records, ranges, stack, prevVisible, pos.value);
      frames := frames + [Top(stack)];
      prevVisible := i;
    }
  }

  /** `computeDepths`: the depth projection, 0 where no frame is established. */
  function Depth(frame: Option<WasmFrame>): nat {
    if frame.Some? then frame.value.depth else 0
  }

  // ----- Well-formed frames -----

  /** Number of activations below `f` on its caller chain. */
  function CallersBelow(f: WasmFrame): nat {
    if f.caller.None? then 0 else 1 + CallersBelow(f.caller.value)
  }

  /**
   * `f` is a sound activation as seen by record `i`: its depth counts its caller chain, its call
   * site is an earlier call-class record at which its caller was executing, and so on outward.
   */
  ghost predicate Sound(records: seq<Opcode>, frames: seq<Option<WasmFrame>>, f: WasmFrame, i: nat)
    decreases f
  {
    && f.depth == CallersBelow(f)
    && (f.callSite.None? <==> f.caller.None?)
    && (f.caller.Some? ==>
          && f.callSite.value < i
          && f.callSite.value < |records| && f.callSite.value < |frames|
          && records[f.callSite.value].IsCall()
          && frames[f.callSite.value] == f.caller
          && Sound(records, frames, f.caller.value, f.callSite.value))
  }

  /** `stack` is one linked caller chain with every member sound before record `n`. */
  ghost predicate LinkedStack(records: seq<Opcode>, frames: seq<Option<WasmFrame>>, stack: seq<WasmFrame>, n: nat) {
    && (forall k :: 0 <= k < |stack| ==> stack[k].depth == k && Sound(records, frames, stack[k], n))
    && (stack != [] ==> stack[0].caller.None?)
    && (forall k {:trigger stack[k]} :: 0 < k < |stack| ==> stack[k].caller == Some(stack[k - 1]))
  }

  lemma {:induction false} WalkIsLinked(
    records: seq<Opcode>, positions: Positions, ranges: seq<FunctionRange>, frames: seq<Option<WasmFrame>>, n: nat)
    requires n <= |records| == |frames|
    requires forall i :: 0 <= i < n ==> frames[i] == RangeFrame(records, positions, ranges, i)
    ensures LinkedStack(records, frames, WalkAt(records, positions, ranges, n).stack, n)
    ensures var w := WalkAt(records, positions, ranges, n);
            w.stack != [] ==> frames[w.prevVisible] == Top(w.stack)
                              && LinkedStack(records, frames, w.stack, w.prevVisible)
  {
    if n > 0 {
      WalkIsLinked(records, positions, ranges, frames, n - 1);
      var w := WalkAt(records, positions, ranges, n - 1);
      var pos := PositionAt(positions, n - 1);
      if pos.Some? {
        StackAfterIsLinked(records, ranges, frames, w, pos.value, n - 1);
      }
      var now := WalkAt(records, positions, ranges, n).stack;
      assert forall k :: 0 <= k < |now| ==> Sound(records, frames, now[k], n);
    }
  }

  lemma StackAfterIsLinked(
    records: seq<Opcode>, ranges: seq<FunctionRange>, frames: seq<Option<WasmFrame>>, w: Walk, pos: int, i: nat)
    requires -1 <= w.prevVisible < i < |records| == |frames|
    requires w.prevVisible >= 0 <==> w.stack != []
    requires w.stack != [] ==> frames[w.prevVisible] == Top(w.stack)
                               && LinkedStack(records, frames, w.stack, w.prevVisible)
    requires LinkedStack(records, frames, w.stack, i)
    ensures LinkedStack(records, frames, StackAfter(records, ranges, w, pos), i)
  {
    if w.stack != [] {
      var top := w.stack[|w.stack| - 1];
      var fn := BodyAt(ranges, pos);
      assert Sound(records, frames, top, w.prevVisible);
      assert Sound(records, frames, top.(fn := fn), i);
    }
  }

  lemma {:induction false} OpcodeFrameIsSound(records: seq<Opcode>, frames: seq<Option<WasmFrame>>, n: nat)
    requires n <= |records| == |frames|
    requires forall i :: 0 <= i < |records| ==> frames[i] == Some(OpcodeFrame(records, i))
    ensures Sound(records, frames, OpcodeFrame(records, n), n)
  {
    if n > 0 {
      OpcodeFrameIsSound(records, frames, n - 1);
      var frame := OpcodeFrame(records, n - 1);
      if frame.caller.Some? {
      }
    }
  }

  /** Every frame of every trace is sound, in the range walk and in the opcode fallback. */
  lemma {:induction false} EveryFrameIsSound(
    records: seq<Opcode>, positions: Positions, functionRanges: Option<seq<FunctionRange>>,
    frames: seq<Option<WasmFrame>>, i: nat)
    requires |frames| == |records| && i < |records|
    requires forall k :: 0 <= k < |records| ==> frames[k] == FrameAt(records, positions, functionRanges, k)
    ensures frames[i].Some? ==> Sound(records, frames, frames[i].value, i)
  {
    var ranges := WalkRanges(functionRanges);
    if ranges == [] {
      OpcodeFrameIsSound(records, frames, i);
    } else if frames[i].Some? {
      WalkIsLinked(records, positions, ranges, frames, i);
      WalkIsLinked(records, positions, ranges, frames, i + 1);
      var w := WalkAt(records, positions, ranges, i);
      if PositionAt(positions, i).Some? {
        StackAfterIsLinked(records, ranges, frames, w, PositionAt(positions, i).value, i);
      }
    }
  }
}
