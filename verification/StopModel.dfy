/**
 * A trace's stop points (src/debugAdapter/stopModel.ts): the visible records and their positions, run starts,
 * statement stops and the ends of the trace.
 */
module StopModel {
  import opened Prelude
  import Frames
  import RunStarts
  import StatementStops

  datatype StopPoints = StopPoints(
    validatedPosToIndices: map<int, seq<nat>>,
    visibleIndices: seq<nat>,
    frames: seq<Option<Frames.WasmFrame>>,
    ranges: seq<Frames.FunctionRange>,
    depths: seq<nat>,
    rawRunStarts: seq<nat>,
    runStarts: seq<nat>,
    firstStopPoint: nat,
    lastStopPoint: nat
  )

  /**
   * What the model reads of a resolved trace: the records' opcodes and validated positions, the
   * function bodies, and the source side as arbitrary functions of the record index.
   */
  datatype Resolved = Resolved(
    records: seq<Frames.Opcode>,
    positions: Frames.Positions,
    functionRanges: Option<seq<Frames.FunctionRange>>,
    lineKey: nat -> Option<string>,
    roleAt: nat -> StatementStops.LineRole,
    isWorkspace: nat -> bool
  ) {
    ghost predicate Valid() { |records| == |positions| }
  }

  predicate VisibleRecord(positions: Frames.Positions, i: nat) {
    i < |positions| && positions[i].Some?
  }

  predicate RecordAt(positions: Frames.Positions, pos: int, i: nat) {
    i < |positions| && positions[i] == Some(pos)
  }

  /** `list` is exactly the visible records below `n`, ascending. */
  ghost predicate ListsVisible(list: seq<nat>, positions: Frames.Positions, n: nat) {
    Ascending(list) && forall i: nat :: i in list <==> i < n && VisibleRecord(positions, i)
  }

  /** `list` is exactly the records below `n` at validated offset `pos`, ascending. */
  ghost predicate ListsAt(list: seq<nat>, positions: Frames.Positions, pos: int, n: nat) {
    Ascending(list) && forall i: nat :: i in list <==> i < n && RecordAt(positions, pos, i)
  }

  ghost predicate Indexes(index: map<int, seq<nat>>, positions: Frames.Positions, n: nat) {
    && (forall pos :: pos in index ==> index[pos] != [] && ListsAt(index[pos], positions, pos, n))
    && forall pos, i: nat :: i < n && RecordAt(positions, pos, i) ==> pos in index
  }

  lemma AppendListed(list: seq<nat>, positions: Frames.Positions, pos: int, n: nat)
    requires ListsAt(list, positions, pos, n) && RecordAt(positions, pos, n)
    ensures ListsAt(list + [n], positions, pos, n + 1)
  {
    assert forall k :: 0 <= k < |list| ==> list[k] in list;
  }

  lemma AppendVisible(list: seq<nat>, positions: Frames.Positions, n: nat)
    requires ListsVisible(list, positions, n) && VisibleRecord(positions, n)
    ensures ListsVisible(list + [n], positions, n + 1)
  {
    assert forall k :: 0 <= k < |list| ==> list[k] in list;
  }

  method IndexPositions(positions: Frames.Positions) returns (index: map<int, seq<nat>>, visible: seq<nat>)
    ensures Indexes(index, positions, |positions|)
    ensures ListsVisible(visible, positions, |positions|)
  {
    index, visible := map[], [];
    for i := 0 to |positions|
      invariant Indexes(index, positions, i)
      invariant ListsVisible(visible, positions, i)
    {
      if positions[i].Some? {
        AppendVisible(visible, positions, i);
        visible := visible + [i];
        var pos := positions[i].value;
        if pos in index {
          AppendListed(index[pos], positions, pos, i);
          index := index[pos := index[pos] + [i]];
        } else {
          AppendListed([], positions, pos, i);
          assert [] + [i] == [i];
          index := index[pos := [i]];
        }
      }
    }
  }

  // ----- buildStopModel -----

  /** The invariants every consumer of the stop model relies on. */
  ghost predicate WellFormed(stops: StopPoints, r: Resolved)
    requires r.Valid()
  {
    && |stops.depths| == |r.records|
    && ListsVisible(stops.visibleIndices, r.positions, |r.positions|)
    && Indexes(stops.validatedPosToIndices, r.positions, |r.positions|)
    && Ascending(stops.rawRunStarts) && Ascending(stops.runStarts)
    && StatementStops.DrawnFrom(stops.rawRunStarts, stops.visibleIndices)
    && StatementStops.DrawnFrom(stops.runStarts, stops.rawRunStarts)
    && (stops.runStarts == [] <==> stops.rawRunStarts == [])
    && stops.firstStopPoint == FirstOf(stops.runStarts, FirstOf(stops.visibleIndices, 0))
    && stops.lastStopPoint == LastOf(stops.runStarts, LastOf(stops.visibleIndices, Max(0, |r.records| - 1)))
  }

  ghost predicate IsLeast(points: seq<nat>, i: nat) {
    i in points && forall j :: j in points ==> i <= j
  }

  ghost predicate IsGreatest(points: seq<nat>, i: nat) {
    i in points && forall j :: j in points ==> j <= i
  }

  /** What the two ends are: of the statement stops, of the visible records when there are none, or of the trace. */
  ghost predicate EndsMeet(stops: StopPoints, n: nat) {
    && (stops.runStarts != [] ==>
          IsLeast(stops.runStarts, stops.firstStopPoint) && IsGreatest(stops.runStarts, stops.lastStopPoint))
    && (stops.runStarts == [] && stops.visibleIndices != [] ==>
          IsLeast(stops.visibleIndices, stops.firstStopPoint) && IsGreatest(stops.visibleIndices, stops.lastStopPoint))
    && (stops.runStarts == [] && stops.visibleIndices == [] ==>
          stops.firstStopPoint == 0 && stops.lastStopPoint == if n == 0 then 0 else n - 1)
  }

  lemma AscendingEnds(points: seq<nat>)
    requires Ascending(points) && points != []
    ensures IsLeast(points, points[0]) && IsGreatest(points, points[|points| - 1])
  {
  }

  /** A built model's first and last stop points are the least and the greatest. */
  lemma StopModelEnds(stops: StopPoints, r: Resolved)
    requires r.Valid() && WellFormed(stops, r)
    ensures EndsMeet(stops, |r.records|)
  {
    if stops.runStarts != [] {
      AscendingEnds(stops.runStarts);
    } else if stops.visibleIndices != [] {
      AscendingEnds(stops.visibleIndices);
    }
  }

  function FirstOf(s: seq<nat>, otherwise: nat): nat {
    if s == [] then otherwise else s[0]
  }

  function LastOf(s: seq<nat>, otherwise: nat): nat {
    if s == [] then otherwise else s[|s| - 1]
  }

  function DepthsOf(frames: seq<Option<Frames.WasmFrame>>): (depths: seq<nat>)
    ensures |depths| == |frames|
    ensures forall i :: 0 <= i < |frames| ==> depths[i] == Frames.Depth(frames[i])
  {
    seq(|frames|, (i: int) requires 0 <= i < |frames| => Frames.Depth(frames[i]))
  }

  function RunTrace(r: Resolved, depths: seq<nat>): RunStarts.Trace {
    RunStarts.Trace(r.positions, depths, r.lineKey)
  }

  ghost predicate AreStatements(statements: seq<nat>, stops: StopPoints, r: Resolved) {
    && (forall k :: 0 <= k < |stops.rawRunStarts| ==> stops.rawRunStarts[k] < |stops.depths|)
    && Ascending(statements)
    && StatementStops.AreStatementStops(
         statements, stops.rawRunStarts, StatementStops.RunsOf(stops.rawRunStarts, stops.depths, r.roleAt))
  }

  /** Each record's frame and depth are those the call-stack reconstruction gives it. */
  ghost predicate FramesMatch(frames: seq<Option<Frames.WasmFrame>>, depths: seq<nat>, r: Resolved)
    requires r.Valid()
  {
    && |frames| == |r.records| == |depths|
    && forall i :: 0 <= i < |r.records| ==>
         && frames[i] == Frames.FrameAt(r.records, r.positions, r.functionRanges, i)
         && depths[i] == Frames.Depth(frames[i])
  }

  /** The raw run starts are exactly the records the history predicate calls starts. */
  ghost predicate AreRunStarts(raw: seq<nat>, depths: seq<nat>, r: Resolved) {
    var t := RunTrace(r, depths);
    t.Valid() && forall i: nat :: i in raw <==> i < |r.positions| && RunStarts.IsStart(t, i)
  }

  /** Every raw run start is a visible record. */
  lemma StartsAreVisible(raw: seq<nat>, depths: seq<nat>, visible: seq<nat>, r: Resolved)
    requires r.Valid() && AreRunStarts(raw, depths, r) && ListsVisible(visible, r.positions, |r.positions|)
    ensures StatementStops.DrawnFrom(raw, visible)
  {
    forall i | i in raw
      ensures i in visible
    {
      assert RunStarts.IsStart(RunTrace(r, depths), i);
      assert VisibleRecord(r.positions, i);
    }
  }

  lemma StartsBounded(raw: seq<nat>, depths: seq<nat>, r: Resolved)
    requires r.Valid() && |depths| == |r.records| && AreRunStarts(raw, depths, r)
    ensures forall k :: 0 <= k < |raw| ==> raw[k] < |depths|
  {
    assert forall k :: 0 <= k < |raw| ==> raw[k] in raw;
  }

  /** The stops under either setting of "just my code". */
  function Shown(statements: seq<nat>, justMyCode: bool, r: Resolved): (s: seq<nat>)
    ensures StatementStops.DrawnFrom(s, statements)
    ensures s == [] <==> statements == []
    ensures Ascending(statements) ==> Ascending(s)
  {
    if justMyCode then StatementStops.MyCodeStops(statements, r.isWorkspace) else statements
  }

  /**
   * `buildStopModel`: visible records, raw run starts and statement stops are successive filters of
   * one trace, all ascending, the last two empty together.
   */
  method BuildStopModel(r: Resolved, justMyCode: bool) returns (stops: StopPoints)
    requires r.Valid()
    ensures WellFormed(stops, r)
    ensures FramesMatch(stops.frames, stops.depths, r)
    ensures AreRunStarts(stops.rawRunStarts, stops.depths, r)
    ensures exists statements ::
              AreStatements(statements, stops, r) && stops.runStarts == Shown(statements, justMyCode, r)
  {
    hide ListsVisible, Indexes, Shown, Ascending;
    var index, visible := IndexPositions(r.positions);
    var frames, ranges := Frames.ComputeFrames(r.records, r.positions, r.functionRanges);
    var depths := DepthsOf(frames);
    var raw := RunStarts.ComputeRunStarts(RunTrace(r, depths));
    assert AreRunStarts(raw, depths, r);
    hide AreRunStarts;
    StartsBounded(raw, depths, r);
    var statements := StatementStops.FilterStatementStops(raw, depths, r.roleAt);
    var runStarts := Shown(statements, justMyCode, r);
    stops := StopPoints(
      index, visible, frames, ranges, depths, raw, runStarts,
      FirstOf(runStarts, FirstOf(visible, 0)),
      LastOf(runStarts, LastOf(visible, Max(0, |r.records| - 1))));
    StartsAreVisible(raw, depths, visible, r);
    assert AreStatements(statements, stops, r);
    assert FramesMatch(frames, depths, r);
  }
}
