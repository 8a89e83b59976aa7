/** The stepping engine (src/debugAdapter/replayCursor.ts over src/debugAdapter/TraceModel.ts). */
module Replay {
  // Every move a user makes, as a cursor move over the trace's stop points.

  import opened Prelude
  import opened StopModel
  import RunStarts

  datatype Granularity = StatementSteps | InstructionSteps

  datatype StepOutcome = Stopped | Terminated

  datatype RunOutcome = BreakpointHit | Clamped

  /** `depth <= maxDepth`, where None stands for Infinity. */
  predicate Within(depth: nat, maxDepth: Option<int>) {
    maxDepth.None? || depth <= maxDepth.value
  }

  ghost predicate InTrace(points: seq<nat>, depths: seq<nat>) {
    forall k :: 0 <= k < |points| ==> points[k] < |depths|
  }

  /** A stop point a step within `maxDepth` may rest on. */
  predicate Reaches(depths: seq<nat>, i: nat, maxDepth: Option<int>) {
    i < |depths| && Within(depths[i], maxDepth)
  }

  // ----- Where each move lands -----

  /** `target` is the least stop point after `cursor` within `maxDepth`; None when there is none. */
  ghost predicate IsNextStop(
    points: seq<nat>, depths: seq<nat>, cursor: nat, maxDepth: Option<int>, target: Option<nat>)
  {
    match target
    case None => forall i :: i in points && i > cursor ==> !Reaches(depths, i, maxDepth)
    case Some(t) =>
      && t in points && t > cursor && Reaches(depths, t, maxDepth)
      && forall i :: i in points && cursor < i < t ==> !Reaches(depths, i, maxDepth)
  }

  /** `target` is the greatest stop point before `cursor` within `maxDepth`; None when there is none. */
  ghost predicate IsPreviousStop(
    points: seq<nat>, depths: seq<nat>, cursor: nat, maxDepth: Option<int>, target: Option<nat>)
  {
    match target
    case None => forall i :: i in points && i < cursor ==> !Reaches(depths, i, maxDepth)
    case Some(t) =>
      && t in points && t < cursor && Reaches(depths, t, maxDepth)
      && forall i :: i in points && t < i < cursor ==> !Reaches(depths, i, maxDepth)
  }

  function NextStop(points: seq<nat>, depths: seq<nat>, cursor: nat, maxDepth: Option<int>): Option<nat> {
    if points == [] then None
    else if points[0] > cursor && Reaches(depths, points[0], maxDepth) then Some(points[0])
    else NextStop(points[1..], depths, cursor, maxDepth)
  }

  function PreviousStop(points: seq<nat>, depths: seq<nat>, cursor: nat, maxDepth: Option<int>): Option<nat> {
    if points == [] then None
    else
      var last := points[|points| - 1];
      if last < cursor && Reaches(depths, last, maxDepth) then Some(last)
      else PreviousStop(points[..|points| - 1], depths, cursor, maxDepth)
  }

  lemma {:induction false} NextStopIsNext(points: seq<nat>, depths: seq<nat>, cursor: nat, maxDepth: Option<int>)
    requires Ascending(points)
    ensures IsNextStop(points, depths, cursor, maxDepth, NextStop(points, depths, cursor, maxDepth))
  {
    if points != [] {
      NextStopIsNext(points[1..], depths, cursor, maxDepth);
      assert forall i :: i in points <==> i == points[0] || i in points[1..];
    }
  }

  lemma {:induction false} PreviousStopIsPrevious(
    points: seq<nat>, depths: seq<nat>, cursor: nat, maxDepth: Option<int>)
    requires Ascending(points)
    ensures IsPreviousStop(points, depths, cursor, maxDepth, PreviousStop(points, depths, cursor, maxDepth))
  {
    if points != [] {
      var n := |points| - 1;
      PreviousStopIsPrevious(points[..n], depths, cursor, maxDepth);
      assert forall i :: i in points <==> i == points[n] || i in points[..n];
    }
  }

  function HitAfter(hits: set<nat>, cursor: nat, n: nat): (r: Option<nat>)
    ensures match r
            case None => forall i :: cursor < i < n ==> i !in hits
            case Some(t) => cursor < t < n && t in hits && forall i :: cursor < i < t ==> i !in hits
    decreases n - cursor
  {
    if cursor + 1 >= n then None
    else if cursor + 1 in hits then Some(cursor + 1)
    else HitAfter(hits, cursor + 1, n)
  }

  function HitBefore(hits: set<nat>, cursor: nat): (r: Option<nat>)
    ensures match r
            case None => forall i :: 0 <= i < cursor ==> i !in hits
            case Some(t) => t < cursor && t in hits && forall i :: t < i < cursor ==> i !in hits
  {
    if cursor == 0 then None
    else if cursor - 1 in hits then Some(cursor - 1)
    else HitBefore(hits, cursor - 1)
  }

  // ----- The commands as functions of the cursor -----

  predicate HasStatementStops(stops: StopPoints, g: Granularity) {
    g == StatementSteps && stops.runStarts != []
  }

  function Points(stops: StopPoints, g: Granularity): seq<nat> {
    if HasStatementStops(stops, g) then stops.runStarts else stops.visibleIndices
  }

  function StepForwardTo(stops: StopPoints, cursor: nat, g: Granularity, maxDepth: Option<int>): (nat, StepOutcome) {
    var points := Points(stops, g);
    var target := NextStop(points, stops.depths, cursor, maxDepth);
    if target.Some? then (target.value, Stopped)
    else if HasStatementStops(stops, g) then (cursor, Terminated)
    else (LastOf(points, cursor), Stopped)
  }

  function StepBackwardTo(stops: StopPoints, cursor: nat, g: Granularity, maxDepth: Option<int>): nat {
    var points := Points(stops, g);
    var target := PreviousStop(points, stops.depths, cursor, maxDepth);
    if target.Some? then target.value else FirstOf(points, cursor)
  }

  function RunForwardTo(stops: StopPoints, cursor: nat, hits: set<nat>, n: nat): (nat, RunOutcome) {
    var target := HitAfter(hits, cursor, n);
    if target.Some? then (target.value, BreakpointHit) else (stops.lastStopPoint, Clamped)
  }

  function RunBackwardTo(stops: StopPoints, cursor: nat, hits: set<nat>): (nat, RunOutcome) {
    var target := HitBefore(hits, cursor);
    if target.Some? then (target.value, BreakpointHit) else (stops.firstStopPoint, Clamped)
  }

  // ----- Where each command comes to rest -----

  /** A continue stops at the nearest hit ahead; with none, at the last stop point. */
  ghost predicate RunsForward(stops: StopPoints, cursor: nat, hits: set<nat>, n: nat, i: nat, outcome: RunOutcome) {
    && (outcome == Clamped <==> forall h :: h in hits && h < n ==> h <= cursor)
    && (outcome == BreakpointHit ==>
          i in hits && cursor < i < n && forall h :: h in hits && cursor < h < n ==> i <= h)
    && (outcome == Clamped && stops.runStarts != [] ==> IsGreatest(stops.runStarts, i))
    && (outcome == Clamped && stops.runStarts == [] && stops.visibleIndices != [] ==>
          IsGreatest(stops.visibleIndices, i))
  }

  /** A reverse-continue stops at the nearest hit behind; with none, at the first stop point. */
  ghost predicate RunsBackward(stops: StopPoints, cursor: nat, hits: set<nat>, i: nat, outcome: RunOutcome) {
    && (outcome == Clamped <==> forall h :: h in hits ==> h >= cursor)
    && (outcome == BreakpointHit ==> i in hits && i < cursor && forall h :: h in hits && h < cursor ==> h <= i)
    && (outcome == Clamped && stops.runStarts != [] ==> IsLeast(stops.runStarts, i))
    && (outcome == Clamped && stops.runStarts == [] && stops.visibleIndices != [] ==> IsLeast(stops.visibleIndices, i))
  }

  /**
   * A step goes to the nearest stop ahead that is shallow enough. With none, a statement step ends the session
   * where it is, and an instruction step, or any without statement stops, goes to the last visible record.
   */
  ghost predicate StepsForward(
    stops: StopPoints, cursor: nat, g: Granularity, maxDepth: Option<int>, i: nat, outcome: StepOutcome)
  {
    var statements := g == StatementSteps && stops.runStarts != [];
    var points := if statements then stops.runStarts else stops.visibleIndices;
    if exists j :: j in points && j > cursor && Reaches(stops.depths, j, maxDepth) then
      && outcome == Stopped && i in points && i > cursor && Reaches(stops.depths, i, maxDepth)
      && forall j :: j in points && j > cursor && Reaches(stops.depths, j, maxDepth) ==> i <= j
    else if statements then outcome == Terminated && i == cursor
    else outcome == Stopped && if points == [] then i == cursor else IsGreatest(points, i)
  }

  /** A step back goes to the nearest stop behind that is shallow enough; with none, to the first stop. */
  ghost predicate StepsBackward(stops: StopPoints, cursor: nat, g: Granularity, maxDepth: Option<int>, i: nat) {
    var points := if g == StatementSteps && stops.runStarts != [] then stops.runStarts else stops.visibleIndices;
    if exists j :: j in points && j < cursor && Reaches(stops.depths, j, maxDepth) then
      && i in points && i < cursor && Reaches(stops.depths, i, maxDepth)
      && forall j :: j in points && j < cursor && Reaches(stops.depths, j, maxDepth) ==> j <= i
    else if points == [] then i == cursor
    else IsLeast(points, i)
  }

  lemma ContinueLands(stops: StopPoints, cursor: nat, hits: set<nat>, n: nat)
    requires EndsMeet(stops, n)
    ensures var (i, outcome) := RunForwardTo(stops, cursor, hits, n); RunsForward(stops, cursor, hits, n, i, outcome)
  {
    hide IsGreatest, IsLeast;
  }

  lemma ReverseContinueLands(stops: StopPoints, cursor: nat, hits: set<nat>, n: nat)
    requires EndsMeet(stops, n)
    ensures var (i, outcome) := RunBackwardTo(stops, cursor, hits); RunsBackward(stops, cursor, hits, i, outcome)
  {
    hide IsGreatest, IsLeast;
  }

  lemma StepLands(stops: StopPoints, cursor: nat, g: Granularity, maxDepth: Option<int>)
    requires Ascending(stops.visibleIndices) && Ascending(stops.runStarts)
    ensures var (i, outcome) := StepForwardTo(stops, cursor, g, maxDepth);
            StepsForward(stops, cursor, g, maxDepth, i, outcome)
  {
    hide IsGreatest, IsLeast, Reaches, NextStop, Ascending;
    NextStopIsNext(Points(stops, g), stops.depths, cursor, maxDepth);
    if stops.visibleIndices != [] {
      AscendingEnds(stops.visibleIndices);
    }
  }

  lemma StepBackLands(stops: StopPoints, cursor: nat, g: Granularity, maxDepth: Option<int>)
    requires Ascending(stops.visibleIndices) && Ascending(stops.runStarts)
    ensures StepsBackward(stops, cursor, g, maxDepth, StepBackwardTo(stops, cursor, g, maxDepth))
  {
    hide IsGreatest, IsLeast, Reaches, PreviousStop, Ascending;
    PreviousStopIsPrevious(Points(stops, g), stops.depths, cursor, maxDepth);
    if Points(stops, g) != [] {
      AscendingEnds(Points(stops, g));
    }
  }

  // ----- The objects -----

  class TraceModel {
    const length: nat
    var cursor: nat

    constructor (length: nat)
      ensures this.length == length && cursor == 0
    {
      this.length := length;
      cursor := 0;
    }

    /** A record of the trace is reached exactly; outside it the cursor rests on the nearer end. */
    method Seek(index: int)
      modifies this
      ensures if length == 0 then cursor == 0 else cursor < length
      ensures 0 <= index < length ==> cursor == index
      ensures index < 0 ==> cursor == 0
      ensures index >= length > 0 ==> cursor == length - 1
    {
      cursor := Max(0, Min(index, Max(0, length - 1)));
    }

    method NextIndexInSet(hits: set<nat>) returns (r: Option<nat>)
      ensures r == HitAfter(hits, cursor, length)
    {
      var i := cursor + 1;
      while i < length
        invariant cursor + 1 <= i
        invariant forall k :: cursor < k < i && k < length ==> k !in hits
      {
        if i in hits {
          return Some(i);
        }
        i := i + 1;
      }
      return None;
    }

    method PrevIndexInSet(hits: set<nat>) returns (r: Option<nat>)
      ensures r == HitBefore(hits, cursor)
    {
      var i: int := cursor - 1;
      while i >= 0
        invariant -1 <= i < cursor
        invariant forall k: nat :: i < k < cursor ==> k !in hits
      {
        if i in hits {
          return Some(i);
        }
        i := i - 1;
      }
      return None;
    }
  }

  class ReplayCursor {
    const model: TraceModel
    const stops: StopPoints

    constructor (model: TraceModel, stops: StopPoints)
      ensures this.model == model && this.stops == stops
    {
      this.model := model;
      this.stops := stops;
    }

    /** Every stop point is a record of the trace, in order, the ends are ends, and the cursor is in the trace. */
    ghost predicate Valid()
      reads model
    {
      && |stops.depths| == model.length && model.cursor <= Max(0, model.length - 1)
      && InTrace(stops.visibleIndices, stops.depths) && InTrace(stops.runStarts, stops.depths)
      && stops.firstStopPoint <= Max(0, model.length - 1)
      && stops.lastStopPoint <= Max(0, model.length - 1)
      && Ascending(stops.visibleIndices) && Ascending(stops.runStarts) && EndsMeet(stops, model.length)
    }

    method ToEntry()
      requires Valid()
      modifies model
      ensures Valid()
      ensures model.cursor == stops.firstStopPoint
      ensures stops.runStarts != [] ==> IsLeast(stops.runStarts, model.cursor)
      ensures stops.runStarts == [] && stops.visibleIndices != [] ==> IsLeast(stops.visibleIndices, model.cursor)
    {
      model.Seek(stops.firstStopPoint);
    }

    method StepForward(g: Granularity, maxDepth: Option<int>) returns (outcome: StepOutcome)
      requires Valid()
      modifies model
      ensures Valid()
      ensures (model.cursor, outcome) == StepForwardTo(stops, old(model.cursor), g, maxDepth)
      ensures StepsForward(stops, old(model.cursor), g, maxDepth, model.cursor, outcome)
    {
      hide StepsForward, EndsMeet, Ascending;
      StepLands(stops, model.cursor, g, maxDepth);
      var points := Points(stops, g);
      for k := 0 to |points|
        invariant model.cursor == old(model.cursor)
        invariant NextStop(points, stops.depths, model.cursor, maxDepth)
               == NextStop(points[k..], stops.depths, model.cursor, maxDepth)
      {
        var i := points[k];
        if i > model.cursor && Within(stops.depths[i], maxDepth) {
          model.Seek(i);
          return Stopped;
        }
        assert points[k..][1..] == points[k + 1..];
      }
      if HasStatementStops(stops, g) {
        return Terminated;
      }
      if |points| > 0 {
        model.Seek(points[|points| - 1]);
      }
      return Stopped;
    }

    method StepBackward(g: Granularity, maxDepth: Option<int>)
      requires Valid()
      modifies model
      ensures Valid()
      ensures model.cursor == StepBackwardTo(stops, old(model.cursor), g, maxDepth)
      ensures StepsBackward(stops, old(model.cursor), g, maxDepth, model.cursor)
    {
      hide StepsBackward, EndsMeet, Ascending;
      StepBackLands(stops, model.cursor, g, maxDepth);
      var points := Points(stops, g);
      if |points| == 0 {
        return;
      }
      var k := |points| - 1;
      assert points[..|points|] == points;
      while k >= 0
        invariant -1 <= k < |points| && model.cursor == old(model.cursor)
        invariant PreviousStop(points, stops.depths, model.cursor, maxDepth)
               == PreviousStop(points[..k + 1], stops.depths, model.cursor, maxDepth)
      {
        var i := points[k];
        if i < model.cursor && Within(stops.depths[i], maxDepth) {
          model.Seek(i);
          return;
        }
        assert points[..k + 1][..k] == points[..k];
        k := k - 1;
      }
      model.Seek(points[0]);
    }

    method RunForward(hits: set<nat>) returns (outcome: RunOutcome)
      requires Valid()
      modifies model
      ensures Valid()
      ensures (model.cursor, outcome) == RunForwardTo(stops, old(model.cursor), hits, model.length)
      ensures RunsForward(stops, old(model.cursor), hits, model.length, model.cursor, outcome)
    {
      hide RunsForward, EndsMeet, Ascending;
      ContinueLands(stops, model.cursor, hits, model.length);
      var target := model.NextIndexInSet(hits);
      model.Seek(if target.Some? then target.value else stops.lastStopPoint);
      return if target.None? then Clamped else BreakpointHit;
    }

    method RunBackward(hits: set<nat>) returns (outcome: RunOutcome)
      requires Valid()
      modifies model
      ensures Valid()
      ensures (model.cursor, outcome) == RunBackwardTo(stops, old(model.cursor), hits)
      ensures RunsBackward(stops, old(model.cursor), hits, model.cursor, outcome)
    {
      hide RunsBackward, EndsMeet, Ascending;
      ReverseContinueLands(stops, model.cursor, hits, model.length);
      var target := model.PrevIndexInSet(hits);
      model.Seek(if target.Some? then target.value else stops.firstStopPoint);
      return if target.None? then Clamped else BreakpointHit;
    }
  }

  /** A built stop model meets the cursor's requirement. */
  lemma WellFormedStopsAreInTrace(stops: StopPoints, r: Resolved)
    requires r.Valid() && WellFormed(stops, r)
    ensures InTrace(stops.visibleIndices, stops.depths) && InTrace(stops.runStarts, stops.depths)
    ensures stops.firstStopPoint <= Max(0, |r.records| - 1) && stops.lastStopPoint <= Max(0, |r.records| - 1)
  {
    forall k | 0 <= k < |stops.visibleIndices| ensures stops.visibleIndices[k] < |stops.depths| {
      assert stops.visibleIndices[k] in stops.visibleIndices;
    }
    forall k | 0 <= k < |stops.runStarts| ensures stops.runStarts[k] < |stops.depths| {
      assert stops.runStarts[k] in stops.runStarts;
    }
  }

  lemma BuiltStopsAreValid(stops: StopPoints, r: Resolved)
    requires r.Valid() && WellFormed(stops, r)
    ensures Ascending(stops.visibleIndices) && Ascending(stops.runStarts) && EndsMeet(stops, |r.records|)
    ensures InTrace(stops.visibleIndices, stops.depths) && InTrace(stops.runStarts, stops.depths)
  {
    StopModelEnds(stops, r);
    hide EndsMeet;
    WellFormedStopsAreInTrace(stops, r);
  }

  // ----- Whole sessions -----

  datatype Command =
    | Entry
    | Forward(g: Granularity, maxDepth: Option<int>)
    | Backward(g: Granularity, maxDepth: Option<int>)
    | Continue(hits: set<nat>)
    | ReverseContinue(hits: set<nat>)

  function After(stops: StopPoints, cursor: nat, command: Command): nat {
    match command
    case Entry => stops.firstStopPoint
    case Forward(g, maxDepth) => StepForwardTo(stops, cursor, g, maxDepth).0
    case Backward(g, maxDepth) => StepBackwardTo(stops, cursor, g, maxDepth)
    case Continue(hits) => RunForwardTo(stops, cursor, hits, |stops.depths|).0
    case ReverseContinue(hits) => RunBackwardTo(stops, cursor, hits).0
  }

  function AfterAll(stops: StopPoints, cursor: nat, commands: seq<Command>): nat {
    if commands == [] then cursor
    else After(stops, AfterAll(stops, cursor, commands[..|commands| - 1]), commands[|commands| - 1])
  }

  /** Breakpoints only ever resolve to visible records (`ResolvedHitsAreVisible` in Breakpoints). */
  ghost predicate HitsVisible(stops: StopPoints, command: Command) {
    match command
    case Continue(hits) => forall i :: i in hits ==> i in stops.visibleIndices
    case ReverseContinue(hits) => forall i :: i in hits ==> i in stops.visibleIndices
    case _ => true
  }

  /** One command, from a visible record, comes to rest on a visible record. */
  lemma CommandRestsOnVisible(stops: StopPoints, r: Resolved, cursor: nat, command: Command)
    requires r.Valid() && WellFormed(stops, r) && stops.visibleIndices != []
    requires command == Entry || cursor in stops.visibleIndices
    requires HitsVisible(stops, command)
    ensures After(stops, cursor, command) in stops.visibleIndices
  {
    match command
    case Entry =>
    case Forward(g, maxDepth) =>
      NextStopIsNext(Points(stops, g), stops.depths, cursor, maxDepth);
    case Backward(g, maxDepth) =>
      PreviousStopIsPrevious(Points(stops, g), stops.depths, cursor, maxDepth);
    case Continue(_) =>
    case ReverseContinue(_) =>
  }

  /**
   * After entry, whatever sequence of steps and runs follows, at either granularity and with any
   * breakpoints, the cursor rests on a visible record whenever the trace has one.
   */
  lemma {:induction false} SessionRestsOnVisible(stops: StopPoints, r: Resolved, start: nat, commands: seq<Command>)
    requires r.Valid() && WellFormed(stops, r) && stops.visibleIndices != []
    requires commands != [] && commands[0] == Entry
    requires forall k :: 0 <= k < |commands| ==> HitsVisible(stops, commands[k])
    ensures AfterAll(stops, start, commands) in stops.visibleIndices
  {
    var n := |commands| - 1;
    if n > 0 {
      SessionRestsOnVisible(stops, r, start, commands[..n]);
    }
    CommandRestsOnVisible(stops, r, AfterAll(stops, start, commands[..n]), commands[n]);
  }

  /** Pressing step-in `presses` times from the entry stop, at statement granularity. */
  function StepIns(stops: StopPoints, presses: nat): (nat, StepOutcome) {
    if presses == 0 then (stops.firstStopPoint, Stopped)
    else StepForwardTo(stops, StepIns(stops, presses - 1).0, StatementSteps, None)
  }

  /** Step-in visits exactly the statement stops, in order, and press |runStarts| ends the session. */
  lemma {:induction false} StepInVisitsRunStarts(stops: StopPoints, r: Resolved, presses: nat)
    requires r.Valid() && WellFormed(stops, r) && stops.runStarts != []
    requires presses <= |stops.runStarts|
    ensures StepIns(stops, presses) ==
            if presses < |stops.runStarts| then (stops.runStarts[presses], Stopped)
            else (stops.runStarts[presses - 1], Terminated)
  {
    if presses > 0 {
      StepInVisitsRunStarts(stops, r, presses - 1);
      WellFormedStopsAreInTrace(stops, r);
      var points := stops.runStarts;
      NextStopIsNext(points, stops.depths, points[presses - 1], None);
      var target := NextStop(points, stops.depths, points[presses - 1], None);
      if presses < |points| {
        assert points[presses] in points;
        var k :| 0 <= k < |points| && points[k] == target.value;
        assert k == presses;
      }
    }
  }

  // ----- Time travel mirrors -----

  /**
   * A step-over from a stop skips only strictly deeper stops, and step-back undoes it exactly when
   * it landed at the same depth, or left from the trace's first stop.
   */
  lemma StepOverUndoneIff(stops: StopPoints, r: Resolved, g: Granularity, p: nat, q: nat)
    requires r.Valid() && WellFormed(stops, r)
    requires p in Points(stops, g) && p < |stops.depths|
    requires NextStop(Points(stops, g), stops.depths, p, Some(stops.depths[p])) == Some(q)
    ensures q < |stops.depths| && stops.depths[q] <= stops.depths[p]
    ensures forall i :: i in Points(stops, g) && p < i < q && i < |stops.depths| ==> stops.depths[i] > stops.depths[p]
    ensures StepBackwardTo(stops, q, g, Some(stops.depths[q])) == p <==>
            stops.depths[q] == stops.depths[p] || p == Points(stops, g)[0]
  {
    var points := Points(stops, g);
    WellFormedStopsAreInTrace(stops, r);
    NextStopIsNext(points, stops.depths, p, Some(stops.depths[p]));
    PreviousStopIsPrevious(points, stops.depths, q, Some(stops.depths[q]));
    var back := PreviousStop(points, stops.depths, q, Some(stops.depths[q]));
    forall i | i in points ensures i < |stops.depths| {
    }
    if stops.depths[q] == stops.depths[p] {
      assert Reaches(stops.depths, p, Some(stops.depths[q]));
    }
    assert back.Some? ==> back.value in points && back.value <= p;
  }

  /** A trace of three records, each on a line of its own: the first calls, the second returns to the caller. */
  function CalleeTrace(): (r: Resolved)
    ensures r.Valid()
  {
    Resolved(
      [Frames.Call, Frames.Return, Frames.Plain], [Some(0), Some(10), Some(1)], None,
      (i: nat) => Some(if i == 0 then "caller:1" else if i == 1 then "callee:1" else "caller:2"),
      (i: nat) => StatementStops.Statement, (i: nat) => true)
  }

  function CallerFrame(): Frames.WasmFrame { Frames.WasmFrame(-1, 0, None, None) }

  function CalleeFrame(): Frames.WasmFrame { Frames.WasmFrame(-1, 1, Some(0), Some(CallerFrame())) }

  /** Its stop model: every record starts a statement. */
  function CalleeStops(): StopPoints {
    StopPoints(
      map[0 := [0], 10 := [1], 1 := [2]], [0, 1, 2],
      [Some(CallerFrame()), Some(CalleeFrame()), Some(CallerFrame())], [], [0, 1, 0], [0, 1, 2], [0, 1, 2], 0, 2)
  }

  lemma CalleeStopsAreWellFormed()
    ensures WellFormed(CalleeStops(), CalleeTrace())
  {
    var positions := CalleeTrace().positions;
    var all := CalleeStops().visibleIndices;
    forall i: nat ensures i in all <==> i < 3 && VisibleRecord(positions, i) {
      assert all[0] in all && all[1] in all && all[2] in all;
    }
    assert ListsAt([0], positions, 0, 3) && ListsAt([1], positions, 10, 3) && ListsAt([2], positions, 1, 3);
  }

  lemma CalleeFramesMatch()
    ensures FramesMatch(CalleeStops().frames, CalleeStops().depths, CalleeTrace())
  {
    var records := CalleeTrace().records;
    assert Frames.OpcodeFrame(records, 0) == CallerFrame();
    assert Frames.OpcodeFrame(records, 1) == CalleeFrame();
    assert Frames.OpcodeFrame(records, 2) == CallerFrame();
  }

  lemma CalleeRunStarts()
    ensures AreRunStarts(CalleeStops().rawRunStarts, CalleeStops().depths, CalleeTrace())
  {
    var t := RunTrace(CalleeTrace(), CalleeStops().depths);
    var all := CalleeStops().rawRunStarts;
    assert t.lineKey(0) != t.lineKey(2);
    forall i: nat ensures i in all <==> i < 3 && RunStarts.IsStart(t, i) {
      assert all[0] in all && all[1] in all && all[2] in all;
      assert i < 3 ==> RunStarts.Mapped(t, i) && !RunStarts.ExtendsRun(t, i);
    }
  }

  lemma CalleeStatements()
    ensures AreStatements([0, 1, 2], CalleeStops(), CalleeTrace())
    ensures CalleeStops().runStarts == Shown([0, 1, 2], false, CalleeTrace())
  {
    var raw := CalleeStops().rawRunStarts;
    var runs := StatementStops.RunsOf(raw, CalleeStops().depths, CalleeTrace().roleAt);
    assert forall p: nat :: p < 3 ==> StatementStops.Kept(runs, p);
    assert raw[0] in raw && raw[1] in raw && raw[2] in raw;
  }

  /**
   * A trace, and what `buildStopModel` makes of it, on which step-back does not return: the step-over left a
   * callee for its caller, whose earlier stop is nearer.
   */
  lemma StepOverNotUndone()
    ensures WellFormed(CalleeStops(), CalleeTrace())
    ensures FramesMatch(CalleeStops().frames, CalleeStops().depths, CalleeTrace())
    ensures AreRunStarts(CalleeStops().rawRunStarts, CalleeStops().depths, CalleeTrace())
    ensures exists statements ::
              && AreStatements(statements, CalleeStops(), CalleeTrace())
              && CalleeStops().runStarts == Shown(statements, false, CalleeTrace())
    ensures Points(CalleeStops(), StatementSteps) == [0, 1, 2] && CalleeStops().depths == [0, 1, 0]
    ensures StepForwardTo(CalleeStops(), 1, StatementSteps, Some(1)) == (2, Stopped)
    ensures StepBackwardTo(CalleeStops(), 2, StatementSteps, Some(0)) == 0
  {
    hide WellFormed, FramesMatch, AreRunStarts, AreStatements, Shown;
    CalleeStopsAreWellFormed();
    CalleeFramesMatch();
    CalleeRunStarts();
    CalleeStatements();
    NextOfThree([0, 1, 0]);
    PreviousOfThree([0, 1, 0]);
  }

  lemma NextOfThree(depths: seq<nat>)
    requires |depths| == 3 && depths[2] <= 1
    ensures NextStop([0, 1, 2], depths, 1, Some(1)) == Some(2)
  {
    var points: seq<nat> := [0, 1, 2];
    NextStopIsNext(points, depths, 1, Some(1));
    assert points[2] in points && Reaches(depths, 2, Some(1));
  }

  lemma PreviousOfThree(depths: seq<nat>)
    requires depths == [0, 1, 0]
    ensures PreviousStop([0, 1, 2], depths, 2, Some(0)) == Some(0)
  {
    var points: seq<nat> := [0, 1, 2];
    PreviousStopIsPrevious(points, depths, 2, Some(0));
    assert points[0] in points && Reaches(depths, 0, Some(0)) && !Reaches(depths, 1, Some(0));
  }

  /** From a breakpoint hit, a continue that hits again is undone by reverse-continue, and the other way round. */
  lemma RunsMirror(stops: StopPoints, hits: set<nat>, p: nat, q: nat, n: nat)
    requires p in hits && q in hits && p < n && q < n
    ensures RunForwardTo(stops, p, hits, n) == (q, BreakpointHit)
       <==> RunBackwardTo(stops, q, hits) == (p, BreakpointHit)
  {
  }

  /** The records successive continues hit after `cursor`, until one clamps. */
  function ForwardHits(hits: set<nat>, cursor: nat, n: nat): seq<nat>
    decreases n - cursor
  {
    var target := HitAfter(hits, cursor, n);
    if target.None? then [] else [target.value] + ForwardHits(hits, target.value, n)
  }

  /** The records successive reverse-continues hit before `cursor`. */
  function BackwardHits(hits: set<nat>, cursor: nat): seq<nat>
    decreases cursor
  {
    var target := HitBefore(hits, cursor);
    if target.None? then [] else [target.value] + BackwardHits(hits, target.value)
  }

  function Reverse(s: seq<nat>): seq<nat> {
    if s == [] then [] else Reverse(s[1..]) + [s[0]]
  }

  lemma {:induction false} ForwardHitsSplit(hits: set<nat>, cursor: nat, n: nat, m: nat)
    requires cursor < m <= n && forall i :: m <= i < n ==> i !in hits
    ensures ForwardHits(hits, cursor, n) == ForwardHits(hits, cursor, m)
    decreases n - cursor
  {
    var target := HitAfter(hits, cursor, n);
    assert target == HitAfter(hits, cursor, m);
    if target.Some? {
      if target.value + 1 < m {
        ForwardHitsSplit(hits, target.value, n, m);
      } else {
        assert HitAfter(hits, target.value, n).None? && HitAfter(hits, target.value, m).None?;
      }
    }
  }

  /** The hits from `cursor` up to and including the last hit `t` below `n` are those below `t`, then `t`. */
  lemma {:induction false} ForwardHitsSnoc(hits: set<nat>, cursor: nat, n: nat, t: nat)
    requires cursor < t < n && t in hits && forall i :: t < i < n ==> i !in hits
    ensures ForwardHits(hits, cursor, n) == ForwardHits(hits, cursor, t) + [t]
    decreases n - cursor
  {
    var target := HitAfter(hits, cursor, n);
    if target.value < t {
      assert HitAfter(hits, cursor, t) == target;
      ForwardHitsSnoc(hits, target.value, n, t);
    } else {
      assert HitAfter(hits, cursor, t).None? && HitAfter(hits, t, n).None?;
    }
  }

  /**
   * Reverse-continue from `end` visits, back to the hit `from`, exactly the records forward continue
   * visits from `from` on, in reverse order.
   */
  lemma {:induction false} HitSequencesMirror(hits: set<nat>, from: nat, end: nat)
    requires from in hits && from < end
    ensures BackwardHits(hits, end) == Reverse(ForwardHits(hits, from, end)) + [from] + BackwardHits(hits, from)
    decreases end
  {
    var last := HitBefore(hits, end).value;
    if last == from {
      assert HitAfter(hits, from, end).None?;
    } else {
      ForwardHitsSnoc(hits, from, end, last);
      ReverseSnoc(ForwardHits(hits, from, last), last);
      HitSequencesMirror(hits, from, last);
    }
  }

  lemma {:induction false} ReverseSnoc(s: seq<nat>, x: nat)
    ensures Reverse(s + [x]) == [x] + Reverse(s)
  {
    if s != [] {
      ReverseSnoc(s[1..], x);
      assert (s + [x])[1..] == s[1..] + [x];
    }
  }
}
