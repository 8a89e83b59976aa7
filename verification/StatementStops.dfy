/** Statement-granularity filtering (src/debugAdapter/stops.ts, `statementStops` and `myCodeStops`). */
module StatementStops {
  // The code scans both ways from each run start; the specification cuts the run starts into frames first,
  // with an explicit stack, and filters each frame alone.

  import opened Prelude

  datatype LineRole = Attribute | Signature | Brace | Statement

  /** The run starts in order, by call depth and by the role of their source line. */
  datatype Runs = Runs(depths: seq<nat>, roles: seq<LineRole>) {
    ghost predicate Valid() { |depths| == |roles| }
  }

  /** Run starts `p` and `q` belong to one activation: same depth, nothing shallower between them. */
  ghost predicate SameFrame(ds: seq<nat>, p: int, q: int)
    requires 0 <= p < |ds| && 0 <= q < |ds|
  {
    ds[p] == ds[q] && forall k :: Min(p, q) < k < Max(p, q) ==> ds[k] >= ds[p]
  }

  // ----- The code's predicates -----

  /** A brace is kept when the next run start is shallower, or there is none. */
  predicate KeepBrace(r: Runs, p: nat)
    requires r.Valid() && p < |r.depths|
  {
    p == |r.depths| - 1 || r.depths[p + 1] < r.depths[p]
  }

  predicate IsKeptStop(r: Runs, q: nat)
    requires r.Valid() && q < |r.depths|
  {
    r.roles[q] == Statement || (r.roles[q] == Brace && KeepBrace(r, q))
  }

  ghost predicate HasOtherStop(r: Runs, p: nat)
    requires r.Valid() && p < |r.depths|
  {
    exists q: nat :: q < |r.depths| && q != p && SameFrame(r.depths, p, q) && IsKeptStop(r, q)
  }

  ghost predicate Kept(r: Runs, p: nat)
    requires r.Valid() && p < |r.depths|
  {
    match r.roles[p]
    case Attribute => false
    case Statement => true
    case Brace => KeepBrace(r, p)
    case Signature => !HasOtherStop(r, p)
  }

  method OtherSameDepthStopInFrame(r: Runs, p: nat) returns (found: bool)
    requires r.Valid() && p < |r.depths|
    ensures found <==> HasOtherStop(r, p)
  {
    var d := r.depths[p];
    var q := p + 1;
    while q < |r.depths|
      invariant p < q <= |r.depths|
      invariant forall k :: p < k < q ==> r.depths[k] >= d && !(r.depths[k] == d && IsKeptStop(r, k))
      decreases |r.depths| - q
    {
      if r.depths[q] < d {
        break;
      }
      if r.depths[q] == d && IsKeptStop(r, q) {
        assert SameFrame(r.depths, p, q);
        return true;
      }
      q := q + 1;
    }
    assert forall o :: p < o < |r.depths| && SameFrame(r.depths, p, o) ==> !IsKeptStop(r, o);
    var q' := p - 1;
    while q' >= 0
      invariant -1 <= q' < p
      invariant forall k :: q' < k < p ==> r.depths[k] >= d && !(r.depths[k] == d && IsKeptStop(r, k))
    {
      if r.depths[q'] < d {
        break;
      }
      if r.depths[q'] == d && IsKeptStop(r, q') {
        assert SameFrame(r.depths, p, q');
        return true;
      }
      q' := q' - 1;
    }
    assert forall o :: 0 <= o < p && SameFrame(r.depths, p, o) ==> !IsKeptStop(r, o);
    return false;
  }

  /** Positions kept by the scan, ascending. */
  ghost predicate IsSelection(r: Runs, chosen: seq<nat>, n: nat)
    requires r.Valid() && n <= |r.depths|
  {
    && Ascending(chosen)
    && (forall k :: 0 <= k < |chosen| ==> chosen[k] < n)
    && forall p: nat :: p < n ==> (p in chosen <==> Kept(r, p))
  }

  method SelectStops(r: Runs) returns (chosen: seq<nat>)
    requires r.Valid()
    ensures IsSelection(r, chosen, |r.depths|)
  {
    chosen := [];
    for p := 0 to |r.depths|
      invariant IsSelection(r, chosen, p)
    {
      match r.roles[p] {
        case Attribute =>
        case Statement =>
          chosen := chosen + [p];
        case Brace =>
          if KeepBrace(r, p) {
            chosen := chosen + [p];
          }
        case Signature =>
          var other := OtherSameDepthStopInFrame(r, p);
          if !other {
            chosen := chosen + [p];
          }
      }
    }
  }

  // ----- The frame-first specification -----

  /**
   * An activation as the run starts show it: its depth, its run starts in order, and whether a
   * deeper run start follows the last of them before the activation ends.
   */
  datatype StopFrame = StopFrame(depth: nat, positions: seq<nat>, callsLast: bool)

  /** Frames still open, outermost first, and frames already returned from. */
  datatype Cut = Cut(open: seq<StopFrame>, closed: seq<StopFrame>)

  /** How many open frames a run start at depth `d` leaves open. */
  function StillOpen(open: seq<StopFrame>, d: nat): (m: nat)
    ensures m <= |open|
    ensures m > 0 ==> open[m - 1].depth <= d
    ensures forall k :: m <= k < |open| ==> open[k].depth > d
  {
    if open == [] then 0
    else if open[|open| - 1].depth > d then StillOpen(open[..|open| - 1], d)
    else |open|
  }

  function Add(c: Cut, d: nat, p: nat): Cut {
    var m := StillOpen(c.open, d);
    var closed := c.closed + c.open[m..];
    var own := StopFrame(d, [p], false);
    if m == 0 then
      Cut([own], closed)
    else
      var top := c.open[m - 1];
      if top.depth == d then
        Cut(c.open[..m - 1] + [StopFrame(d, top.positions + [p], false)], closed)
      else
        Cut(c.open[..m - 1] + [top.(callsLast := true), own], closed)
  }

  function CutAt(ds: seq<nat>, n: nat): Cut
    requires n <= |ds|
  {
    if n == 0 then Cut([], []) else Add(CutAt(ds, n - 1), ds[n - 1], n - 1)
  }

  /** Every activation of the run starts, each with its own run starts. */
  function CutFrames(ds: seq<nat>): seq<StopFrame> {
    var c := CutAt(ds, |ds|);
    c.closed + c.open
  }

  /** The frame's final brace: its last run start, with no call after it. */
  predicate IsStop(f: StopFrame, roles: seq<LineRole>, p: nat) {
    && p < |roles| && f.positions != []
    && (roles[p] == Statement || (roles[p] == Brace && p == f.positions[|f.positions| - 1] && !f.callsLast))
  }

  /** What one frame keeps, judged from that frame alone. */
  ghost predicate FrameKeeps(f: StopFrame, roles: seq<LineRole>, p: nat) {
    && p < |roles|
    && match roles[p]
       case Attribute => false
       case Statement => true
       case Brace => IsStop(f, roles, p)
       case Signature => forall q :: q in f.positions ==> !IsStop(f, roles, q)
  }

  // ----- The cut is right -----

  /** `f` is an activation of the first `n` run starts, whole so far. */
  ghost predicate FrameOf(f: StopFrame, ds: seq<nat>, n: nat)
    requires n <= |ds|
  {
    match f
    case StopFrame(depth, positions, callsLast) =>
      && positions != [] && Ascending(positions)
      && (forall k :: 0 <= k < |positions| ==> positions[k] < n && ds[positions[k]] == depth)
      && (forall q: nat {:trigger SameFrame(ds, positions[0], q)} ::
            q < n ==> (q in positions <==> SameFrame(ds, positions[0], q)))
      && var last := positions[|positions| - 1];
         callsLast <==> last + 1 < n && ds[last + 1] > depth
  }

  ghost predicate NeverLeft(f: StopFrame, ds: seq<nat>, n: nat)
    requires n <= |ds|
  {
    f.positions != [] && forall k :: f.positions[0] < k < n ==> ds[k] >= f.depth
  }

  ghost predicate OpenRight(open: seq<StopFrame>, ds: seq<nat>, n: nat)
    requires n <= |ds|
  {
    forall k :: 0 <= k < |open| ==> FrameOf(open[k], ds, n) && NeverLeft(open[k], ds, n)
  }

  ghost predicate ClosedRight(closed: seq<StopFrame>, ds: seq<nat>, n: nat)
    requires n <= |ds|
  {
    forall k :: 0 <= k < |closed| ==> FrameOf(closed[k], ds, n) && !NeverLeft(closed[k], ds, n)
  }

  /** Open frames nest: each deeper than the one it was entered from; the last holds run start `n - 1`. */
  ghost predicate Nested(open: seq<StopFrame>, n: nat) {
    && (forall j, k :: 0 <= j < k < |open| ==> open[j].depth < open[k].depth)
    && (n > 0 ==> open != [] && n - 1 in open[|open| - 1].positions)
  }

  ghost predicate IsCut(c: Cut, ds: seq<nat>, n: nat)
    requires n <= |ds|
  {
    match c
    case Cut(open, closed) =>
      OpenRight(open, ds, n) && ClosedRight(closed, ds, n) && Nested(open, n) && AllCovered(c, n)
  }

  ghost predicate AllCovered(c: Cut, n: nat) {
    forall p: nat :: p < n ==> Covered(c, p)
  }

  ghost predicate Covered(c: Cut, p: nat) {
    (exists k :: 0 <= k < |c.open| && p in c.open[k].positions)
    || exists k :: 0 <= k < |c.closed| && p in c.closed[k].positions
  }

  /** A frame with a shallower run start after it keeps its run starts for good. */
  lemma ClosedStays(f: StopFrame, ds: seq<nat>, n: nat)
    requires n < |ds| && FrameOf(f, ds, n) && !NeverLeft(f, ds, n)
    ensures FrameOf(f, ds, n + 1) && !NeverLeft(f, ds, n + 1)
  {
    var k :| f.positions[0] < k < n && ds[k] < f.depth;
    assert !SameFrame(ds, f.positions[0], n);
    var last := f.positions[|f.positions| - 1];
    assert last in f.positions && SameFrame(ds, f.positions[0], last);
    assert last < k;
  }

  /** A shallower run start closes a frame. */
  lemma Closes(f: StopFrame, ds: seq<nat>, n: nat)
    requires n < |ds| && FrameOf(f, ds, n) && ds[n] < f.depth
    ensures FrameOf(f, ds, n + 1) && !NeverLeft(f, ds, n + 1)
  {
    assert f.positions[0] in f.positions;
    assert !SameFrame(ds, f.positions[0], n);
  }

  lemma StaysOpen(f: StopFrame, ds: seq<nat>, n: nat)
    requires n < |ds| && FrameOf(f, ds, n) && NeverLeft(f, ds, n) && ds[n] > f.depth
    requires n > 0
    ensures NeverLeft(f, ds, n + 1)
    ensures FrameOf(f.(callsLast := true), ds, n + 1) || f.positions[|f.positions| - 1] != n - 1
    ensures f.positions[|f.positions| - 1] != n - 1 ==> FrameOf(f, ds, n + 1)
  {
    assert f.positions[0] in f.positions;
    assert !SameFrame(ds, f.positions[0], n);
  }

  /** The innermost surviving frame that does not end at `n - 1` was already left for a callee. */
  lemma LeftForCallee(f: StopFrame, ds: seq<nat>, n: nat)
    requires 0 < n <= |ds| && FrameOf(f, ds, n) && NeverLeft(f, ds, n)
    requires f.positions[|f.positions| - 1] != n - 1
    ensures f.callsLast
  {
    var first, last := f.positions[0], f.positions[|f.positions| - 1];
    assert last in f.positions && SameFrame(ds, first, last);
    assert first <= last < n - 1;
    assert last + 1 !in f.positions;
    SameFrameNext(ds, first, last);
  }

  lemma SameFrameNext(ds: seq<nat>, first: nat, last: nat)
    requires first <= last < |ds| - 1 && SameFrame(ds, first, last)
    ensures SameFrame(ds, first, last + 1) <==> ds[last + 1] == ds[first]
  {
  }

  lemma Extends(f: StopFrame, ds: seq<nat>, n: nat)
    requires n < |ds| && FrameOf(f, ds, n) && NeverLeft(f, ds, n) && ds[n] == f.depth
    ensures FrameOf(StopFrame(f.depth, f.positions + [n], false), ds, n + 1)
    ensures NeverLeft(StopFrame(f.depth, f.positions + [n], false), ds, n + 1)
  {
    var g := StopFrame(f.depth, f.positions + [n], false);
    assert g.positions[0] == f.positions[0] && f.positions[0] in f.positions;
    assert SameFrame(ds, f.positions[0], n);
    forall q: nat | q < n + 1 ensures q in g.positions <==> SameFrame(ds, g.positions[0], q) {
    }
  }

  lemma InNoClosedFrame(f: StopFrame, ds: seq<nat>, n: nat, q: nat)
    requires n < |ds| && FrameOf(f, ds, n) && !NeverLeft(f, ds, n) && q in f.positions
    ensures !SameFrame(ds, n, q)
  {
    var j :| f.positions[0] < j < n && ds[j] < f.depth;
    assert SameFrame(ds, f.positions[0], q);
    assert ds[q] == f.depth && j > q;
  }

  /** With no open frame at its depth, a run start opens a frame of its own. */
  lemma Opens(c: Cut, ds: seq<nat>, n: nat)
    requires n < |ds| && IsCut(c, ds, n)
    requires forall k :: 0 <= k < |c.open| ==> c.open[k].depth != ds[n]
    ensures FrameOf(StopFrame(ds[n], [n], false), ds, n + 1)
    ensures NeverLeft(StopFrame(ds[n], [n], false), ds, n + 1)
  {
    forall q: nat | q < n ensures !SameFrame(ds, n, q) {
      assert Covered(c, q);
      if k :| 0 <= k < |c.open| && q in c.open[k].positions {
        assert FrameOf(c.open[k], ds, n);
        assert ds[q] == c.open[k].depth;
      } else {
        var k :| 0 <= k < |c.closed| && q in c.closed[k].positions;
        InNoClosedFrame(c.closed[k], ds, n, q);
      }
    }
  }

  lemma OuterStaysOpen(c: Cut, ds: seq<nat>, n: nat, k: nat)
    requires 0 < n < |ds| && IsCut(c, ds, n)
    requires k < |c.open| && c.open[k].depth < ds[n]
    ensures NeverLeft(c.open[k].(callsLast := true), ds, n + 1) && NeverLeft(c.open[k], ds, n + 1)
    ensures k + 1 < |c.open| ==> FrameOf(c.open[k], ds, n + 1)
    ensures FrameOf(c.open[k].(callsLast := true), ds, n + 1)
  {
    var f, top := c.open[k], c.open[|c.open| - 1];
    StaysOpen(f, ds, n);
    assert ds[n - 1] == top.depth;
    if f.positions[|f.positions| - 1] != n - 1 {
      LeftForCallee(f, ds, n);
      assert f.(callsLast := true) == f;
    }
  }

  lemma AddClosed(c: Cut, ds: seq<nat>, n: nat)
    requires n < |ds| && IsCut(c, ds, n)
    ensures ClosedRight(Add(c, ds[n], n).closed, ds, n + 1)
  {
    hide FrameOf, NeverLeft, AllCovered, Nested;
    var m := StillOpen(c.open, ds[n]);
    var late := c.open[m..];
    assert ClosedRight(c.closed, ds, n + 1) by {
      forall k | 0 <= k < |c.closed| ensures FrameOf(c.closed[k], ds, n + 1) && !NeverLeft(c.closed[k], ds, n + 1) {
        ClosedStays(c.closed[k], ds, n);
      }
    }
    assert ClosedRight(late, ds, n + 1) by {
      forall k | 0 <= k < |late| ensures FrameOf(late[k], ds, n + 1) && !NeverLeft(late[k], ds, n + 1) {
        Closes(c.open[m + k], ds, n);
      }
    }
    ClosedConcat(c.closed, late, ds, n + 1);
  }

  lemma ClosedConcat(a: seq<StopFrame>, b: seq<StopFrame>, ds: seq<nat>, n: nat)
    requires n <= |ds| && ClosedRight(a, ds, n) && ClosedRight(b, ds, n)
    ensures ClosedRight(a + b, ds, n)
  {
  }

  lemma OpenConcat(a: seq<StopFrame>, b: seq<StopFrame>, ds: seq<nat>, n: nat)
    requires n <= |ds| && OpenRight(a, ds, n) && OpenRight(b, ds, n)
    ensures OpenRight(a + b, ds, n)
  {
  }

  /** The frames below the innermost surviving one are untouched. */
  lemma OuterStay(c: Cut, ds: seq<nat>, n: nat)
    requires n < |ds| && IsCut(c, ds, n) && StillOpen(c.open, ds[n]) > 0
    ensures OpenRight(c.open[..StillOpen(c.open, ds[n]) - 1], ds, n + 1)
  {
    var m := StillOpen(c.open, ds[n]);
    var outer := c.open[..m - 1];
    assert n > 0 by {
      assert FrameOf(c.open[0], ds, n);
    }
    forall k | 0 <= k < |outer| ensures FrameOf(outer[k], ds, n + 1) && NeverLeft(outer[k], ds, n + 1) {
      assert c.open[k].depth < c.open[m - 1].depth;
      OuterStaysOpen(c, ds, n, k);
    }
  }

  lemma AddExtends(c: Cut, ds: seq<nat>, n: nat)
    requires n < |ds| && IsCut(c, ds, n)
    requires StillOpen(c.open, ds[n]) > 0 && c.open[StillOpen(c.open, ds[n]) - 1].depth == ds[n]
    ensures OpenRight(Add(c, ds[n], n).open, ds, n + 1)
  {
    var m := StillOpen(c.open, ds[n]);
    var top := c.open[m - 1];
    OuterStay(c, ds, n);
    Extends(top, ds, n);
    OpenConcat(c.open[..m - 1], [StopFrame(ds[n], top.positions + [n], false)], ds, n + 1);
  }

  lemma NoneAtDepth(c: Cut, d: nat, n: nat)
    requires Nested(c.open, n)
    requires StillOpen(c.open, d) > 0 ==> c.open[StillOpen(c.open, d) - 1].depth != d
    ensures forall k :: 0 <= k < |c.open| ==> c.open[k].depth != d
  {
    var m: int := StillOpen(c.open, d);
    forall k | 0 <= k < |c.open| ensures c.open[k].depth != d {
      if k < m - 1 {
        assert c.open[k].depth < c.open[m - 1].depth;
      }
    }
  }

  lemma OpenPair(f: StopFrame, g: StopFrame, ds: seq<nat>, n: nat)
    requires n <= |ds|
    requires FrameOf(f, ds, n) && NeverLeft(f, ds, n) && FrameOf(g, ds, n) && NeverLeft(g, ds, n)
    ensures OpenRight([f, g], ds, n)
  {
  }

  lemma AddCalls(c: Cut, ds: seq<nat>, n: nat)
    requires 0 < n < |ds| && IsCut(c, ds, n)
    requires StillOpen(c.open, ds[n]) > 0 && c.open[StillOpen(c.open, ds[n]) - 1].depth != ds[n]
    ensures OpenRight(Add(c, ds[n], n).open, ds, n + 1)
  {
    hide FrameOf, NeverLeft, OpenRight, ClosedRight, AllCovered;
    var m := StillOpen(c.open, ds[n]);
    var top := c.open[m - 1].(callsLast := true);
    var own := StopFrame(ds[n], [n], false);
    var inner := [top, own];
    assert OpenRight(inner, ds, n + 1) by {
      NoneAtDepth(c, ds[n], n);
      Opens(c, ds, n);
      OuterStaysOpen(c, ds, n, m - 1);
      OpenPair(top, own, ds, n + 1);
    }
    assert OpenRight(c.open[..m - 1], ds, n + 1) by {
      OuterStay(c, ds, n);
    }
    OpenConcat(c.open[..m - 1], inner, ds, n + 1);
    assert Add(c, ds[n], n).open == c.open[..m - 1] + inner;
  }

  lemma AddFirst(c: Cut, ds: seq<nat>, n: nat)
    requires n < |ds| && IsCut(c, ds, n) && StillOpen(c.open, ds[n]) == 0
    ensures OpenRight(Add(c, ds[n], n).open, ds, n + 1)
  {
    Opens(c, ds, n);
  }

  lemma OpenBeforeFirst(open: seq<StopFrame>, ds: seq<nat>, n: nat)
    requires n <= |ds| && OpenRight(open, ds, n) && open != []
    ensures n > 0
  {
    assert FrameOf(open[0], ds, n);
  }

  lemma AddOpen(c: Cut, ds: seq<nat>, n: nat)
    requires n < |ds| && IsCut(c, ds, n)
    ensures OpenRight(Add(c, ds[n], n).open, ds, n + 1)
  {
    hide FrameOf, NeverLeft, OpenRight, ClosedRight, AllCovered;
    if StillOpen(c.open, ds[n]) == 0 {
      AddFirst(c, ds, n);
    } else if c.open[StillOpen(c.open, ds[n]) - 1].depth == ds[n] {
      AddExtends(c, ds, n);
    } else {
      OpenBeforeFirst(c.open, ds, n);
      AddCalls(c, ds, n);
    }
  }

  lemma AddNests(c: Cut, d: nat, p: nat)
    requires Nested(c.open, p)
    ensures Nested(Add(c, d, p).open, p + 1)
  {
  }

  lemma AddCovers(c: Cut, d: nat, n: nat, p: nat)
    requires p == n || Covered(c, p)
    ensures Covered(Add(c, d, n), p)
  {
    var c', m := Add(c, d, n), StillOpen(c.open, d);
    assert c'.closed == c.closed + c.open[m..];
    if p == n {
      assert p in c'.open[|c'.open| - 1].positions;
    } else if k :| 0 <= k < |c.open| && p in c.open[k].positions {
      if k < m {
        assert p in c'.open[k].positions;
      } else {
        assert c'.closed[|c.closed| + k - m] == c.open[k];
      }
    } else {
      var k :| 0 <= k < |c.closed| && p in c.closed[k].positions;
      assert c'.closed[k] == c.closed[k];
    }
  }

  lemma AddCoversAll(c: Cut, c': Cut, d: nat, n: nat)
    requires AllCovered(c, n) && c' == Add(c, d, n)
    ensures AllCovered(c', n + 1)
  {
    forall p: nat | p < n + 1 ensures Covered(c', p) {
      AddCovers(c, d, n, p);
    }
  }

  lemma AddIsCut(c: Cut, c': Cut, ds: seq<nat>, n: nat)
    requires 0 < n <= |ds| && IsCut(c, ds, n - 1) && c' == Add(c, ds[n - 1], n - 1)
    ensures IsCut(c', ds, n)
  {
    hide OpenRight, ClosedRight, Nested, AllCovered, Add;
    assert OpenRight(c'.open, ds, n) by { AddOpen(c, ds, n - 1); }
    assert ClosedRight(c'.closed, ds, n) by { AddClosed(c, ds, n - 1); }
    assert Nested(c'.open, n) by { AddNests(c, ds[n - 1], n - 1); }
    assert AllCovered(c', n) by { AddCoversAll(c, c', ds[n - 1], n - 1); }
  }

  lemma NothingCut(ds: seq<nat>)
    ensures IsCut(Cut([], []), ds, 0)
  {
  }

  lemma {:induction false} CutIsRight(ds: seq<nat>, n: nat) returns (c: Cut)
    requires n <= |ds|
    ensures c == CutAt(ds, n) && IsCut(c, ds, n)
  {
    hide IsCut, Add;
    if n == 0 {
      c := Cut([], []);
      NothingCut(ds);
    } else {
      var before := CutIsRight(ds, n - 1);
      c := Add(before, ds[n - 1], n - 1);
      AddIsCut(before, c, ds, n);
    }
  }

  /** Cutting gives every run start one frame, and that frame is its whole activation. */
  lemma FrameAround(ds: seq<nat>, p: nat) returns (f: StopFrame)
    requires p < |ds|
    ensures f in CutFrames(ds) && p in f.positions && FrameOf(f, ds, |ds|)
    ensures forall q: nat :: q < |ds| ==> (q in f.positions <==> SameFrame(ds, p, q))
  {
    var c := CutIsRight(ds, |ds|);
    assert Covered(c, p);
    if k :| 0 <= k < |c.open| && p in c.open[k].positions {
      f := c.open[k];
      assert CutFrames(ds)[|c.closed| + k] == f;
    } else {
      var k :| 0 <= k < |c.closed| && p in c.closed[k].positions;
      f := c.closed[k];
      assert CutFrames(ds)[k] == f;
    }
    forall q: nat | q < |ds| ensures q in f.positions <==> SameFrame(ds, p, q) {
      SameFrameShared(ds, f.positions[0], p, q);
    }
  }

  lemma SameFrameShared(ds: seq<nat>, a: nat, p: nat, q: nat)
    requires a < |ds| && p < |ds| && q < |ds| && SameFrame(ds, a, p)
    ensures SameFrame(ds, a, q) <==> SameFrame(ds, p, q)
  {
    if SameFrame(ds, a, q) {
      forall k | Min(p, q) < k < Max(p, q) ensures ds[k] >= ds[p] {
        assert Min(a, p) < k < Max(a, p) || Min(a, q) < k < Max(a, q) || k == a;
      }
    }
    if SameFrame(ds, p, q) {
      forall k | Min(a, q) < k < Max(a, q) ensures ds[k] >= ds[a] {
        assert Min(a, p) < k < Max(a, p) || Min(p, q) < k < Max(p, q) || k == p;
      }
    }
  }

  /** The scan's test for a surviving stop is the frame's own. */
  lemma StopsAgree(r: Runs, f: StopFrame, q: nat)
    requires r.Valid() && q < |r.depths| && q in f.positions && FrameOf(f, r.depths, |r.depths|)
    requires forall o: nat :: o < |r.depths| ==> (o in f.positions <==> SameFrame(r.depths, q, o))
    ensures IsKeptStop(r, q) <==> IsStop(f, r.roles, q)
    ensures KeepBrace(r, q) <==> q == f.positions[|f.positions| - 1] && !f.callsLast
  {
    var last := f.positions[|f.positions| - 1];
    assert last in f.positions;
    if q == last {
      if q + 1 < |r.depths| {
        assert q + 1 !in f.positions;
        assert !SameFrame(r.depths, q, q + 1);
      }
    } else {
      assert q < last && SameFrame(r.depths, q, last);
    }
  }

  /** `f` is one of the frames of the cut, and `p` is in it. */
  ghost predicate IsFrameOf(r: Runs, f: StopFrame, p: nat) {
    f in CutFrames(r.depths) && p in f.positions
  }

  lemma FrameIsUnique(ds: seq<nat>, f: StopFrame, p: nat)
    requires p < |ds| && f in CutFrames(ds) && p in f.positions
    ensures FrameOf(f, ds, |ds|)
    ensures forall q: nat :: q < |ds| ==> (q in f.positions <==> SameFrame(ds, p, q))
  {
    var c := CutIsRight(ds, |ds|);
    assert f in c.closed + c.open;
    forall q: nat | q < |ds| ensures q in f.positions <==> SameFrame(ds, p, q) {
      SameFrameShared(ds, f.positions[0], p, q);
    }
  }

  /** Filtering by scanning both ways keeps exactly what filtering each frame alone keeps. */
  lemma ScanIsFrameFirst(r: Runs, f: StopFrame, p: nat)
    requires r.Valid() && p < |r.depths| && IsFrameOf(r, f, p)
    ensures Kept(r, p) <==> FrameKeeps(f, r.roles, p)
  {
    FrameIsUnique(r.depths, f, p);
    StopsAgree(r, f, p);
    if r.roles[p] == Signature {
      forall q: nat | q in f.positions ensures IsStop(f, r.roles, q) <==> IsKeptStop(r, q) {
        FrameIsUnique(r.depths, f, q);
        StopsAgree(r, f, q);
      }
      if HasOtherStop(r, p) {
        var q: nat :| q < |r.depths| && q != p && SameFrame(r.depths, p, q) && IsKeptStop(r, q);
        assert q in f.positions && IsStop(f, r.roles, q);
      }
      if q :| q in f.positions && IsStop(f, r.roles, q) {
        assert q != p && SameFrame(r.depths, p, q) && IsKeptStop(r, q);
      }
    }
  }

  /** A frame that shows a signature keeps a stop of its own: step-in always has a target there. */
  lemma SignatureFrameKeepsStop(r: Runs, p: nat) returns (q: nat)
    requires r.Valid() && p < |r.depths| && r.roles[p] == Signature
    ensures q < |r.depths| && Kept(r, q) && SameFrame(r.depths, p, q) && r.depths[q] == r.depths[p]
  {
    if HasOtherStop(r, p) {
      q :| q < |r.depths| && q != p && SameFrame(r.depths, p, q) && IsKeptStop(r, q);
    } else {
      q := p;
    }
  }

  // ----- statementStops and myCodeStops -----

  function RunsOf(runStarts: seq<nat>, depths: seq<nat>, roleAt: nat -> LineRole): (r: Runs)
    requires forall k :: 0 <= k < |runStarts| ==> runStarts[k] < |depths|
    ensures r.Valid() && |r.depths| == |runStarts|
  {
    Runs(
      seq(|runStarts|, (k: int) requires 0 <= k < |runStarts| && runStarts[k] < |depths| => depths[runStarts[k]]),
      seq(|runStarts|, (k: int) requires 0 <= k < |runStarts| => roleAt(runStarts[k])))
  }

  /** Every element of `sub` is one of `s`: where both ascend, `sub` is a subsequence. */
  ghost predicate DrawnFrom(sub: seq<nat>, s: seq<nat>) {
    forall i :: i in sub ==> i in s
  }

  /** `stops` are the kept run starts, or all of them when none is kept. */
  ghost predicate AreStatementStops(stops: seq<nat>, runStarts: seq<nat>, r: Runs)
    requires r.Valid() && |r.depths| == |runStarts|
  {
    if exists p: nat :: p < |runStarts| && Kept(r, p)
    then forall p: nat :: p < |runStarts| ==> (runStarts[p] in stops <==> Kept(r, p))
    else stops == runStarts
  }

  /**
   * The statement stops: the run starts whose frame keeps them, in order, or all of them when no
   * frame keeps any.
   */
  method FilterStatementStops(runStarts: seq<nat>, depths: seq<nat>, roleAt: nat -> LineRole) returns (stops: seq<nat>)
    requires Ascending(runStarts)
    requires forall k :: 0 <= k < |runStarts| ==> runStarts[k] < |depths|
    ensures Ascending(stops) && DrawnFrom(stops, runStarts)
    ensures stops == [] <==> runStarts == []
    ensures AreStatementStops(stops, runStarts, RunsOf(runStarts, depths, roleAt))
  {
    var r := RunsOf(runStarts, depths, roleAt);
    var chosen := SelectStops(r);
    stops := seq(|chosen|, (k: int) requires 0 <= k < |chosen| && chosen[k] < |runStarts| => runStarts[chosen[k]]);
    forall p: nat | p < |runStarts| ensures runStarts[p] in stops <==> Kept(r, p) {
      if p in chosen {
        var k :| 0 <= k < |chosen| && chosen[k] == p;
        assert stops[k] == runStarts[p];
      }
      if runStarts[p] in stops {
        var k :| 0 <= k < |stops| && stops[k] == runStarts[p];
        assert chosen[k] == p;
      }
    }
    assert chosen != [] ==> chosen[0] < |runStarts| && Kept(r, chosen[0]);
    if stops == [] && runStarts != [] {
      assert forall p: nat :: p < |runStarts| ==> !Kept(r, p);
      stops := runStarts;
    }
  }

  /** `myCodeStops`: the stops in workspace source, or all of them when none is. */
  function MyCodeStops(stops: seq<nat>, isWorkspace: nat -> bool): (r: seq<nat>)
    ensures DrawnFrom(r, stops)
    ensures r == [] <==> stops == []
    ensures Ascending(stops) ==> Ascending(r)
    ensures (exists i :: i in stops && isWorkspace(i)) ==> forall i :: i in r <==> i in stops && isWorkspace(i)
  {
    FilterKeeps(isWorkspace, stops);
    var mine := Filter(isWorkspace, stops);
    if mine == [] then stops else mine
  }

  lemma {:induction false} FilterKeeps(keep: nat -> bool, s: seq<nat>)
    ensures forall i :: i in Filter(keep, s) <==> i in s && keep(i)
    ensures Ascending(s) ==> Ascending(Filter(keep, s))
  {
    if s != [] {
      FilterKeeps(keep, s[1..]);
      assert s == [s[0]] + s[1..];
      if Ascending(s) {
        var t := Filter(keep, s[1..]);
        forall j | 0 <= j < |t| ensures s[0] < t[j] {
          assert t[j] in s[1..];
        }
      }
    }
  }
}
