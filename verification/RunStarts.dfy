/** Line-run starts (src/debugAdapter/stops.ts, `computeRunStarts`). */
module RunStarts {
  import opened Prelude

  /**
   * What run starts are computed from: per record, its validated position, its call depth and its
   * line key. Line keys are an arbitrary function of the index.
   */
  datatype Trace = Trace(positions: seq<Option<int>>, depths: seq<nat>, lineKey: nat -> Option<string>) {
    ghost predicate Valid() {
      |depths| == |positions|
    }
  }

  /** Record `i` is visible and has a source line. */
  predicate Mapped(t: Trace, i: nat) {
    i < |t.positions| && t.positions[i].Some? && t.lineKey(i).Some?
  }

  predicate MappedAt(t: Trace, i: nat, depth: nat) {
    Mapped(t, i) && i < |t.depths| && t.depths[i] == depth
  }

  /** No mapped record strictly between `s` and `i` is shallower than `depth`. */
  ghost predicate NoneShallower(t: Trace, s: int, i: nat, depth: nat) {
    forall j: nat :: s < j < i && Mapped(t, j) && j < |t.depths| ==> t.depths[j] >= depth
  }

  /** No mapped record of `depth` in [s, i) is at offset `pos`. */
  ghost predicate OffsetUnused(t: Trace, s: nat, i: nat, depth: nat, pos: int) {
    forall j: nat :: s <= j < i && MappedAt(t, j, depth) ==> t.positions[j] != Some(pos)
  }

  /**
   * The history predicate: a mapped record starts a run unless it extends the run of the last start
   * at its depth, that is unless that run is still alive (no shallower mapped record since), has the
   * same line key, and has not covered this offset yet.
   */
  ghost predicate IsStart(t: Trace, i: nat)
    requires t.Valid()
    decreases i, 2
  {
    Mapped(t, i) && !ExtendsRun(t, i)
  }

  ghost predicate ExtendsRun(t: Trace, i: nat)
    requires t.Valid() && Mapped(t, i)
    decreases i, 1
  {
    var depth := t.depths[i];
    exists s: nat ::
      && s < i && LastStart(t, s, i, depth)
      && NoneShallower(t, s, i, depth)
      && t.lineKey(s) == t.lineKey(i)
      && OffsetUnused(t, s, i, depth, t.positions[i].value)
  }

  /** `s` is the last start at `depth` before record `i`. */
  ghost predicate LastStart(t: Trace, s: nat, i: nat, depth: nat)
    requires t.Valid() && s < i
    decreases i, 0
  {
    && MappedAt(t, s, depth) && IsStart(t, s)
    && forall j: nat :: s < j < i && MappedAt(t, j, depth) ==> !IsStart(t, j)
  }

  // ----- The mutable per-depth table -----

  /** The run current at one depth: its line key and the offsets it has covered. */
  datatype LineRun = LineRun(key: string, offsets: set<int>)

  /** The run in the table at `depth`, ahead of record `i`, describes the history since its start `s`. */
  ghost predicate Describes(t: Trace, run: LineRun, s: nat, i: nat, depth: nat)
    requires t.Valid() && s < i
  {
    && LastStart(t, s, i, depth)
    && NoneShallower(t, s, i, depth)
    && t.lineKey(s) == Some(run.key)
    && forall pos :: pos in run.offsets <==> !OffsetUnused(t, s, i, depth, pos)
  }

  ghost predicate HasLiveRun(t: Trace, i: nat, depth: nat)
    requires t.Valid()
  {
    exists s: nat :: s < i && LastStart(t, s, i, depth) && NoneShallower(t, s, i, depth)
  }

  /** The table row `row` at `depth` says exactly what the history up to record `i` says. */
  ghost predicate RowFaithful(t: Trace, row: Option<LineRun>, i: nat, depth: nat)
    requires t.Valid()
  {
    match row
    case None => !HasLiveRun(t, i, depth)
    case Some(run) => exists s: nat :: s < i && Describes(t, run, s, i, depth)
  }

  /** Row `depth` of the table; past its end there is no run. */
  function Row(runs: seq<Option<LineRun>>, depth: nat): Option<LineRun> {
    if depth < |runs| then runs[depth] else None
  }

  ghost predicate TableFaithful(t: Trace, runs: seq<Option<LineRun>>, i: nat)
    requires t.Valid()
  {
    forall depth: nat :: RowFaithful(t, Row(runs, depth), i, depth)
  }

  /** `runs.length = n`: truncate, or pad with undefined. */
  function Resize(runs: seq<Option<LineRun>>, n: nat): (r: seq<Option<LineRun>>)
    ensures |r| == n
    ensures forall d: nat :: d < n ==> r[d] == Row(runs, d)
  {
    if n <= |runs| then runs[..n] else runs + seq(n - |runs|, (_: int) => None)
  }

  /** A record that is unmapped, or deeper, starts no run at `depth`: one that is live was live before. */
  lemma LiveRunBefore(t: Trace, i: nat, depth: nat)
    requires t.Valid() && HasLiveRun(t, i + 1, depth)
    requires Mapped(t, i) ==> depth < t.depths[i]
    ensures HasLiveRun(t, i, depth)
  {
    var s: nat :| s < i + 1 && LastStart(t, s, i + 1, depth) && NoneShallower(t, s, i + 1, depth);
    assert LastStart(t, s, i, depth);
  }

  lemma RowUnmapped(t: Trace, row: Option<LineRun>, i: nat, depth: nat)
    requires t.Valid() && RowFaithful(t, row, i, depth) && !Mapped(t, i)
    ensures RowFaithful(t, row, i + 1, depth)
  {
    match row
    case None =>
      if HasLiveRun(t, i + 1, depth) {
        LiveRunBefore(t, i, depth);
      }
    case Some(run) =>
      var s: nat :| s < i && Describes(t, run, s, i, depth);
      assert Describes(t, run, s, i + 1, depth);
  }

  /** A mapped record leaves shallower rows alone. */
  lemma RowShallower(t: Trace, row: Option<LineRun>, i: nat, depth: nat)
    requires t.Valid() && RowFaithful(t, row, i, depth)
    requires Mapped(t, i) && depth < t.depths[i]
    ensures RowFaithful(t, row, i + 1, depth)
  {
    match row
    case None =>
      if HasLiveRun(t, i + 1, depth) {
        LiveRunBefore(t, i, depth);
      }
    case Some(run) =>
      var s: nat :| s < i && Describes(t, run, s, i, depth);
      assert Describes(t, run, s, i + 1, depth);
  }

  /** A mapped record kills every deeper run. */
  lemma RowDeeper(t: Trace, i: nat, depth: nat)
    requires t.Valid() && Mapped(t, i) && t.depths[i] < depth
    ensures RowFaithful(t, None, i + 1, depth)
  {
    if HasLiveRun(t, i + 1, depth) {
      var s: nat :| s < i + 1 && LastStart(t, s, i + 1, depth) && NoneShallower(t, s, i + 1, depth);
    }
  }

  lemma LastStartUnique(t: Trace, s: nat, s': nat, i: nat, depth: nat)
    requires t.Valid() && s < i && s' < i
    requires LastStart(t, s, i, depth) && LastStart(t, s', i, depth)
    ensures s == s'
  {
  }

  /** The table's test at a mapped record decides the history predicate. */
  lemma RowDecides(t: Trace, row: Option<LineRun>, i: nat)
    requires t.Valid() && Mapped(t, i) && RowFaithful(t, row, i, t.depths[i])
    ensures ExtendsRun(t, i) <==>
            row.Some? && Some(row.value.key) == t.lineKey(i) && t.positions[i].value !in row.value.offsets
  {
    var depth := t.depths[i];
    if row.Some? {
      var s: nat :| s < i && Describes(t, row.value, s, i, depth);
      if ExtendsRun(t, i) {
        var s': nat :|
          && s' < i && LastStart(t, s', i, depth) && NoneShallower(t, s', i, depth)
          && t.lineKey(s') == t.lineKey(i) && OffsetUnused(t, s', i, depth, t.positions[i].value);
        LastStartUnique(t, s, s', i, depth);
      }
    }
  }

  lemma OffsetCovered(t: Trace, run: LineRun, s: nat, i: nat, depth: nat)
    requires t.Valid() && MappedAt(t, i, depth) && s < i
    requires forall pos :: pos in run.offsets <==> !OffsetUnused(t, s, i, depth, pos)
    ensures forall pos :: pos in run.offsets + {t.positions[i].value} <==> !OffsetUnused(t, s, i + 1, depth, pos)
  {
    forall pos
      ensures !OffsetUnused(t, s, i + 1, depth, pos) <==>
              !OffsetUnused(t, s, i, depth, pos) || t.positions[i] == Some(pos)
    {
    }
  }

  lemma LastStartPersists(t: Trace, s: nat, i: nat, depth: nat)
    requires t.Valid() && s < i && LastStart(t, s, i, depth) && !(MappedAt(t, i, depth) && IsStart(t, i))
    ensures LastStart(t, s, i + 1, depth)
  {
  }

  lemma RowExtended(t: Trace, run: LineRun, i: nat)
    requires t.Valid() && Mapped(t, i) && RowFaithful(t, Some(run), i, t.depths[i])
    requires !IsStart(t, i)
    ensures RowFaithful(t, Some(run.(offsets := run.offsets + {t.positions[i].value})), i + 1, t.depths[i])
  {
    hide IsStart, LastStart, OffsetUnused, ExtendsRun;
    var depth := t.depths[i];
    var s: nat :| s < i && Describes(t, run, s, i, depth);
    OffsetCovered(t, run, s, i, depth);
    LastStartPersists(t, s, i, depth);
    assert Describes(t, run.(offsets := run.offsets + {t.positions[i].value}), s, i + 1, depth);
  }

  lemma RowStarted(t: Trace, i: nat)
    requires t.Valid() && Mapped(t, i) && IsStart(t, i)
    ensures RowFaithful(t, Some(LineRun(t.lineKey(i).value, {t.positions[i].value})), i + 1, t.depths[i])
  {
    var depth := t.depths[i];
    var run := LineRun(t.lineKey(i).value, {t.positions[i].value});
    assert MappedAt(t, i, depth);
    assert forall pos :: pos in run.offsets <==> !OffsetUnused(t, i, i + 1, depth, pos);
    assert Describes(t, run, i, i + 1, depth);
  }

  /** Updating the table at a mapped record keeps it faithful. */
  lemma TableAdvances(t: Trace, runs: seq<Option<LineRun>>, next: seq<Option<LineRun>>, i: nat)
    requires t.Valid() && Mapped(t, i) && TableFaithful(t, runs, i)
    requires |next| == t.depths[i] + 1
    requires forall d: nat :: d < t.depths[i] ==> next[d] == Row(runs, d)
    requires RowFaithful(t, next[t.depths[i]], i + 1, t.depths[i])
    ensures TableFaithful(t, next, i + 1)
  {
    forall d: nat ensures RowFaithful(t, Row(next, d), i + 1, d) {
      if d < t.depths[i] {
        RowShallower(t, Row(runs, d), i, d);
      } else if d > t.depths[i] {
        RowDeeper(t, i, d);
      }
    }
  }

  /** The starts the mutable table finds are exactly those of the history predicate, in order. */
  method ComputeRunStarts(t: Trace) returns (starts: seq<nat>)
    requires t.Valid()
    ensures Ascending(starts)
    ensures forall i: nat :: i in starts <==> i < |t.positions| && IsStart(t, i)
  {
    starts := [];
    var runs: seq<Option<LineRun>> := [];
    for i := 0 to |t.positions|
      invariant TableFaithful(t, runs, i)
      invariant Ascending(starts) && forall k :: 0 <= k < |starts| ==> starts[k] < i
      invariant forall k: nat :: k in starts <==> k < i && IsStart(t, k)
    {
      var pos := t.positions[i];
      var key := t.lineKey(i);
      if pos.None? || key.None? {
        forall d: nat ensures RowFaithful(t, Row(runs, d), i + 1, d) {
          RowUnmapped(t, Row(runs, d), i, d);
        }
        continue;
      }
      var depth := t.depths[i];
      ghost var before := runs;
      runs := Resize(runs, depth + 1);
      assert RowFaithful(t, Row(before, depth), i, depth);
      RowDecides(t, runs[depth], i);
      var run := runs[depth];
      if run.Some? && run.value.key == key.value && pos.value !in run.value.offsets {
        RowExtended(t, run.value, i);
        runs := runs[depth := Some(run.value.(offsets := run.value.offsets + {pos.value}))];
      } else {
        RowStarted(t, i);
        runs := runs[depth := Some(LineRun(key.value, {pos.value}))];
        starts := starts + [i];
      }
      TableAdvances(t, before, runs, i);
    }
  }

  // ----- What the starts mean to a user -----

  /** Any two visits to one offset at one depth are separated by a run start at that depth. */
  lemma RevisitStartsRun(t: Trace, i: nat, j: nat) returns (s: nat)
    requires t.Valid() && i < j && Mapped(t, i) && Mapped(t, j)
    requires t.depths[i] == t.depths[j] && t.positions[i] == t.positions[j]
    ensures i < s <= j && IsStart(t, s) && t.depths[s] == t.depths[j]
  {
    if IsStart(t, j) {
      s := j;
    } else {
      var depth := t.depths[j];
      assert ExtendsRun(t, j);
      s :| s < j && LastStart(t, s, j, depth) && OffsetUnused(t, s, j, depth, t.positions[j].value);
      assert MappedAt(t, i, depth);
    }
  }

  /**
   * Every mapped record is covered by a start: one at its depth, with its line key, with no record
   * of another line at that depth and no shallower record from the start to it.
   */
  lemma {:induction false} CoveredByStart(t: Trace, i: nat) returns (s: nat)
    requires t.Valid() && Mapped(t, i)
    ensures s <= i && IsStart(t, s) && t.depths[s] == t.depths[i]
    ensures forall j: nat :: s <= j <= i && MappedAt(t, j, t.depths[i]) ==> t.lineKey(j) == t.lineKey(i)
    ensures NoneShallower(t, s, i, t.depths[i])
  {
    var depth := t.depths[i];
    if IsStart(t, i) {
      s := i;
    } else {
      assert ExtendsRun(t, i);
      s :|
        && s < i && LastStart(t, s, i, depth) && NoneShallower(t, s, i, depth)
        && t.lineKey(s) == t.lineKey(i);
      forall j: nat | s < j < i && MappedAt(t, j, depth) ensures t.lineKey(j) == t.lineKey(i) {
        var s' := CoveredByStart(t, j);
        assert MappedAt(t, s', depth) && MappedAt(t, s, depth);
      }
    }
  }
}
