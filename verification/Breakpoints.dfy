/**
 * Breakpoint resolution (src/sourcemap/DwarfSourceMapper.ts, src/debugAdapter/replayCursor.ts).
 */
module Breakpoints {
  import opened Prelude
  import opened StableSorting
  import JsNumbers
  import RunStarts
  import StopModel

  /** A line as the line table holds it: a JavaScript number. */
  type Line = n: int | JsNumbers.Parse(n) == JsNumbers.Finite(n)

  datatype Location = Location(path: string, line: Line)

  /** A `Map` from line to trace indices, with its keys in insertion order, then sorted. */
  datatype FileLines = FileLines(lines: seq<int>, indices: map<int, seq<nat>>)

  datatype ResolvedBreakpoint = ResolvedBreakpoint(line: int, indices: seq<nat>)

  type Locations = seq<Option<Location>>

  predicate LocatedAt(locations: Locations, path: string, line: int, i: nat) {
    i < |locations| && locations[i].Some? && locations[i].value.path == path && locations[i].value.line == line
  }

  /** `list` is exactly the records below `n` located at `path:line`, ascending. */
  ghost predicate ListsLine(list: seq<nat>, locations: Locations, path: string, line: int, n: nat) {
    Ascending(list) && forall i: nat :: i in list <==> i < n && LocatedAt(locations, path, line, i)
  }

  ghost predicate ExecutedBelow(locations: Locations, path: string, line: int, n: nat) {
    exists i: nat :: i < n && LocatedAt(locations, path, line, i)
  }

  /** One file's entry says exactly which of its lines ran, and where in the trace. */
  ghost predicate FileIndexed(file: FileLines, locations: Locations, path: string, n: nat) {
    && (forall line :: line in file.lines <==> line in file.indices)
    && (forall line :: line in file.indices <==> ExecutedBelow(locations, path, line, n))
    && forall line :: line in file.indices ==> ListsLine(file.indices[line], locations, path, line, n)
  }

  ghost predicate Indexed(executedByFile: map<string, FileLines>, locations: Locations, n: nat) {
    && (forall path, line :: ExecutedBelow(locations, path, line, n) ==> path in executedByFile)
    && forall path :: path in executedByFile ==> FileIndexed(executedByFile[path], locations, path, n)
  }

  const NO_LINES := FileLines([], map[])

  /** A file entry after record `i`, located on `line` of that file. */
  function WithRecord(file: FileLines, line: int, i: nat): FileLines {
    if line in file.indices then file.(indices := file.indices[line := file.indices[line] + [i]])
    else FileLines(file.lines + [line], file.indices[line := [i]])
  }

  lemma FileGrows(file: FileLines, locations: Locations, path: string, line: int, n: nat)
    requires FileIndexed(file, locations, path, n) && LocatedAt(locations, path, line, n)
    ensures FileIndexed(WithRecord(file, line, n), locations, path, n + 1)
  {
    var next := WithRecord(file, line, n);
    forall l ensures ExecutedBelow(locations, path, l, n + 1) <==> ExecutedBelow(locations, path, l, n) || l == line {
      if ExecutedBelow(locations, path, l, n) {
        var i: nat :| i < n && LocatedAt(locations, path, l, i);
        assert i < n + 1;
      }
    }
    forall l | l in next.indices ensures ListsLine(next.indices[l], locations, path, l, n + 1) {
      if l == line && l in file.indices {
        var list := file.indices[l];
        assert forall k :: 0 <= k < |list| ==> list[k] in list;
      } else if l == line {
        assert forall i: nat :: i < n ==> !LocatedAt(locations, path, l, i);
      }
    }
  }

  lemma FileKept(file: FileLines, locations: Locations, path: string, n: nat)
    requires FileIndexed(file, locations, path, n)
    requires forall line :: !LocatedAt(locations, path, line, n)
    ensures FileIndexed(file, locations, path, n + 1)
  {
    forall l ensures ExecutedBelow(locations, path, l, n + 1) <==> ExecutedBelow(locations, path, l, n) {
      if ExecutedBelow(locations, path, l, n) {
        var i: nat :| i < n && LocatedAt(locations, path, l, i);
        assert i < n + 1;
      }
    }
  }

  lemma IndexGrows(before: map<string, FileLines>, after: map<string, FileLines>, locations: Locations, n: nat)
    requires Indexed(before, locations, n) && n < |locations|
    requires match locations[n]
             case None => after == before
             case Some(loc) =>
               after == before[loc.path :=
                 WithRecord(if loc.path in before then before[loc.path] else NO_LINES, loc.line, n)]
    ensures Indexed(after, locations, n + 1)
  {
    forall path | path in after ensures FileIndexed(after[path], locations, path, n + 1) {
      if locations[n].Some? && locations[n].value.path == path {
        var file := if path in before then before[path] else NO_LINES;
        assert FileIndexed(file, locations, path, n);
        FileGrows(file, locations, path, locations[n].value.line, n);
      } else {
        FileKept(before[path], locations, path, n);
      }
    }
    var next := n + 1;
    forall path, line | ExecutedBelow(locations, path, line, next) ensures path in after {
      var i: nat :| i < next && LocatedAt(locations, path, line, i);
      if i < n {
        assert ExecutedBelow(locations, path, line, n);
      }
    }
  }

  /** `list` is exactly the executed lines of a file, ascending. */
  ghost predicate SortedLines(file: FileLines) {
    SortedBy((l: int) => l, file.lines)
  }

  lemma SortKeepsIndex(file: FileLines, locations: Locations, path: string, n: nat)
    requires FileIndexed(file, locations, path, n)
    ensures var sorted := file.(lines := StableSort((l: int) => l, file.lines));
            FileIndexed(sorted, locations, path, n) && SortedLines(sorted)
  {
    StableSortCorrect((l: int) => l, file.lines);
    var sorted := StableSort((l: int) => l, file.lines);
    forall line ensures line in sorted <==> line in file.lines {
      assert line in sorted <==> line in multiset(sorted);
      assert line in file.lines <==> line in multiset(file.lines);
    }
  }

  class DwarfSourceMapper {
    const locations: Locations
    const executedByFile: map<string, FileLines>
    const normalize: string -> string

    ghost predicate Valid() {
      && Indexed(executedByFile, locations, |locations|)
      && forall path :: path in executedByFile ==> SortedLines(executedByFile[path])
    }

    /** `locate` is the line table put through the on-disk policy, an arbitrary function of the offset. */
    constructor (positions: seq<Option<int>>, locate: int -> Option<Location>, normalize: string -> string)
      ensures Valid() && this.normalize == normalize && |locations| == |positions|
      ensures forall i :: 0 <= i < |positions| ==>
                locations[i] == if positions[i].None? then None else locate(positions[i].value)
    {
      var mapped := seq(|positions|, (i: int) requires 0 <= i < |positions| =>
        if positions[i].None? then None else locate(positions[i].value));
      var byFile: map<string, FileLines> := map[];
      for i := 0 to |mapped|
        invariant Indexed(byFile, mapped, i)
      {
        ghost var before := byFile;
        if mapped[i].Some? {
          var loc := mapped[i].value;
          var file := if loc.path in byFile then byFile[loc.path] else NO_LINES;
          if loc.line in file.indices {
            file := file.(indices := file.indices[loc.line := file.indices[loc.line] + [i]]);
          } else {
            file := FileLines(file.lines + [loc.line], file.indices[loc.line := [i]]);
          }
          byFile := byFile[loc.path := file];
        }
        IndexGrows(before, byFile, mapped, i);
      }
      forall path | path in byFile {
        SortKeepsIndex(byFile[path], mapped, path, |mapped|);
      }
      this.locations := mapped;
      this.normalize := normalize;
      this.executedByFile := map path | path in byFile ::
        byFile[path].(lines := StableSort((l: int) => l, byFile[path].lines));
    }

    /**
     * The breakpoint slides forward to the least executed line at or after the requested one, and
     * answers with every record located there; no answer means the file has no such line.
     */
    method ResolveBreakpoint(requestedPath: string, line: int) returns (r: Option<ResolvedBreakpoint>)
      requires Valid()
      ensures var path := normalize(requestedPath);
              match r
              case None => forall l :: l >= line ==> !ExecutedBelow(locations, path, l, |locations|)
              case Some(b) =>
                && b.line >= line && b.indices != []
                && ListsLine(b.indices, locations, path, b.line, |locations|)
                && forall l :: line <= l < b.line ==> !ExecutedBelow(locations, path, l, |locations|)
    {
      var path := normalize(requestedPath);
      if path !in executedByFile {
        return None;
      }
      var file := executedByFile[path];
      for k := 0 to |file.lines|
        invariant forall j :: 0 <= j < k ==> file.lines[j] < line
      {
        if file.lines[k] >= line {
          var chosen := file.lines[k];
          assert chosen in file.indices;
          assert ExecutedBelow(locations, path, chosen, |locations|);
          forall l | line <= l < chosen ensures l !in file.lines {
          }
          return Some(ResolvedBreakpoint(chosen, file.indices[chosen]));
        }
      }
      return None;
    }
  }

  function LineKey(loc: Location): string {
    loc.path + ":" + JsNumbers.NumberText(loc.line)
  }

  /** `lineKeyForIndex`: a record's line key, if it has a location. */
  function LineKeyForIndex(locations: Locations, index: nat): Option<string> {
    if index < |locations| && locations[index].Some? then Some(LineKey(locations[index].value)) else None
  }

  /** A key's last colon is the one between path and line. */
  lemma LastColon(path: string, line: Line, k: int)
    requires |path| < k < |LineKey(Location(path, line))|
    ensures LineKey(Location(path, line))[k] != ':'
  {
    JsNumbers.NumberTextPlain(line);
    assert LineKey(Location(path, line))[k] == JsNumbers.NumberText(line)[k - |path| - 1];
  }

  /** Line keys tell locations apart: the line is what follows the last colon. */
  lemma LineKeyInjective(a: Location, b: Location)
    requires LineKey(a) == LineKey(b)
    ensures a == b
  {
    var s := LineKey(a);
    assert s[|a.path|] == ':' && s[|b.path|] == ':';
    if |a.path| < |b.path| {
      LastColon(a.path, a.line, |b.path|);
    }
    if |b.path| < |a.path| {
      LastColon(b.path, b.line, |a.path|);
    }
    assert a.path == s[..|a.path|] && b.path == s[..|b.path|];
    assert JsNumbers.NumberText(a.line) == s[|a.path| + 1..] == JsNumbers.NumberText(b.line);
    JsNumbers.NumberTextInjective(a.line, b.line);
  }

  /** The trace the run starts were computed from uses this mapper's line keys. */
  ghost predicate KeyedBy(t: RunStarts.Trace, locations: Locations) {
    && |t.positions| == |locations|
    && forall i: nat :: i < |locations| ==>
         && (locations[i].Some? ==> t.positions[i].Some?)
         && t.lineKey(i) == LineKeyForIndex(locations, i)
  }

  /**
   * Every executed record of a line is led by a hit on that line: a run start at the record's depth,
   * at or before it, with no record of another line at that depth and nothing shallower in between.
   */
  lemma ExecutionHasHit(t: RunStarts.Trace, locations: Locations, path: string, line: int, i: nat) returns (hit: nat)
    requires t.Valid() && KeyedBy(t, locations) && LocatedAt(locations, path, line, i)
    ensures hit <= i && RunStarts.IsStart(t, hit) && LocatedAt(locations, path, line, hit)
    ensures t.depths[hit] == t.depths[i] && RunStarts.NoneShallower(t, hit, i, t.depths[i])
    ensures forall j: nat :: hit <= j <= i && RunStarts.MappedAt(t, j, t.depths[i]) ==>
              LocatedAt(locations, path, line, j)
  {
    assert RunStarts.Mapped(t, i);
    hit := RunStarts.CoveredByStart(t, i);
    forall j: nat | hit <= j <= i && RunStarts.MappedAt(t, j, t.depths[i])
      ensures LocatedAt(locations, path, line, j)
    {
      LineKeyInjective(locations[j].value, locations[i].value);
    }
    assert RunStarts.MappedAt(t, hit, t.depths[i]);
  }

  /** No answered breakpoint is dead: its records include a run start, so a continue can stop there. */
  lemma AnsweredBreakpointIsLive(
    t: RunStarts.Trace, locations: Locations, path: string, b: ResolvedBreakpoint, rawRunStarts: seq<nat>)
    requires t.Valid() && KeyedBy(t, locations)
    requires b.indices != [] && ListsLine(b.indices, locations, path, b.line, |locations|)
    requires forall i: nat :: i in rawRunStarts <==> i < |t.positions| && RunStarts.IsStart(t, i)
    ensures exists i :: i in b.indices && i in rawRunStarts
  {
    assert b.indices[0] in b.indices;
    var hit := ExecutionHasHit(t, locations, path, b.line, b.indices[0]);
    assert hit in b.indices && hit in rawRunStarts;
  }

  // ----- resolveBreakpoints -----

  /** A client's source breakpoints, per file, and instruction breakpoints. */
  datatype Requested = Requested(source: seq<(string, seq<int>)>, addresses: seq<int>)

  /** Record `i` is a run start on the executed line that `line` of `path` slides to. */
  ghost predicate LineHit(
    locations: Locations, rawRunStarts: seq<nat>, path: string, line: int, i: nat)
  {
    && i in rawRunStarts && i < |locations| && locations[i].Some? && locations[i].value.path == path
    && locations[i].value.line >= line
    && forall l :: line <= l < locations[i].value.line ==> !ExecutedBelow(locations, path, l, |locations|)
  }

  lemma LineHitExecuted(locations: Locations, rawRunStarts: seq<nat>, path: string, line: int, i: nat)
    requires LineHit(locations, rawRunStarts, path, line, i)
    ensures locations[i].value.line >= line
    ensures ExecutedBelow(locations, path, locations[i].value.line, |locations|)
  {
    assert LocatedAt(locations, path, locations[i].value.line, i);
  }

  ghost predicate SourceHit(
    mapper: DwarfSourceMapper?, rawRunStarts: seq<nat>, source: seq<(string, seq<int>)>, i: nat)
  {
    && mapper != null
    && (exists f, k ::
          && 0 <= f < |source| && 0 <= k < |source[f].1|
          && LineHit(mapper.locations, rawRunStarts, mapper.normalize(source[f].0), source[f].1[k], i))
  }

  method ResolveLine(mapper: DwarfSourceMapper, rawRunStarts: seq<nat>, path: string, line: int)
    returns (hits: set<nat>)
    requires mapper.Valid()
    ensures forall i: nat :: i in hits <==> LineHit(mapper.locations, rawRunStarts, mapper.normalize(path), line, i)
  {
    hits := {};
    var r := mapper.ResolveBreakpoint(path, line);
    ghost var file := mapper.normalize(path);
    if r.Some? {
      var indices := r.value.indices;
      for k := 0 to |indices|
        invariant forall i: nat :: i in hits <==> i in indices[..k] && i in rawRunStarts
      {
        if indices[k] in rawRunStarts {
          hits := hits + {indices[k]};
        }
      }
      assert indices[..|indices|] == indices;
      assert ExecutedBelow(mapper.locations, file, r.value.line, |mapper.locations|) by {
        assert indices[0] in indices;
      }
      forall i: nat ensures i in hits <==> LineHit(mapper.locations, rawRunStarts, file, line, i) {
        if LineHit(mapper.locations, rawRunStarts, file, line, i) {
          LineHitExecuted(mapper.locations, rawRunStarts, file, line, i);
        }
      }
    } else {
      forall i: nat ensures !LineHit(mapper.locations, rawRunStarts, file, line, i) {
        if LineHit(mapper.locations, rawRunStarts, file, line, i) {
          LineHitExecuted(mapper.locations, rawRunStarts, file, line, i);
        }
      }
    }
  }

  method ResolveFile(mapper: DwarfSourceMapper, rawRunStarts: seq<nat>, path: string, lines: seq<int>)
    returns (hits: set<nat>)
    requires mapper.Valid()
    ensures forall i: nat :: i in hits <==>
              exists k :: 0 <= k < |lines| &&
                LineHit(mapper.locations, rawRunStarts, mapper.normalize(path), lines[k], i)
  {
    hits := {};
    for k := 0 to |lines|
      invariant forall i: nat :: i in hits <==>
                  exists j :: 0 <= j < k && LineHit(mapper.locations, rawRunStarts, mapper.normalize(path), lines[j], i)
    {
      var more := ResolveLine(mapper, rawRunStarts, path, lines[k]);
      hits := hits + more;
    }
  }

  method ResolveSource(mapper: DwarfSourceMapper, rawRunStarts: seq<nat>, source: seq<(string, seq<int>)>)
    returns (hits: set<nat>)
    requires mapper.Valid()
    ensures forall i: nat :: i in hits <==> SourceHit(mapper, rawRunStarts, source, i)
  {
    hits := {};
    for f := 0 to |source|
      invariant forall i: nat :: i in hits <==> SourceHit(mapper, rawRunStarts, source[..f], i)
    {
      var more := ResolveFile(mapper, rawRunStarts, source[f].0, source[f].1);
      SourceHitStep(mapper, rawRunStarts, source, f);
      hits := hits + more;
    }
    assert source[..|source|] == source;
  }

  /**
   * A source breakpoint hits the run starts of its line, an instruction breakpoint every record at
   * its address; without line info (no mapper) only the latter resolve.
   */
  method ResolveBreakpoints(stops: StopModel.StopPoints, mapper: DwarfSourceMapper?, requested: Requested)
    returns (hits: set<nat>)
    requires mapper != null ==> mapper.Valid()
    ensures forall i: nat :: i in hits <==>
              || SourceHit(mapper, stops.rawRunStarts, requested.source, i)
              || exists address :: address in requested.addresses && address in stops.validatedPosToIndices
                                  && i in stops.validatedPosToIndices[address]
  {
    hits := {};
    if mapper != null {
      hits := ResolveSource(mapper, stops.rawRunStarts, requested.source);
    }
    ghost var fromSource := hits;
    for k := 0 to |requested.addresses|
      invariant forall i: nat :: i in hits <==>
                  || i in fromSource
                  || exists address :: address in requested.addresses[..k] && address in stops.validatedPosToIndices
                                      && i in stops.validatedPosToIndices[address]
    {
      var address := requested.addresses[k];
      if address in stops.validatedPosToIndices {
        hits := hits + (set i | i in stops.validatedPosToIndices[address]);
      }
      assert forall a :: a in requested.addresses[..k + 1] <==> a in requested.addresses[..k] || a == address;
    }
    assert requested.addresses[..|requested.addresses|] == requested.addresses;
  }

  lemma SourceHitStep(mapper: DwarfSourceMapper, rawRunStarts: seq<nat>, source: seq<(string, seq<int>)>, f: nat)
    requires f < |source|
    ensures forall i: nat :: SourceHit(mapper, rawRunStarts, source[..f + 1], i) <==>
              || SourceHit(mapper, rawRunStarts, source[..f], i)
              || exists k ::
                   && 0 <= k < |source[f].1|
                   && LineHit(mapper.locations, rawRunStarts, mapper.normalize(source[f].0), source[f].1[k], i)
  {
    forall i: nat | SourceHit(mapper, rawRunStarts, source[..f], i)
      ensures SourceHit(mapper, rawRunStarts, source[..f + 1], i)
    {
      var g, k :| 0 <= g < f && 0 <= k < |source[..f][g].1|
                  && LineHit(
                       mapper.locations, rawRunStarts, mapper.normalize(source[..f][g].0), source[..f][g].1[k], i);
      assert source[..f + 1][g] == source[g];
    }
    forall i: nat, k | 0 <= k < |source[f].1|
      && LineHit(mapper.locations, rawRunStarts, mapper.normalize(source[f].0), source[f].1[k], i)
      ensures SourceHit(mapper, rawRunStarts, source[..f + 1], i)
    {
      assert source[..f + 1][f] == source[f];
    }
    forall i: nat | SourceHit(mapper, rawRunStarts, source[..f + 1], i)
      ensures SourceHit(mapper, rawRunStarts, source[..f], i)
           || exists k :: 0 <= k < |source[f].1|
                && LineHit(mapper.locations, rawRunStarts, mapper.normalize(source[f].0), source[f].1[k], i)
    {
      var g, k :| 0 <= g < f + 1 && 0 <= k < |source[..f + 1][g].1|
        && LineHit(mapper.locations, rawRunStarts, mapper.normalize(source[..f + 1][g].0), source[..f + 1][g].1[k], i);
      assert source[..f + 1][g] == source[g];
      if g < f {
        assert source[..f][g] == source[g];
      }
    }
  }

  /** Breakpoints only ever hit visible records, so a run never leaves them. */
  lemma ResolvedHitsAreVisible(
    stops: StopModel.StopPoints, r: StopModel.Resolved, mapper: DwarfSourceMapper?, requested: Requested,
    hits: set<nat>)
    requires r.Valid() && StopModel.WellFormed(stops, r)
    requires forall i: nat :: i in hits <==>
               || SourceHit(mapper, stops.rawRunStarts, requested.source, i)
               || exists address :: address in requested.addresses && address in stops.validatedPosToIndices
                                   && i in stops.validatedPosToIndices[address]
    ensures forall i :: i in hits ==> i in stops.visibleIndices
  {
    forall i | i in hits ensures i in stops.visibleIndices {
      if SourceHit(mapper, stops.rawRunStarts, requested.source, i) {
        assert i in stops.rawRunStarts;
      } else {
        var address :| address in requested.addresses && address in stops.validatedPosToIndices
                       && i in stops.validatedPosToIndices[address];
        assert StopModel.RecordAt(r.positions, address, i);
      }
    }
  }
}
