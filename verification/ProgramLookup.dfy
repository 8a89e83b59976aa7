/**
 * Lookups about parsed line programs: their rows split at end_sequence are the merged table's sequences.
 */
module ProgramLookup {
  import opened Prelude
  import opened Bytes
  import LineEncoding
  import LineProgram
  import opened LineTable
  import opened StableSorting

  /** `collectEntries`: a row with its path resolved. */
  function EntryOf(row: LineProgram.Row, path: nat -> string): LineEntry
    requires FiniteRow(row)
  {
    LineEntry(row.address.value, path(row.fileIndex), row.line.value, row.column, row.isStmt, row.endSequence)
  }

  predicate FiniteRow(row: LineProgram.Row) {
    row.address.Finite? && row.address.value >= 0 && row.line.Finite?
  }

  predicate FiniteRows(rows: seq<LineProgram.Row>) {
    forall k :: 0 <= k < |rows| ==> FiniteRow(rows[k])
  }

  function EntriesOf(rows: seq<LineProgram.Row>, path: nat -> string): (r: seq<LineEntry>)
    requires FiniteRows(rows)
    ensures |r| == |rows| && forall k :: 0 <= k < |rows| ==> r[k] == EntryOf(rows[k], path)
  {
    seq(|rows|, k requires 0 <= k < |rows| => EntryOf(rows[k], path))
  }

  /** A program closes its last sequence, as DWARF asks of every producer (section 6.2.5.3 of version 5). */
  predicate Closed(entries: seq<LineEntry>) {
    entries == [] || entries[|entries| - 1].endSequence
  }

  /** The number of leading rows that end no sequence. */
  function RowsBefore(entries: seq<LineEntry>): (n: nat)
    ensures n <= |entries| && (forall k :: 0 <= k < n ==> !entries[k].endSequence)
    ensures n < |entries| ==> entries[n].endSequence
  {
    if entries == [] || entries[0].endSequence then 0 else 1 + RowsBefore(entries[1..])
  }

  function FirstOf(entries: seq<LineEntry>): Sequence
    requires RowsBefore(entries) < |entries|
  {
    Sequence(entries[..RowsBefore(entries)], entries[RowsBefore(entries)])
  }

  function RestOf(entries: seq<LineEntry>): (r: seq<LineEntry>)
    requires RowsBefore(entries) < |entries|
    ensures |r| < |entries|
  {
    entries[RowsBefore(entries) + 1..]
  }

  /** The entries cut after each end_sequence row. */
  function Split(entries: seq<LineEntry>): seq<Sequence>
    requires Closed(entries)
    decreases |entries|
  {
    if entries == [] then []
    else
      ClosedTail(entries);
      [FirstOf(entries)] + Split(RestOf(entries))
  }

  lemma ClosedTail(entries: seq<LineEntry>)
    requires entries != [] && Closed(entries)
    ensures RowsBefore(entries) < |entries| && Closed(RestOf(entries))
  {
  }

  lemma {:induction false} FlattenJoins(a: seq<Sequence>, b: seq<Sequence>)
    ensures Flatten(a + b) == Flatten(a) + Flatten(b)
    decreases |b|
  {
    if b == [] {
      assert a + b == a;
    } else {
      var front := b[..|b| - 1];
      assert (a + b)[..|a + b| - 1] == a + front;
      FlattenJoins(a, front);
    }
  }

  lemma FlattenOne(s: Sequence)
    ensures Flatten([s]) == s.rows + [s.end]
  {
    assert [s][..0] == [] && Flatten([]) == [];
  }

  ghost predicate EndsEach(sequences: seq<Sequence>) {
    forall i :: 0 <= i < |sequences| ==> Ended(sequences[i])
  }

  /** Rows that end no sequence, then one that does. */
  ghost predicate Ended(s: Sequence) {
    s.end.endSequence && forall k :: 0 <= k < |s.rows| ==> !s.rows[k].endSequence
  }

  lemma SplitUnfolds(entries: seq<LineEntry>)
    requires Closed(entries) && entries != []
    ensures RowsBefore(entries) < |entries| && Closed(RestOf(entries))
    ensures Split(entries) == [FirstOf(entries)] + Split(RestOf(entries))
  {
    hide FirstOf, RestOf;
    ClosedTail(entries);
  }

  lemma FirstAndRest(entries: seq<LineEntry>)
    requires RowsBefore(entries) < |entries|
    ensures Ended(FirstOf(entries))
    ensures entries == (FirstOf(entries).rows + [FirstOf(entries).end]) + RestOf(entries)
  {
    hide RowsBefore;
    CutAt(entries, RowsBefore(entries));
  }

  lemma CutAt<T>(s: seq<T>, n: nat)
    requires n < |s|
    ensures s == (s[..n] + [s[n]]) + s[n + 1..]
  {
  }

  lemma EndsEachJoins(s: Sequence, rest: seq<Sequence>)
    requires Ended(s) && EndsEach(rest)
    ensures EndsEach([s] + rest)
  {
    hide Ended;
  }

  /** Splitting loses nothing, and every part is rows that end no sequence, then one that does. */
  lemma {:induction false} SplitFlattens(entries: seq<LineEntry>)
    requires Closed(entries)
    ensures Flatten(Split(entries)) == entries && EndsEach(Split(entries))
    decreases |entries|
  {
    if entries != [] {
      SplitUnfolds(entries);
      FirstAndRest(entries);
      hide Split, Flatten, Ended, Closed, EndsEach, FirstOf, RestOf;
      SplitFlattens(RestOf(entries));
      FlattenOne(FirstOf(entries));
      FlattenJoins([FirstOf(entries)], Split(RestOf(entries)));
      EndsEachJoins(FirstOf(entries), Split(RestOf(entries)));
    }
  }

  /** Rows gathered from closed programs are closed. */
  lemma {:induction false} GatheredClosed(programs: seq<Option<nat>>, rowsOf: nat -> seq<LineEntry>, n: nat)
    requires n <= |programs| && forall k: nat :: k < n ==> Closed(rowsOf(k))
    ensures Closed(Gathered(programs, rowsOf, n))
    decreases n
  {
    if n > 0 {
      GatheredClosed(programs, rowsOf, n - 1);
      var a, b := Gathered(programs, rowsOf, n - 1), rowsOf(n - 1);
      assert b != [] ==> (a + b)[|a + b| - 1] == b[|b| - 1];
      assert a + [] == a;
    }
  }

  /** What a unit's line program contributes to the table: its parsed rows, paths resolved. */
  ghost predicate IsParsed(
    program: seq<byte>, params: LineProgram.Params, path: nat -> string, entries: seq<LineEntry>)
  {
    match LineProgram.Run(program, 0, params, LineProgram.Initial(params))
    case Malformed => false
    case Read(rows, _) =>
      && FiniteRows(rows) && |entries| == |rows|
      && forall k :: 0 <= k < |rows| ==>
           entries[k] == LineEntry(rows[k].address.value, path(rows[k].fileIndex), rows[k].line.value,
                                   rows[k].column, rows[k].isStmt, rows[k].endSequence)
  }

  lemma {:induction false} SuitedRowsFinite(rows: seq<LineProgram.Row>, choices: seq<LineEncoding.Choice>,
                                            regs: LineProgram.Registers, params: LineProgram.Params)
    requires LineEncoding.AllSuit(rows, choices, regs, params)
    ensures FiniteRows(rows)
    decreases rows
  {
    if rows != [] {
      SuitedRowsFinite(rows[1..], choices[1..], LineEncoding.Reset(rows[0], params), params);
      assert forall k :: 1 <= k < |rows| ==> rows[k] == rows[1..][k - 1];
    }
  }

  /** Rows written as a program contribute themselves. */
  lemma WrittenIsParsed(rows: seq<LineProgram.Row>, choices: seq<LineEncoding.Choice>, items: seq<LineEncoding.Item>,
                        params: LineProgram.Params, path: nat -> string)
    requires LineEncoding.AllSuit(rows, choices, LineEncoding.Fresh(params), params)
    requires LineEncoding.ItemsFit(items, params)
    requires LineEncoding.Tracks(items) == LineEncoding.Program(rows, choices, LineEncoding.Fresh(params), params)
    ensures FiniteRows(rows)
    ensures IsParsed(LineEncoding.EncodeItems(items, params), params, path, EntriesOf(rows, path))
  {
    LineEncoding.RowsReadBack(rows, choices, items, params);
    SuitedRowsFinite(rows, choices, LineEncoding.Fresh(params), params);
  }

  /**
   * The rows of parsed line programs are the rows of their sequences, nothing lost: so a lookup in the table
   * built from them is, at every offset, the last row at or below it of
   * the one parsed sequence that holds it, exactly when those sequences' ends are clear.
   */
  lemma ParsedLookupIff(programs: seq<Option<nat>>, rowsOf: nat -> seq<LineEntry>,
                        bytes: nat -> seq<byte>, params: nat -> LineProgram.Params, paths: nat -> (nat -> string))
    requires forall k: nat :: k < |programs| ==> IsParsed(bytes(k), params(k), paths(k), rowsOf(k)) && Closed(rowsOf(k))
    ensures var rows := Gathered(programs, rowsOf, |programs|);
            && Closed(rows) && EndsEach(Split(rows)) && Flatten(Split(rows)) == rows
            && (ValidSequences(Split(rows)) ==> (MeansItsSequences(Split(rows)) <==> EndsClear(Split(rows))))
  {
    hide IsParsed, EndsClear, MeansItsSequences, Split, Flatten, EndsEach;
    GatheredClosed(programs, rowsOf, |programs|);
    var rows := Gathered(programs, rowsOf, |programs|);
    SplitFlattens(rows);
    if ValidSequences(Split(rows)) {
      LookupPerSequenceIff(Split(rows));
    }
  }
}
