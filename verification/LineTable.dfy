/**
 * The merged line table (src/dwarf/LineTable.ts), and what lookups in it mean for each sequence of rows.
 */
module LineTable {
  import opened Prelude
  import opened StableSorting

  datatype LineEntry = LineEntry(address: nat, path: string, line: int, column: nat, isStmt: bool, endSequence: bool)

  /** The comparator's order: by address, and at one address the ends of sequences first. */
  function Key(e: LineEntry): int {
    2 * e.address + if e.endSequence then 0 else 1
  }

  function Shown(e: Option<LineEntry>): Option<LineEntry> {
    if e.Some? && !e.value.endSequence then e else None
  }

  // ----- The table -----

  /** The rows gathered from units: each line program once, for the first unit that names it. */
  function Gathered(programs: seq<Option<nat>>, rowsOf: nat -> seq<LineEntry>, n: nat): seq<LineEntry>
    requires n <= |programs|
  {
    if n == 0 then []
    else
      Gathered(programs, rowsOf, n - 1) +
      (if programs[n - 1].Some? && programs[n - 1] !in programs[..n - 1] then rowsOf(n - 1) else [])
  }

  /** The units whose program no earlier unit names, in order. */
  function Owners(programs: seq<Option<nat>>): (r: seq<nat>)
    ensures Ascending(r)
    ensures forall i: nat :: i in r <==>
              i < |programs| && programs[i].Some? && forall j :: 0 <= j < i ==> programs[j] != programs[i]
  {
    IndicesBelow((i: nat) => i < |programs| && programs[i].Some? && programs[i] !in programs[..i], |programs|)
  }

  function RowsOfAll(units: seq<nat>, rowsOf: nat -> seq<LineEntry>): seq<LineEntry> {
    if units == [] then [] else RowsOfAll(units[..|units| - 1], rowsOf) + rowsOf(units[|units| - 1])
  }

  /** Every program named by some unit is gathered once, with its first owner's paths, in the order of owners. */
  lemma {:induction false} GatheredOnce(programs: seq<Option<nat>>, rowsOf: nat -> seq<LineEntry>, n: nat)
    requires n <= |programs|
    ensures Gathered(programs, rowsOf, n) == RowsOfAll(Owners(programs[..n]), rowsOf)
    decreases n
  {
    hide Owners, RowsOfAll;
    if n == 0 {
      NoOwners(rowsOf);
      assert programs[..0] == [];
    } else {
      var front, last := programs[..n - 1], programs[n - 1];
      GatheredOnce(programs, rowsOf, n - 1);
      OwnersSnoc(front, last);
      assert front + [last] == programs[..n];
      RowsOfSnoc(Owners(front), rowsOf, n - 1);
    }
  }

  lemma NoOwners(rowsOf: nat -> seq<LineEntry>)
    ensures RowsOfAll(Owners([]), rowsOf) == []
  {
    assert Owners([]) == [];
  }

  lemma RowsOfSnoc(units: seq<nat>, rowsOf: nat -> seq<LineEntry>, unit: nat)
    ensures RowsOfAll(units + [unit], rowsOf) == RowsOfAll(units, rowsOf) + rowsOf(unit)
    ensures RowsOfAll(units + [], rowsOf) == RowsOfAll(units, rowsOf) + []
  {
    assert (units + [unit])[..|units|] == units && units + [] == units;
  }

  lemma OwnersSnoc(programs: seq<Option<nat>>, last: Option<nat>)
    ensures Owners(programs + [last]) ==
            Owners(programs) + if last.Some? && last !in programs then [|programs|] else []
  {
    var all := programs + [last];
    var longer := Owners(programs) + if last.Some? && last !in programs then [|programs|] else [];
    forall i: nat ensures i in Owners(all) <==> i in longer {
      if i < |programs| {
        assert all[i] == programs[i] && forall j :: 0 <= j < i ==> all[j] == programs[j];
      } else if i == |programs| {
        assert all[i] == last && forall j :: 0 <= j < i ==> all[j] == programs[j];
      }
    }
    SameAscending(Owners(all), longer);
  }

  lemma HasFirst(a: seq<nat>)
    ensures a == [] || a[0] in a
  {
  }

  /** Ascending lists of the same elements are the same list. */
  lemma {:induction false} SameAscending(a: seq<nat>, b: seq<nat>)
    requires Ascending(a) && Ascending(b) && forall i :: i in a <==> i in b
    ensures a == b
    decreases |a|
  {
    HasFirst(a);
    HasFirst(b);
    if a != [] {
      assert a[0] == b[0];
      forall i ensures i in a[1..] <==> i in b[1..] {
        assert i in a <==> i == a[0] || i in a[1..];
        assert i in b <==> i == b[0] || i in b[1..];
        assert a[0] !in a[1..] && b[0] !in b[1..];
      }
      SameAscending(a[1..], b[1..]);
      assert a == [a[0]] + a[1..] && b == [b[0]] + b[1..];
    }
  }

  class DwarfLineTable {
    const entries: seq<LineEntry>

    /** `fromWasm`, given each unit's line program offset and that program's rows with their paths resolved. */
    constructor (programs: seq<Option<nat>>, rowsOf: nat -> seq<LineEntry>)
      ensures entries == StableSort(Key, Gathered(programs, rowsOf, |programs|)) && SortedBy(Key, entries)
    {
      var rows: seq<LineEntry> := [];
      var filesByProgram: set<nat> := {};
      for k := 0 to |programs|
        invariant rows == Gathered(programs, rowsOf, k)
        invariant forall o: nat :: o in filesByProgram <==> Some(o) in programs[..k]
      {
        assert programs[..k + 1] == programs[..k] + [programs[k]];
        if programs[k].Some? && programs[k].value !in filesByProgram {
          filesByProgram := filesByProgram + {programs[k].value};
          rows := rows + rowsOf(k);
        }
      }
      entries := StableSort(Key, rows);
      StableSortCorrect(Key, rows);
    }

    /** The rightmost entry at or below `codeOffset`, unless it ends a sequence. */
    method Lookup(codeOffset: nat) returns (r: Option<LineEntry>)
      requires SortedBy(Key, entries)
      ensures r == Shown(Rightmost(entries, codeOffset))
    {
      var lo, hi, found := 0, |entries| - 1, -1;
      while lo <= hi
        invariant 0 <= lo <= |entries| && -1 <= hi < |entries| && lo <= hi + 1
        invariant found == lo - 1
        invariant forall k :: 0 <= k < lo ==> entries[k].address <= codeOffset
        invariant forall k :: hi < k < |entries| ==> entries[k].address > codeOffset
      {
        var mid := (lo + hi) / 2;
        if entries[mid].address <= codeOffset {
          found := mid;
          lo := mid + 1;
        } else {
          hi := mid - 1;
        }
      }
      RightmostAt(entries, codeOffset, found);
      if found < 0 || entries[found].endSequence {
        return None;
      }
      return Some(entries[found]);
    }
  }

  /** The last entry at or below `offset`. */
  function Rightmost(entries: seq<LineEntry>, offset: nat): Option<LineEntry> {
    if entries == [] then None
    else if entries[|entries| - 1].address <= offset then Some(entries[|entries| - 1])
    else Rightmost(entries[..|entries| - 1], offset)
  }

  lemma {:induction false} RightmostAt(entries: seq<LineEntry>, offset: nat, found: int)
    requires -1 <= found < |entries|
    requires found >= 0 ==> entries[found].address <= offset
    requires forall k :: found < k < |entries| ==> entries[k].address > offset
    ensures Rightmost(entries, offset) == if found < 0 then None else Some(entries[found])
    decreases |entries|
  {
    if found < |entries| - 1 {
      RightmostAt(entries[..|entries| - 1], offset, found);
    }
  }

  // ----- Sorting away -----

  /** The better of two candidates: the greater key, and the later one of equals. */
  function Better(a: Option<LineEntry>, b: Option<LineEntry>): Option<LineEntry> {
    if b.None? || (a.Some? && Key(a.value) > Key(b.value)) then a else b
  }

  /** Among the entries at or below `offset`, the last of those with the greatest key. */
  function Best(entries: seq<LineEntry>, offset: nat): Option<LineEntry> {
    if entries == [] then None
    else
      var e := entries[|entries| - 1];
      Better(Best(entries[..|entries| - 1], offset), if e.address <= offset then Some(e) else None)
  }

  /** Nothing at or below `offset` has a key above `best`'s, and `best` is the last with its key. */
  ghost predicate IsBest(entries: seq<LineEntry>, offset: nat, best: Option<LineEntry>) {
    match best
    case None => forall e :: e in entries ==> e.address > offset
    case Some(b) =>
      && b.address <= offset
      && (forall e :: e in entries && e.address <= offset ==> Key(e) <= Key(b))
      && var same := WithKey(Key, Key(b), entries);
         same != [] && same[|same| - 1] == b
  }

  lemma {:induction false} WithKeySnoc(k: int, entries: seq<LineEntry>, e: LineEntry)
    ensures WithKey(Key, k, entries + [e]) == WithKey(Key, k, entries) + if Key(e) == k then [e] else []
    decreases |entries|
  {
    hide Key;
    if entries == [] {
      assert [] + [e] == [e] && [e][1..] == [];
    } else {
      var all := entries + [e];
      assert all[0] == entries[0] && all[1..] == entries[1..] + [e];
      WithKeySnoc(k, entries[1..], e);
      var head := if Key(entries[0]) == k then [entries[0]] else [];
      assert WithKey(Key, k, all) == head + WithKey(Key, k, all[1..]);
      assert WithKey(Key, k, entries) == head + WithKey(Key, k, entries[1..]);
    }
  }

  lemma {:induction false} WithKeyHas(k: int, entries: seq<LineEntry>)
    ensures forall e :: e in WithKey(Key, k, entries) ==> e in entries && Key(e) == k
    decreases |entries|
  {
    if entries != [] {
      WithKeyHas(k, entries[1..]);
    }
  }

  lemma {:induction false} BestIsBest(entries: seq<LineEntry>, offset: nat)
    ensures IsBest(entries, offset, Best(entries, offset))
    decreases |entries|
  {
    if entries != [] {
      var front, e := entries[..|entries| - 1], entries[|entries| - 1];
      assert entries == front + [e];
      BestIsBest(front, offset);
      WithKeySnoc(Key(e), front, e);
      var b := Best(front, offset);
      if b.Some? {
        WithKeySnoc(Key(b.value), front, e);
      }
    }
  }

  /** Two bests over the same entries, in whatever order keeps equal keys in order, are one. */
  lemma BestUnique(s: seq<LineEntry>, t: seq<LineEntry>, offset: nat, a: Option<LineEntry>, b: Option<LineEntry>)
    requires IsBest(s, offset, a) && IsBest(t, offset, b)
    requires multiset(s) == multiset(t) && forall k :: WithKey(Key, k, s) == WithKey(Key, k, t)
    ensures a == b
  {
    assert forall e :: e in s <==> e in multiset(s);
    assert forall e :: e in t <==> e in multiset(t);
    if a.Some? {
      WithKeyHas(Key(a.value), s);
    }
    if b.Some? {
      WithKeyHas(Key(b.value), t);
    }
  }

  /** On a sorted table, the rightmost entry at or below the offset is the best one. */
  lemma {:induction false} RightmostIsBest(entries: seq<LineEntry>, offset: nat)
    requires SortedBy(Key, entries)
    ensures Rightmost(entries, offset) == Best(entries, offset)
    decreases |entries|
  {
    if entries != [] {
      var front, e := entries[..|entries| - 1], entries[|entries| - 1];
      RightmostIsBest(front, offset);
      BestIsBest(front, offset);
      var b := Best(front, offset);
      if b.Some? {
        WithKeyHas(Key(b.value), front);
        assert b.value in front;
        var k :| 0 <= k < |front| && front[k] == b.value;
        assert Key(entries[k]) <= Key(e);
      }
    }
  }

  /** What a lookup finds, in terms of the rows as gathered: no trace of the sort is left. */
  lemma LookupIsBest(rows: seq<LineEntry>, offset: nat)
    ensures SortedBy(Key, StableSort(Key, rows))
    ensures Rightmost(StableSort(Key, rows), offset) == Best(rows, offset)
  {
    hide IsBest, Rightmost, Best, SortedBy;
    var sorted := StableSort(Key, rows);
    StableSortCorrect(Key, rows);
    RightmostIsBest(sorted, offset);
    BestIsBest(sorted, offset);
    BestIsBest(rows, offset);
    BestUnique(sorted, rows, offset, Best(sorted, offset), Best(rows, offset));
  }

  // ----- Sequence by sequence -----

  /** The rows of one contiguous run of code, and the end_sequence row after it. */
  datatype Sequence = Sequence(rows: seq<LineEntry>, end: LineEntry)

  ghost predicate ValidSequence(s: Sequence) {
    && s.rows != [] && s.end.endSequence
    && (forall k :: 0 <= k < |s.rows| ==> !s.rows[k].endSequence)
    && (forall j, k :: 0 <= j < k < |s.rows| ==> s.rows[j].address <= s.rows[k].address)
    && s.rows[0].address < s.end.address
    && s.rows[|s.rows| - 1].address <= s.end.address
  }

  function Low(s: Sequence): nat
    requires s.rows != []
  {
    s.rows[0].address
  }

  /** The address of the last row. */
  function Top(s: Sequence): nat
    requires s.rows != []
  {
    s.rows[|s.rows| - 1].address
  }

  predicate Covers(s: Sequence, offset: nat)
    requires s.rows != []
  {
    Low(s) <= offset < s.end.address
  }

  function Flatten(sequences: seq<Sequence>): seq<LineEntry> {
    if sequences == [] then []
    else Flatten(sequences[..|sequences| - 1]) + (sequences[|sequences| - 1].rows + [sequences[|sequences| - 1].end])
  }

  ghost predicate ValidSequences(sequences: seq<Sequence>) {
    && (forall i :: 0 <= i < |sequences| ==> ValidSequence(sequences[i]))
    && (forall i, j :: 0 <= i < |sequences| && 0 <= j < |sequences| && i != j ==>
          sequences[i].end.address <= Low(sequences[j]) || sequences[j].end.address <= Low(sequences[i]))
  }

  /** What an offset means: the last row at or below it of the one sequence that holds it, else nothing. */
  function Expected(sequences: seq<Sequence>, offset: nat): Option<LineEntry>
    requires forall i :: 0 <= i < |sequences| ==> sequences[i].rows != []
  {
    if sequences == [] then None
    else
      var s := sequences[|sequences| - 1];
      if Covers(s, offset) then Rightmost(s.rows, offset) else Expected(sequences[..|sequences| - 1], offset)
  }

  /** The one entry of a sequence that can win a lookup. */
  function Candidate(s: Sequence, offset: nat): Option<LineEntry>
    requires s.rows != []
  {
    if offset < Low(s) then None
    else if offset < s.end.address then Rightmost(s.rows, offset)
    else if Top(s) < s.end.address then Some(s.end)
    else Some(s.rows[|s.rows| - 1])
  }

  lemma {:induction false} RightmostBounds(entries: seq<LineEntry>, offset: nat)
    requires entries != [] && entries[0].address <= offset
    requires forall j, k :: 0 <= j < k < |entries| ==> entries[j].address <= entries[k].address
    ensures match Rightmost(entries, offset)
            case None => false
            case Some(e) => e in entries && entries[0].address <= e.address <= offset
    decreases |entries|
  {
    if entries[|entries| - 1].address > offset {
      RightmostBounds(entries[..|entries| - 1], offset);
    }
  }

  lemma SequenceBest(s: Sequence, offset: nat)
    requires ValidSequence(s)
    ensures Best(s.rows + [s.end], offset) == Candidate(s, offset)
  {
    var all := s.rows + [s.end];
    assert all[..|all| - 1] == s.rows && all[|all| - 1] == s.end;
    RightmostIsBest(s.rows, offset);
    if offset < Low(s) {
      RightmostAt(s.rows, offset, -1);
    } else if offset >= s.end.address {
      RightmostAt(s.rows, offset, |s.rows| - 1);
    }
  }

  lemma {:induction false} BestJoins(a: seq<LineEntry>, b: seq<LineEntry>, offset: nat)
    ensures Best(a + b, offset) == Better(Best(a, offset), Best(b, offset))
    decreases |b|
  {
    if b == [] {
      assert a + b == a;
    } else {
      var front := b[..|b| - 1];
      assert (a + b)[..|a + b| - 1] == a + front;
      BestJoins(a, front, offset);
    }
  }

  function Pick(sequences: seq<Sequence>, offset: nat): Option<LineEntry>
    requires forall i :: 0 <= i < |sequences| ==> sequences[i].rows != []
  {
    if sequences == [] then None
    else Better(Pick(sequences[..|sequences| - 1], offset), Candidate(sequences[|sequences| - 1], offset))
  }

  lemma {:induction false} FlattenBest(sequences: seq<Sequence>, offset: nat)
    requires forall i :: 0 <= i < |sequences| ==> sequences[i].rows != [] && ValidSequence(sequences[i])
    ensures Best(Flatten(sequences), offset) == Pick(sequences, offset)
    decreases |sequences|
  {
    hide Best, Better, Candidate;
    if sequences == [] {
      assert Best([], offset) == Best(Flatten(sequences), offset);
      BestOfNothing(offset);
    } else {
      var front, s := sequences[..|sequences| - 1], sequences[|sequences| - 1];
      FlattenBest(front, offset);
      SequenceBest(s, offset);
      BestJoins(Flatten(front), s.rows + [s.end], offset);
    }
  }

  lemma BestOfNothing(offset: nat)
    ensures Best([], offset) == None
  {
  }

  /** Sequence `m` wins: no candidate has a greater key, and no later one an equal key. */
  ghost predicate Wins(sequences: seq<Sequence>, offset: nat, m: nat)
    requires forall i :: 0 <= i < |sequences| ==> sequences[i].rows != []
  {
    && m < |sequences| && Candidate(sequences[m], offset).Some?
    && forall i :: 0 <= i < |sequences| && Candidate(sequences[i], offset).Some? ==>
         var k, w := Key(Candidate(sequences[i], offset).value), Key(Candidate(sequences[m], offset).value);
         k <= w && (i > m ==> k < w)
  }

  lemma {:induction false} SomeoneWins(sequences: seq<Sequence>, offset: nat) returns (m: nat)
    requires forall i :: 0 <= i < |sequences| ==> sequences[i].rows != []
    ensures Pick(sequences, offset).None? ==> forall i :: 0 <= i < |sequences| ==> Candidate(sequences[i], offset).None?
    ensures Pick(sequences, offset).Some? ==>
              Wins(sequences, offset, m) && Pick(sequences, offset) == Candidate(sequences[m], offset)
    decreases |sequences|
  {
    hide Candidate;
    m := 0;
    if sequences != [] {
      var front := sequences[..|sequences| - 1];
      m := SomeoneWins(front, offset);
      var f, l := Pick(front, offset), Candidate(sequences[|sequences| - 1], offset);
      if l.Some? && (f.None? || Key(f.value) <= Key(l.value)) {
        m := |sequences| - 1;
      }
    }
  }

  lemma {:induction false} ExpectedAt(sequences: seq<Sequence>, offset: nat, m: nat)
    requires ValidSequences(sequences) && m < |sequences| && Covers(sequences[m], offset)
    ensures Expected(sequences, offset) == Rightmost(sequences[m].rows, offset)
    decreases |sequences|
  {
    hide ValidSequence;
    if m < |sequences| - 1 {
      ExpectedAt(sequences[..|sequences| - 1], offset, m);
    }
  }

  lemma {:induction false} ExpectedNone(sequences: seq<Sequence>, offset: nat)
    requires forall i :: 0 <= i < |sequences| ==> sequences[i].rows != [] && !Covers(sequences[i], offset)
    ensures Expected(sequences, offset) == None
    decreases |sequences|
  {
    if sequences != [] {
      ExpectedNone(sequences[..|sequences| - 1], offset);
    }
  }

  /**
   * Every sequence ends strictly above its rows; or a later one starts where it ends, whose rows then win the
   * tie with the row at the very end; or an earlier one does, and shows the very same row there.
   */
  ghost predicate EndsClear(sequences: seq<Sequence>)
    requires forall i :: 0 <= i < |sequences| ==> sequences[i].rows != []
  {
    forall i :: 0 <= i < |sequences| ==> EndClear(sequences, i)
  }

  ghost predicate EndClear(sequences: seq<Sequence>, i: nat)
    requires i < |sequences| && forall k :: 0 <= k < |sequences| ==> sequences[k].rows != []
  {
    Top(sequences[i]) < sequences[i].end.address || TakenOver(sequences, i) || Echoed(sequences, i)
  }

  ghost predicate Echoed(sequences: seq<Sequence>, i: nat)
    requires i < |sequences| && forall k :: 0 <= k < |sequences| ==> sequences[k].rows != []
  {
    exists j :: 0 <= j < |sequences| && Echoes(sequences[j], sequences[i])
  }

  predicate Echoes(t: Sequence, s: Sequence)
    requires t.rows != [] && s.rows != []
  {
    Low(t) == s.end.address && Rightmost(t.rows, s.end.address) == Some(s.rows[|s.rows| - 1])
  }

  ghost predicate TakenOver(sequences: seq<Sequence>, i: nat)
    requires i < |sequences| && forall k :: 0 <= k < |sequences| ==> sequences[k].rows != []
  {
    exists j :: i < j < |sequences| && Low(sequences[j]) == sequences[i].end.address
  }

  /** The key of a sequence's candidate, in each of the positions an offset can be to it. */
  lemma CandidateKey(s: Sequence, offset: nat)
    requires ValidSequence(s) && Low(s) <= offset
    ensures var c := Candidate(s, offset);
            && c.Some?
            && (Covers(s, offset) ==>
                  c.value in s.rows && 2 * Low(s) + 1 <= Key(c.value) <= 2 * offset + 1)
            && (!Covers(s, offset) && Top(s) < s.end.address ==> c.value == s.end && Key(c.value) == 2 * s.end.address)
            && (!Covers(s, offset) && Top(s) == s.end.address ==>
                  c.value in s.rows && Key(c.value) == 2 * s.end.address + 1)
  {
    RightmostBounds(s.rows, offset);
  }

  lemma WinnerOutside(sequences: seq<Sequence>, offset: nat, m: nat, i: nat)
    requires ValidSequences(sequences) && m < |sequences|
    requires Top(sequences[m]) < sequences[m].end.address || TakenOver(sequences, m)
    requires Wins(sequences, offset, m) && !Covers(sequences[m], offset)
    requires i < |sequences|
    ensures Candidate(sequences[m], offset).value.endSequence && !Covers(sequences[i], offset)
  {
    var s, c := sequences[m], sequences[i];
    hide ValidSequence, Rightmost, Candidate;
    CandidateKey(s, offset);
    if Top(s) >= s.end.address {
      assert TakenOver(sequences, m);
      var j :| m < j < |sequences| && Low(sequences[j]) == s.end.address;
      CandidateKey(sequences[j], offset);
    }
    if Covers(c, offset) {
      CandidateKey(c, offset);
    }
  }

  lemma {:induction false} RightmostEarlier(entries: seq<LineEntry>, offset: nat, later: nat)
    requires offset <= later && Rightmost(entries, later).Some? && Rightmost(entries, later).value.address <= offset
    ensures Rightmost(entries, offset) == Rightmost(entries, later)
    decreases |entries|
  {
    if entries[|entries| - 1].address > later {
      RightmostEarlier(entries[..|entries| - 1], offset, later);
    }
  }

  /** A sequence's last row that wins past its end is the row an echoing sequence shows there. */
  lemma EchoOutside(sequences: seq<Sequence>, offset: nat, m: nat, j: nat)
    requires ValidSequences(sequences) && m < |sequences| && j < |sequences| && Echoes(sequences[j], sequences[m])
    requires Top(sequences[m]) == sequences[m].end.address
    requires Wins(sequences, offset, m) && !Covers(sequences[m], offset)
    ensures Shown(Candidate(sequences[m], offset)) == Expected(sequences, offset)
  {
    var s, t, e := sequences[m], sequences[j], sequences[m].end.address;
    var last := s.rows[|s.rows| - 1];
    assert !last.endSequence;
    CandidateAbove(s, offset);
    CandidateKey(t, offset);
    hide ValidSequence, Rightmost, Candidate, Expected;
    assert Covers(t, offset);
    ExpectedAt(sequences, offset, j);
    CoveredCandidate(t, offset);
    RightmostEarlier(t.rows, e, offset);
  }

  lemma CoveredCandidate(s: Sequence, offset: nat)
    requires s.rows != [] && Covers(s, offset)
    ensures Candidate(s, offset) == Rightmost(s.rows, offset)
  {
  }

  lemma CandidateAbove(s: Sequence, offset: nat)
    requires ValidSequence(s) && !Covers(s, offset) && Candidate(s, offset).Some? && Top(s) == s.end.address
    ensures offset >= s.end.address && Candidate(s, offset) == Some(s.rows[|s.rows| - 1])
    ensures Key(s.rows[|s.rows| - 1]) == 2 * s.end.address + 1
  {
  }

  lemma AboveItsLow(s: Sequence, offset: nat)
    requires ValidSequence(s) && Candidate(s, offset).None?
    ensures offset < Low(s)
  {
    if Low(s) <= offset {
      CandidateKey(s, offset);
    }
  }

  /** The winner, where it does not hold the offset itself, shows what is expected there. */
  lemma LookupOutside(sequences: seq<Sequence>, offset: nat, m: nat)
    requires ValidSequences(sequences) && EndsClear(sequences)
    requires Wins(sequences, offset, m) && !Covers(sequences[m], offset)
    ensures Shown(Candidate(sequences[m], offset)) == Expected(sequences, offset)
  {
    assert EndClear(sequences, m) && ValidSequence(sequences[m]);
    assert forall i :: 0 <= i < |sequences| ==> sequences[i].rows != [];
    if Top(sequences[m]) < sequences[m].end.address || TakenOver(sequences, m) {
      hide ValidSequence, Rightmost, Candidate;
      forall i | 0 <= i < |sequences|
        ensures !Covers(sequences[i], offset)
      {
        WinnerOutside(sequences, offset, m, i);
      }
      WinnerOutside(sequences, offset, m, m);
      ExpectedNone(sequences, offset);
    } else {
      var j :| 0 <= j < |sequences| && Echoes(sequences[j], sequences[m]);
      EchoOutside(sequences, offset, m, j);
    }
  }

  /** A merged lookup means what each sequence means on its own. */
  lemma LookupPerSequence(sequences: seq<Sequence>, offset: nat)
    requires ValidSequences(sequences) && EndsClear(sequences)
    ensures Shown(Rightmost(StableSort(Key, Flatten(sequences)), offset)) == Expected(sequences, offset)
  {
    LookupIsBest(Flatten(sequences), offset);
    FlattenBest(sequences, offset);
    assert forall i :: 0 <= i < |sequences| ==> sequences[i].rows != [];
    hide Best, Flatten, StableSort, EndsClear, ValidSequence, Rightmost;
    var m := SomeoneWins(sequences, offset);
    if Pick(sequences, offset).None? {
      forall i | 0 <= i < |sequences|
        ensures !Covers(sequences[i], offset)
      {
        AboveItsLow(sequences[i], offset);
      }
      ExpectedNone(sequences, offset);
    } else if Covers(sequences[m], offset) {
      ExpectedAt(sequences, offset, m);
      CandidateKey(sequences[m], offset);
    } else {
      LookupOutside(sequences, offset, m);
    }
  }

  /** Where a sequence is neither clear of its end nor taken over, its last row wins at its end. */
  lemma LastRowWins(sequences: seq<Sequence>, m: nat)
    requires ValidSequences(sequences) && m < |sequences|
    requires Top(sequences[m]) == sequences[m].end.address && !TakenOver(sequences, m)
    ensures Wins(sequences, sequences[m].end.address, m)
    ensures Candidate(sequences[m], sequences[m].end.address) == Some(sequences[m].rows[|sequences[m].rows| - 1])
  {
    var offset := sequences[m].end.address;
    CandidateKey(sequences[m], offset);
    forall i | 0 <= i < |sequences| && i != m && Candidate(sequences[i], offset).Some?
      ensures Key(Candidate(sequences[i], offset).value) <= 2 * offset + 1
      ensures i > m ==> Key(Candidate(sequences[i], offset).value) < 2 * offset + 1
    {
      var s := sequences[i];
      CandidateKey(s, offset);
    }
    hide ValidSequence, Rightmost;
  }

  lemma {:induction false} ExpectedFrom(sequences: seq<Sequence>, offset: nat) returns (j: nat)
    requires ValidSequences(sequences)
    ensures Expected(sequences, offset).Some? ==>
              && j < |sequences| && Covers(sequences[j], offset)
              && Expected(sequences, offset) == Rightmost(sequences[j].rows, offset)
    decreases |sequences|
  {
    j := 0;
    if sequences != [] {
      j := |sequences| - 1;
      if !Covers(sequences[j], offset) {
        j := ExpectedFrom(sequences[..|sequences| - 1], offset);
      }
    }
  }

  /** A last row at its sequence's end, not taken over, is what a lookup there finds: right only if echoed. */
  lemma EndsMustBeClear(sequences: seq<Sequence>, m: nat)
    requires ValidSequences(sequences) && m < |sequences|
    requires Top(sequences[m]) == sequences[m].end.address && !TakenOver(sequences, m)
    ensures var offset := sequences[m].end.address;
            Shown(Rightmost(StableSort(Key, Flatten(sequences)), offset)) == Expected(sequences, offset)
            ==> Echoed(sequences, m)
  {
    var s, offset := sequences[m], sequences[m].end.address;
    LookupIsBest(Flatten(sequences), offset);
    FlattenBest(sequences, offset);
    LastRowWins(sequences, m);
    var n := SomeoneWins(sequences, offset);
    var j := ExpectedFrom(sequences, offset);
    var last := s.rows[|s.rows| - 1];
    assert !last.endSequence && Low(s) < offset;
    assert forall i :: 0 <= i < |sequences| ==> sequences[i].rows != [];
    hide Best, Flatten, StableSort, Rightmost, ValidSequence, Candidate, Expected, TakenOver;
    assert m == n;
    assert Shown(Rightmost(StableSort(Key, Flatten(sequences)), offset)) == Some(last);
    if Expected(sequences, offset) == Some(last) {
      assert j != m && Low(sequences[j]) == offset;
      assert Echoes(sequences[j], s);
    }
  }

  ghost predicate MeansItsSequences(sequences: seq<Sequence>)
    requires ValidSequences(sequences)
  {
    forall offset: nat :: Shown(Rightmost(StableSort(Key, Flatten(sequences)), offset)) == Expected(sequences, offset)
  }

  /** Merged lookups mean what the sequences mean, at every offset, exactly when every end is clear. */
  lemma LookupPerSequenceIff(sequences: seq<Sequence>)
    requires ValidSequences(sequences)
    ensures MeansItsSequences(sequences) <==> EndsClear(sequences)
  {
    if EndsClear(sequences) {
      forall offset: nat
        ensures Shown(Rightmost(StableSort(Key, Flatten(sequences)), offset)) == Expected(sequences, offset)
      {
        LookupPerSequence(sequences, offset);
      }
    } else {
      var m :| 0 <= m < |sequences| && !EndClear(sequences, m);
      EndsMustBeClear(sequences, m);
    }
  }

  /** An input where they do not: a row at the very end of its sequence stays mapped past it. */
  lemma RowAtItsEnd(path: string) returns (sequences: seq<Sequence>, offset: nat)
    ensures ValidSequences(sequences) && !EndsClear(sequences)
    ensures Expected(sequences, offset) == None
    ensures Shown(Rightmost(StableSort(Key, Flatten(sequences)), offset)).Some?
  {
    var a, b := LineEntry(0, path, 1, 0, true, false), LineEntry(4, path, 2, 0, true, false);
    var s := Sequence([a, b], LineEntry(4, path, 2, 0, true, true));
    sequences, offset := [s], 4;
    assert ValidSequence(s);
    assert !TakenOver(sequences, 0) && !Echoes(s, s);
    assert !Echoed(sequences, 0);
    assert Top(sequences[0]) == 4 && !EndClear(sequences, 0);
    assert Expected(sequences[..0], offset) == None;
    EndsMustBeClear(sequences, 0);
    LastRowWins(sequences, 0);
    LookupIsBest(Flatten(sequences), offset);
    FlattenBest(sequences, offset);
    var m := SomeoneWins(sequences, offset);
  }
}
