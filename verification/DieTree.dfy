/**
 * The DIE-tree parse of `.debug_info` (src/dwarf/die.ts; sections 7.5.1 to 7.5.3, 7.5.6 of DWARF version 5).
 */
module DieTree {
  import opened Prelude
  import opened Bytes
  import opened Forms
  import opened Abbrev

  datatype Sections = Sections(info: seq<byte>, abbrev: seq<byte>, str: Option<seq<byte>>, lineStr: Option<seq<byte>>)

  datatype Die = Die(secOffset: nat, tag: nat, attrs: map<nat, AttrValue>, children: seq<Die>)

  datatype CompUnit = CompUnit(version: nat, addressSize: nat, headerStart: nat, die: Die)

  // ----- What the parse reads -----

  /** The attributes of one DIE: a later spec of an attribute code replaces an earlier one. */
  function ReadAttrs(s: seq<byte>, p: nat, specs: seq<AbbrevAttr>, ctx: FormContext, attrs: map<nat, AttrValue>):
    (r: Read<map<nat, AttrValue>>)
    ensures r.Read? && p <= |s| ==> p <= r.next <= |s|
    decreases |specs|
  {
    if specs == [] then Read(attrs, p)
    else
      var v := ReadForm(s, p, specs[0], ctx);
      if v.Malformed? then Malformed else ReadAttrs(s, v.next, specs[1..], ctx, attrs[specs[0].at := v.value])
  }

  /** One DIE and its subtree; None is the null entry that ends a sibling list. */
  function ParseDie(s: seq<byte>, p: nat, table: Table, ctx: FormContext): (r: Read<Option<Die>>)
    ensures r.Read? ==> p < r.next <= |s|
    decreases |s| - p, 0
  {
    var code := ULeb(s, p);
    if code.Malformed? then Malformed
    else if code.value == 0 then Read(None, code.next)
    else if code.value !in table then Malformed
    else
      var decl := table[code.value];
      var attrs := ReadAttrs(s, code.next, decl.attrs, ctx, map[]);
      if attrs.Malformed? then Malformed
      else if !decl.hasChildren then Read(Some(Die(p, decl.tag, attrs.value, [])), attrs.next)
      else
        var children := ParseSiblings(s, attrs.next, table, ctx);
        if children.Malformed? then Malformed
        else Read(Some(Die(p, decl.tag, attrs.value, children.value)), children.next)
  }

  /** DIEs up to and including a null entry. */
  function ParseSiblings(s: seq<byte>, p: nat, table: Table, ctx: FormContext): (r: Read<seq<Die>>)
    ensures r.Read? ==> p < r.next <= |s|
    decreases |s| - p, 1
  {
    var die := ParseDie(s, p, table, ctx);
    if die.Malformed? then Malformed
    else if die.value.None? then Read([], die.next)
    else Prepend(die.value.value, ParseSiblings(s, die.next, table, ctx))
  }

  datatype Header = Header(version: nat, addressSize: nat, abbrevOffset: nat)

  /** What follows the unit length; version 5 puts a unit type and the address size first. */
  function UnitHeader(s: seq<byte>, p: nat): (r: Read<Header>)
    ensures r.Read? ==> p < r.next <= |s|
  {
    var (version, p1) :- Fixed(s, p, 2);
    if version == 4 then
      var (abbrevOffset, p2) :- Fixed(s, p1, 4);
      var (addressSize, p3) :- Fixed(s, p2, 1);
      Read(Header(version, addressSize, abbrevOffset), p3)
    else if version == 5 then
      var (unitType, p2) :- Fixed(s, p1, 1);
      var (addressSize, p3) :- Fixed(s, p2, 1);
      var (abbrevOffset, p4) :- Fixed(s, p3, 4);
      Read(Header(version, addressSize, abbrevOffset), p4)
    else Malformed
  }

  function ContextOf(sections: Sections, header: Header, headerStart: nat): FormContext {
    FormContext(header.addressSize, headerStart, sections.str, sections.lineStr)
  }

  /** Padding up to the unit's end; a tree that runs past it is not cut back. */
  function SkipTo(s: seq<byte>, p: nat, end: nat): Read<()> {
    if p < end then Skip(s, p, end - p) else Read((), p)
  }

  /** One unit; None when its root is a null entry. */
  function UnitAt(sections: Sections, p: nat): (r: Read<Option<CompUnit>>)
    ensures r.Read? ==> p < r.next <= |sections.info|
  {
    var (length, p1) :- InitialLength(sections.info, p);
    var (header, p2) :- UnitHeader(sections.info, p1);
    var (table, _) :- AbbrevTable(sections.abbrev, header.abbrevOffset);
    var (root, p3) :- ParseDie(sections.info, p2, table, ContextOf(sections, header, p));
    var (_, p4) :- SkipTo(sections.info, p3, p1 + length);
    Read(if root.None? then None else Some(CompUnit(header.version, header.addressSize, p, root.value)), p4)
  }

  function PrependSome<T>(x: Option<T>, r: Read<seq<T>>): Read<seq<T>> {
    if x.None? then r else Prepend(x.value, r)
  }

  function ParseUnits(sections: Sections, p: nat): Read<seq<CompUnit>>
    decreases |sections.info| - p
  {
    if p >= |sections.info| then Read([], p)
    else
      var unit := UnitAt(sections, p);
      if unit.Malformed? then Malformed else PrependSome(unit.value, ParseUnits(sections, unit.next))
  }

  function Roots(units: seq<CompUnit>): (r: seq<Die>)
    ensures |r| == |units|
  {
    seq(|units|, i requires 0 <= i < |units| => units[i].die)
  }

  // ----- The global index -----

  /** Every DIE of a forest, parents before children. */
  ghost function Nodes(dies: seq<Die>): seq<Die>
    decreases dies
  {
    if dies == [] then [] else [dies[0]] + Nodes(dies[0].children) + Nodes(dies[1..])
  }

  function IndexAll(dies: seq<Die>, m: map<nat, Die>): map<nat, Die>
    decreases dies
  {
    if dies == [] then m
    else IndexAll(dies[1..], IndexAll(dies[0].children, m)[dies[0].secOffset := dies[0]])
  }

  /** The forest's offsets strictly ascend and lie between `lo` and `hi`. */
  ghost predicate Ordered(dies: seq<Die>, lo: nat, hi: nat) {
    var nodes := Nodes(dies);
    && (forall k :: 0 <= k < |nodes| ==> lo <= nodes[k].secOffset < hi)
    && (forall j, k :: 0 <= j < k < |nodes| ==> nodes[j].secOffset < nodes[k].secOffset)
  }

  lemma NodesUnfold(die: Die, rest: seq<Die>)
    ensures Nodes([die] + rest) == [die] + Nodes(die.children) + Nodes(rest)
  {
    assert ([die] + rest)[1..] == rest;
  }

  lemma OrderedJoins(die: Die, rest: seq<Die>, lo: nat, mid: nat, mid1: nat, hi: nat)
    requires lo == die.secOffset < mid <= mid1 <= hi
    requires Ordered(die.children, mid, mid1) && Ordered(rest, mid1, hi)
    ensures Ordered([die] + rest, lo, hi)
  {
    NodesUnfold(die, rest);
    hide Nodes;
    assert |[die] + Nodes(die.children)| == 1 + |Nodes(die.children)|;
  }

  lemma OrderedEmpty(lo: nat, hi: nat)
    ensures Ordered([], lo, hi)
  {
  }

  lemma OrderedWider(dies: seq<Die>, lo: nat, hi: nat, lower: nat, higher: nat)
    requires Ordered(dies, lo, hi) && lower <= lo && hi <= higher
    ensures Ordered(dies, lower, higher)
  {
    hide Nodes;
  }

  /** Whatever the bytes, a parsed DIE's subtree lies in the bytes read for it, in preorder. */
  lemma {:induction false} DieOrdered(s: seq<byte>, p: nat, table: Table, ctx: FormContext)
    requires ParseDie(s, p, table, ctx).Read? && ParseDie(s, p, table, ctx).value.Some?
    ensures Ordered([ParseDie(s, p, table, ctx).value.value], p, ParseDie(s, p, table, ctx).next)
    decreases |s| - p, 0
  {
    hide ULeb, ReadAttrs, Ordered;
    var r := ParseDie(s, p, table, ctx);
    var die := r.value.value;
    var code := ULeb(s, p);
    var decl := table[code.value];
    var attrs := ReadAttrs(s, code.next, decl.attrs, ctx, map[]);
    if decl.hasChildren {
      SiblingsOrdered(s, attrs.next, table, ctx);
    } else {
      OrderedEmpty(attrs.next, r.next);
    }
    OrderedEmpty(r.next, r.next);
    OrderedJoins(die, [], p, attrs.next, r.next, r.next);
    assert [die] + [] == [die];
  }

  lemma {:induction false} SiblingsOrdered(s: seq<byte>, p: nat, table: Table, ctx: FormContext)
    requires ParseSiblings(s, p, table, ctx).Read?
    ensures Ordered(ParseSiblings(s, p, table, ctx).value, p, ParseSiblings(s, p, table, ctx).next)
    decreases |s| - p, 1
  {
    hide Ordered;
    var r := ParseSiblings(s, p, table, ctx);
    var first := ParseDie(s, p, table, ctx);
    if first.value.None? {
      OrderedEmpty(p, r.next);
    } else {
      DieOrdered(s, p, table, ctx);
      SiblingsOrdered(s, first.next, table, ctx);
      OrderedAppends(first.value.value, r.value[1..], p, first.next, r.next);
      assert r.value == [first.value.value] + r.value[1..];
      assert r.value[1..] == ParseSiblings(s, first.next, table, ctx).value;
    }
  }

  lemma OrderedAppends(die: Die, rest: seq<Die>, lo: nat, mid: nat, hi: nat)
    requires Ordered([die], lo, mid) && Ordered(rest, mid, hi) && lo <= mid <= hi
    ensures Ordered([die] + rest, lo, hi)
  {
    NodesUnfold(die, rest);
    NodesUnfold(die, []);
    assert [die] + [] == [die] && Nodes([]) == [];
    hide Nodes;
    var a, b := Nodes([die]), Nodes(rest);
    assert Nodes([die] + rest) == a + b;
  }

  /** Over a whole section: units follow one another, so offsets ascend across all of them. */
  lemma {:induction false} UnitsOrdered(sections: Sections, p: nat)
    requires ParseUnits(sections, p).Read?
    ensures Ordered(Roots(ParseUnits(sections, p).value), p, Max(p, |sections.info|))
    decreases |sections.info| - p
  {
    hide Ordered, UnitAt;
    var hi := Max(p, |sections.info|);
    if p >= |sections.info| {
      OrderedEmpty(p, hi);
    } else {
      var unit := UnitAt(sections, p);
      var rest := ParseUnits(sections, unit.next);
      UnitsOrdered(sections, unit.next);
      if unit.value.None? {
        OrderedWider(Roots(rest.value), unit.next, hi, p, hi);
      } else {
        UnitOrdered(sections, p);
        OrderedAppends(unit.value.value.die, Roots(rest.value), p, unit.next, hi);
        assert Roots([unit.value.value] + rest.value) == [unit.value.value.die] + Roots(rest.value);
      }
    }
  }

  lemma UnitOrdered(sections: Sections, p: nat)
    requires UnitAt(sections, p).Read? && UnitAt(sections, p).value.Some?
    ensures Ordered([UnitAt(sections, p).value.value.die], p, UnitAt(sections, p).next)
  {
    hide Ordered, ParseDie, UnitHeader, AbbrevTable, LittleEndian;
    var length := InitialLength(sections.info, p);
    var header := UnitHeader(sections.info, length.next);
    var table := AbbrevTable(sections.abbrev, header.value.abbrevOffset).value;
    var ctx := ContextOf(sections, header.value, p);
    DieOrdered(sections.info, header.next, table, ctx);
    var root := ParseDie(sections.info, header.next, table, ctx);
    OrderedWider([root.value.value], header.next, root.next, p, UnitAt(sections, p).next);
  }

  /** `m` is `base` with exactly the nodes added, each under its own offset. */
  ghost predicate Indexes(m: map<nat, Die>, base: map<nat, Die>, nodes: seq<Die>) {
    && (forall k :: 0 <= k < |nodes| ==> nodes[k].secOffset in m && m[nodes[k].secOffset] == nodes[k])
    && (forall o :: o in base ==> o in m)
    && (forall o :: o in m && !HasOffset(nodes, o) ==> o in base && m[o] == base[o])
  }

  ghost predicate HasOffset(nodes: seq<Die>, o: nat) {
    exists k :: 0 <= k < |nodes| && nodes[k].secOffset == o
  }

  lemma {:induction false} IndexesOrdered(dies: seq<Die>, base: map<nat, Die>, lo: nat, hi: nat)
    requires Ordered(dies, lo, hi)
    ensures Indexes(IndexAll(dies, base), base, Nodes(dies))
    decreases dies
  {
    if dies == [] {
      assert Nodes(dies) == [];
    } else {
      var die, rest := dies[0], dies[1..];
      OrderedParts(dies, lo, hi);
      var m1 := IndexAll(die.children, base);
      IndexesOrdered(die.children, base, lo, hi);
      var m2 := m1[die.secOffset := die];
      IndexesOrdered(rest, m2, lo, hi);
      assert dies == [die] + rest;
      NodesUnfold(die, rest);
      IndexesCompose(die, base, m1, IndexAll(rest, m2), Nodes(die.children), Nodes(rest));
    }
  }

  lemma OrderedParts(dies: seq<Die>, lo: nat, hi: nat)
    requires dies != [] && Ordered(dies, lo, hi)
    ensures Ordered(dies[0].children, lo, hi) && Ordered(dies[1..], lo, hi)
    ensures DistinctOffsets([dies[0]] + Nodes(dies[0].children) + Nodes(dies[1..]))
  {
    var a, b := Nodes(dies[0].children), Nodes(dies[1..]);
    var all := Nodes(dies);
    assert all == [dies[0]] + a + b;
    hide Nodes;
    assert forall k :: 0 <= k < |a| ==> a[k] == all[k + 1];
    assert forall k :: 0 <= k < |b| ==> b[k] == all[k + 1 + |a|];
  }

  ghost predicate DistinctOffsets(nodes: seq<Die>) {
    forall j, k :: 0 <= j < k < |nodes| ==> nodes[j].secOffset != nodes[k].secOffset
  }

  lemma IndexesCompose(die: Die, base: map<nat, Die>, m1: map<nat, Die>, m2: map<nat, Die>, a: seq<Die>, b: seq<Die>)
    requires Indexes(m1, base, a) && Indexes(m2, m1[die.secOffset := die], b)
    requires DistinctOffsets([die] + a + b)
    ensures Indexes(m2, base, [die] + a + b)
  {
    var all := [die] + a + b;
    assert all[0] == die;
    assert forall k :: 0 <= k < |a| ==> all[k + 1] == a[k];
    assert forall k :: 0 <= k < |b| ==> all[k + 1 + |a|] == b[k];
    forall k | 0 <= k < |all|
      ensures all[k].secOffset in m2 && m2[all[k].secOffset] == all[k]
    {
      var o := all[k].secOffset;
      if k <= |a| {
        assert !HasOffset(b, o) by {
          assert forall j :: 0 <= j < |b| ==> b[j].secOffset != o;
        }
        assert k == 0 || a[k - 1] == all[k];
      } else {
        assert all[k] == b[k - 1 - |a|];
      }
    }
    forall o | o in m2 && !HasOffset(all, o)
      ensures o in base && m2[o] == base[o]
    {
      NoneInParts(die, a, b, o);
    }
  }

  lemma NoneInParts(die: Die, a: seq<Die>, b: seq<Die>, o: nat)
    requires !HasOffset([die] + a + b, o)
    ensures die.secOffset != o && !HasOffset(a, o) && !HasOffset(b, o)
  {
    var all := [die] + a + b;
    assert all[0] == die;
    assert forall k :: 0 <= k < |a| ==> all[k + 1] == a[k];
    assert forall k :: 0 <= k < |b| ==> all[k + 1 + |a|] == b[k];
  }

  /**
   * `dieByOffset` after any successful parse, whatever the bytes: its keys are exactly the offsets of
   * the DIEs in the trees, and each maps to the DIE that lies there.
   */
  lemma OffsetsNameTheirDies(sections: Sections)
    requires ParseUnits(sections, 0).Read?
    ensures var nodes := Nodes(Roots(ParseUnits(sections, 0).value));
            var index := IndexAll(Roots(ParseUnits(sections, 0).value), map[]);
            && (forall o: nat :: o in index <==> HasOffset(nodes, o))
            && (forall k :: 0 <= k < |nodes| ==> nodes[k].secOffset in index && index[nodes[k].secOffset] == nodes[k])
  {
    hide ParseUnits;
    var roots := Roots(ParseUnits(sections, 0).value);
    UnitsOrdered(sections, 0);
    IndexesOrdered(roots, map[], 0, Max(0, |sections.info|));
  }

  // ----- The parser -----

  class DieIndex {
    var dies: map<nat, Die>

    constructor ()
      ensures dies == map[]
    {
      dies := map[];
    }
  }

  /** What reading a DIE adds to the index. */
  function Found(r: Result<Option<Die>>): seq<Die> {
    if r.Ok? && r.value.Some? then [r.value.value] else []
  }

  lemma {:induction false} IndexAppends(dies: seq<Die>, more: seq<Die>, m: map<nat, Die>)
    ensures IndexAll(dies + more, m) == IndexAll(more, IndexAll(dies, m))
    decreases |dies|
  {
    if dies == [] {
      assert dies + more == more;
    } else {
      assert (dies + more)[1..] == dies[1..] + more;
      IndexAppends(dies[1..], more, IndexAll(dies[0].children, m)[dies[0].secOffset := dies[0]]);
    }
  }

  method ReadAttributes(cursor: ByteCursor, specs: seq<AbbrevAttr>, ctx: FormContext)
    returns (r: Result<map<nat, AttrValue>>)
    modifies cursor
    ensures Outcome(r, cursor.offset) == ReadAttrs(cursor.data, old(cursor.offset), specs, ctx, map[])
  {
    hide ReadForm;
    var attrs: map<nat, AttrValue> := map[];
    for i := 0 to |specs|
      invariant ReadAttrs(cursor.data, old(cursor.offset), specs, ctx, map[]) ==
                ReadAttrs(cursor.data, cursor.offset, specs[i..], ctx, attrs)
    {
      assert specs[i..][1..] == specs[i + 1..];
      var v :- ReadAttribute(cursor, specs[i], ctx);
      attrs := attrs[specs[i].at := v];
    }
    r := Ok(attrs);
  }

  /** The method `readDie`. */
  method ReadDie(cursor: ByteCursor, table: Table, ctx: FormContext, index: DieIndex) returns (r: Result<Option<Die>>)
    modifies cursor, index
    ensures Outcome(r, cursor.offset) == ParseDie(cursor.data, old(cursor.offset), table, ctx)
    ensures r.Ok? ==> index.dies == IndexAll(Found(r), old(index.dies))
    decreases |cursor.data| - cursor.offset, 0
  {
    hide ULeb, ReadAttrs;
    var secOffset := cursor.offset;
    var code :- cursor.ReadULeb();
    if code == 0 {
      return Ok(None);
    }
    if code !in table {
      return Thrown;
    }
    var decl := table[code];
    var attrs :- ReadAttributes(cursor, decl.attrs, ctx);
    var children: seq<Die> := [];
    if decl.hasChildren {
      children :- ReadChildren(cursor, table, ctx, index);
    }
    var die := Die(secOffset, decl.tag, attrs, children);
    index.dies := index.dies[secOffset := die];
    r := Ok(Some(die));
  }

  /** The loop of `readDie` over a DIE's children. */
  method ReadChildren(cursor: ByteCursor, table: Table, ctx: FormContext, index: DieIndex) returns (r: Result<seq<Die>>)
    modifies cursor, index
    ensures Outcome(r, cursor.offset) == ParseSiblings(cursor.data, old(cursor.offset), table, ctx)
    ensures r.Ok? ==> index.dies == IndexAll(r.value, old(index.dies))
    decreases |cursor.data| - cursor.offset, 1
  {
    hide ParseDie;
    var children: seq<Die> := [];
    PrependAllEnds(ParseSiblings(cursor.data, cursor.offset, table, ctx), [], 0);
    while true
      invariant cursor.offset == old(cursor.offset) || old(cursor.offset) <= cursor.offset <= |cursor.data|
      invariant ParseSiblings(cursor.data, old(cursor.offset), table, ctx) ==
                PrependAll(children, ParseSiblings(cursor.data, cursor.offset, table, ctx))
      invariant index.dies == IndexAll(children, old(index.dies))
      decreases |cursor.data| - cursor.offset
    {
      var child :- ReadDie(cursor, table, ctx, index);
      PrependAllEnds(Read([], cursor.offset), children, cursor.offset);
      if child.None? {
        return Ok(children);
      }
      PrependAllSnoc(children, child.value, ParseSiblings(cursor.data, cursor.offset, table, ctx));
      IndexAppends(children, [child.value], old(index.dies));
      children := children + [child.value];
    }
  }

  method ReadHeader(cursor: ByteCursor) returns (r: Result<Header>)
    modifies cursor
    ensures Outcome(r, cursor.offset) == UnitHeader(cursor.data, old(cursor.offset))
  {
    hide LittleEndian;
    var version :- cursor.U16();
    var abbrevOffset, addressSize;
    if version == 4 {
      abbrevOffset :- cursor.U32();
      addressSize :- cursor.U8();
    } else if version == 5 {
      var unitType :- cursor.U8();
      addressSize :- cursor.U8();
      abbrevOffset :- cursor.U32();
    } else {
      return Thrown;
    }
    r := Ok(Header(version, addressSize, abbrevOffset));
  }

  /** One turn of the loop of `parseDebugInfo`. */
  method ReadUnit(cursor: ByteCursor, sections: Sections, index: DieIndex) returns (r: Result<Option<CompUnit>>)
    requires cursor.data == sections.info
    modifies cursor, index
    ensures Outcome(r, cursor.offset) == UnitAt(sections, old(cursor.offset))
    ensures r.Ok? ==>
              index.dies == IndexAll(if r.value.Some? then [r.value.value.die] else [], old(index.dies))
  {
    hide InitialLength, UnitHeader, AbbrevTable, ParseDie, IndexAll;
    var headerStart := cursor.offset;
    var unitLength :- cursor.ReadInitialLength();
    var unitEnd := cursor.offset + unitLength;
    var header :- ReadHeader(cursor);
    var table :- ParseAbbrevTable(sections.abbrev, header.abbrevOffset);
    var root :- ReadDie(cursor, table, ContextOf(sections, header, headerStart), index);
    if cursor.offset < unitEnd {
      var skipped :- cursor.SkipBytes(unitEnd - cursor.offset);
    }
    r := Ok(if root.None? then None
            else Some(CompUnit(header.version, header.addressSize, headerStart, root.value)));
  }

  method ParseDebugInfo(sections: Sections) returns (r: Result<(seq<CompUnit>, map<nat, Die>)>)
    ensures r.Thrown? <==> ParseUnits(sections, 0).Malformed?
    ensures r.Ok? ==> r.value.0 == ParseUnits(sections, 0).value && r.value.1 == IndexAll(Roots(r.value.0), map[])
  {
    hide UnitAt;
    var cursor := new ByteCursor(sections.info);
    var index := new DieIndex();
    var units: seq<CompUnit> := [];
    PrependAllEnds(ParseUnits(sections, 0), [], 0);
    while cursor.offset < |sections.info|
      invariant cursor.data == sections.info
      invariant ParseUnits(sections, 0) == PrependAll(units, ParseUnits(sections, cursor.offset))
      invariant index.dies == IndexAll(Roots(units), map[])
      decreases |sections.info| - cursor.offset
    {
      var unit :- ReadUnit(cursor, sections, index);
      if unit.Some? {
        PrependAllSnoc(units, unit.value, ParseUnits(sections, cursor.offset));
        IndexAppends(Roots(units), [unit.value.die], map[]);
        assert Roots(units + [unit.value]) == Roots(units) + [unit.value.die];
        units := units + [unit.value];
      }
    }
    PrependAllEnds(ParseUnits(sections, cursor.offset), units, cursor.offset);
    r := Ok((units, index.dies));
  }
}
