/**
 * The encoding of compilation units (section 7.5 of DWARF version 5), which the parse of src/dwarf/die.ts inverts.
 */
module DieEncoding {
  import opened Prelude
  import opened Doubles
  import opened Bytes
  import opened Forms
  import opened FormEncoding
  import opened Abbrev
  import opened DieTree

  /** A DIE to be written: its abbreviation code, an operand for each attribute spec, its children. */
  datatype Entry = Entry(code: nat, operands: seq<Operand>, children: seq<Entry>)

  // ----- Attributes -----

  predicate OperandsFit(specs: seq<AbbrevAttr>, operands: seq<Operand>, addressSize: nat) {
    |specs| == |operands| && forall k :: 0 <= k < |specs| ==> Fits(specs[k].form, operands[k], addressSize)
  }

  function EncodeOperands(specs: seq<AbbrevAttr>, operands: seq<Operand>, addressSize: nat): seq<byte>
    requires OperandsFit(specs, operands, addressSize)
  {
    if specs == [] then []
    else Encode(specs[0].form, operands[0], addressSize) + EncodeOperands(specs[1..], operands[1..], addressSize)
  }

  function Meanings(specs: seq<AbbrevAttr>, operands: seq<Operand>, ctx: FormContext, attrs: map<nat, AttrValue>):
    map<nat, AttrValue>
    requires OperandsFit(specs, operands, ctx.addressSize)
  {
    if specs == [] then attrs
    else Meanings(specs[1..], operands[1..], ctx, attrs[specs[0].at := Meaning(specs[0], operands[0], ctx)])
  }

  lemma {:induction false} OperandsRead(s: seq<byte>, p: nat, specs: seq<AbbrevAttr>, operands: seq<Operand>,
                                        ctx: FormContext, attrs: map<nat, AttrValue>)
    requires Readable(ctx.addressSize) && OperandsFit(specs, operands, ctx.addressSize)
    requires At(s, p, EncodeOperands(specs, operands, ctx.addressSize))
    ensures ReadAttrs(s, p, specs, ctx, attrs) ==
            Read(Meanings(specs, operands, ctx, attrs), p + |EncodeOperands(specs, operands, ctx.addressSize)|)
    decreases |specs|
  {
    hide At, Encode, Fits, Meaning, ReadForm;
    if specs != [] {
      var x, y := Encode(specs[0].form, operands[0], ctx.addressSize),
        EncodeOperands(specs[1..], operands[1..], ctx.addressSize);
      AtSplit(s, p, x, y);
      OperandReads(s, p, specs[0], operands[0], ctx);
      OperandsRead(s, p + |x|, specs[1..], operands[1..], ctx,
                   attrs[specs[0].at := Meaning(specs[0], operands[0], ctx)]);
    }
  }

  // ----- Trees -----

  /** Each entry's code is declared, its operands suit the declaration, and only DIEs that may have children do. */
  predicate TreesFit(entries: seq<Entry>, table: Table, addressSize: nat)
    decreases entries
  {
    entries == [] ||
    var e := entries[0];
    && e.code != 0 && IsDouble(e.code) && e.code in table
    && OperandsFit(table[e.code].attrs, e.operands, addressSize)
    && (e.children != [] ==> table[e.code].hasChildren)
    && TreesFit(e.children, table, addressSize)
    && TreesFit(entries[1..], table, addressSize)
  }

  function EncodeHead(e: Entry, table: Table, addressSize: nat): seq<byte>
    requires TreesFit([e], table, addressSize)
  {
    EncodeULeb(e.code) + EncodeOperands(table[e.code].attrs, e.operands, addressSize)
  }

  /** A forest; a DIE with children is followed by them and a null entry. */
  function EncodeTrees(entries: seq<Entry>, table: Table, addressSize: nat): seq<byte>
    requires TreesFit(entries, table, addressSize)
    decreases entries
  {
    if entries == [] then []
    else EncodeTree(entries[0], table, addressSize) + EncodeTrees(entries[1..], table, addressSize)
  }

  function EncodeTree(e: Entry, table: Table, addressSize: nat): seq<byte>
    requires TreesFit([e], table, addressSize)
    decreases e
  {
    assert [e][0] == e;
    EncodeHead(e, table, addressSize) +
    (if table[e.code].hasChildren then EncodeTrees(e.children, table, addressSize) + EncodeULeb(0) else [])
  }

  /** The tree `e` is once written at `p`. */
  function Layout(e: Entry, p: nat, table: Table, ctx: FormContext): Die
    requires TreesFit([e], table, ctx.addressSize)
    decreases e
  {
    assert [e][0] == e;
    Die(p, table[e.code].tag, Meanings(table[e.code].attrs, e.operands, ctx, map[]),
        LayoutAll(e.children, p + |EncodeHead(e, table, ctx.addressSize)|, table, ctx))
  }

  function LayoutAll(entries: seq<Entry>, p: nat, table: Table, ctx: FormContext): seq<Die>
    requires TreesFit(entries, table, ctx.addressSize)
    decreases entries
  {
    if entries == [] then []
    else [Layout(entries[0], p, table, ctx)] +
         LayoutAll(entries[1..], p + |EncodeTree(entries[0], table, ctx.addressSize)|, table, ctx)
  }

  lemma HeadReads(s: seq<byte>, p: nat, e: Entry, table: Table, ctx: FormContext)
    requires Readable(ctx.addressSize) && TreesFit([e], table, ctx.addressSize)
    requires At(s, p, EncodeHead(e, table, ctx.addressSize))
    ensures ULeb(s, p) == Read(e.code, p + |EncodeULeb(e.code)|)
    ensures ReadAttrs(s, p + |EncodeULeb(e.code)|, table[e.code].attrs, ctx, map[]) ==
            Read(Meanings(table[e.code].attrs, e.operands, ctx, map[]),
                 p + |EncodeHead(e, table, ctx.addressSize)|)
  {
    hide At, EncodeULeb, ULeb, EncodeOperands, OperandsFit, Meanings, ReadAttrs;
    var attrs := EncodeOperands(table[e.code].attrs, e.operands, ctx.addressSize);
    AtSplit(s, p, EncodeULeb(e.code), attrs);
    ULebInverts(s, p, e.code);
    OperandsRead(s, p + |EncodeULeb(e.code)|, table[e.code].attrs, e.operands, ctx, map[]);
  }

  /** Reading a DIE back, given that its head and its children read back. */
  lemma DieAssembles(s: seq<byte>, p: nat, e: Entry, table: Table, ctx: FormContext)
    requires Readable(ctx.addressSize) && TreesFit([e], table, ctx.addressSize)
    requires At(s, p, EncodeHead(e, table, ctx.addressSize))
    requires var p1 := p + |EncodeHead(e, table, ctx.addressSize)|;
             table[e.code].hasChildren ==>
               ParseSiblings(s, p1, table, ctx) ==
               Read(LayoutAll(e.children, p1, table, ctx), p + |EncodeTree(e, table, ctx.addressSize)|)
    ensures ParseDie(s, p, table, ctx) ==
            Read(Some(Layout(e, p, table, ctx)), p + |EncodeTree(e, table, ctx.addressSize)|)
  {
    hide At, EncodeULeb, ULeb, EncodeHead, OperandsFit, Meanings, ReadAttrs, ParseSiblings, IsDouble, LayoutAll,
      EncodeTrees;
    HeadReads(s, p, e, table, ctx);
    if e.children == [] {
      NoLayout(p + |EncodeHead(e, table, ctx.addressSize)|, table, ctx);
    }
  }

  lemma NoLayout(p: nat, table: Table, ctx: FormContext)
    ensures LayoutAll([], p, table, ctx) == []
  {
  }

  lemma {:induction false} TreeReads(s: seq<byte>, p: nat, e: Entry, table: Table, ctx: FormContext)
    requires Readable(ctx.addressSize) && TreesFit([e], table, ctx.addressSize)
    requires At(s, p, EncodeTree(e, table, ctx.addressSize))
    ensures ParseDie(s, p, table, ctx) ==
            Read(Some(Layout(e, p, table, ctx)), p + |EncodeTree(e, table, ctx.addressSize)|)
    decreases e
  {
    hide At, EncodeULeb, EncodeHead, OperandsFit, Meanings, ParseDie, ParseSiblings, Layout, LayoutAll, EncodeTrees;
    var head := EncodeHead(e, table, ctx.addressSize);
    if table[e.code].hasChildren {
      AtSplit(s, p, head, EncodeTrees(e.children, table, ctx.addressSize) + EncodeULeb(0));
      TreesRead(s, p + |head|, e.children, table, ctx);
    } else {
      assert head + [] == head;
    }
    DieAssembles(s, p, e, table, ctx);
  }

  lemma {:induction false} TreesRead(s: seq<byte>, p: nat, entries: seq<Entry>, table: Table, ctx: FormContext)
    requires Readable(ctx.addressSize) && TreesFit(entries, table, ctx.addressSize)
    requires At(s, p, EncodeTrees(entries, table, ctx.addressSize) + EncodeULeb(0))
    ensures ParseSiblings(s, p, table, ctx) ==
            Read(LayoutAll(entries, p, table, ctx),
                 p + |EncodeTrees(entries, table, ctx.addressSize) + EncodeULeb(0)|)
    decreases entries
  {
    hide At, EncodeULeb, OperandsFit, ParseDie, Layout, EncodeTree;
    var a := ctx.addressSize;
    if entries == [] {
      assert [] + EncodeULeb(0) == EncodeULeb(0);
      NullReads(s, p, table, ctx);
    } else {
      assert [entries[0]][0] == entries[0];
      var x, y := EncodeTree(entries[0], table, a), EncodeTrees(entries[1..], table, a);
      assert (x + y) + EncodeULeb(0) == x + (y + EncodeULeb(0));
      AtSplit(s, p, x, y + EncodeULeb(0));
      TreeReads(s, p, entries[0], table, ctx);
      TreesRead(s, p + |x|, entries[1..], table, ctx);
    }
  }

  lemma NullReads(s: seq<byte>, p: nat, table: Table, ctx: FormContext)
    requires At(s, p, EncodeULeb(0))
    ensures ParseDie(s, p, table, ctx) == Read(None, p + |EncodeULeb(0)|)
  {
    hide ULeb, EncodeULeb, At;
    ULebInverts(s, p, 0);
  }

  // ----- Units -----

  /** A unit to be written; None is a unit whose root is a null entry. `padding` follows the tree. */
  datatype UnitSource = UnitSource(
    version: nat, unitType: nat, addressSize: nat, abbrevOffset: nat, decls: seq<Coded>, root: Option<Entry>,
    padding: seq<byte>)

  predicate UnitFits(u: UnitSource) {
    && (u.version == 4 || u.version == 5)
    && u.unitType < 256 && Readable(u.addressSize) && u.abbrevOffset < 0x1_0000_0000
    && (u.root.Some? ==> TreesFit([u.root.value], TableOf(u.decls, map[]), u.addressSize))
    && |EncodeBody(u)| < 0xffff_fff0
  }

  function EncodeHeader(u: UnitSource): seq<byte> {
    EncodeFixed(u.version, 2) +
    (if u.version == 4 then EncodeFixed(u.abbrevOffset, 4) + EncodeFixed(u.addressSize, 1)
     else EncodeFixed(u.unitType, 1) + (EncodeFixed(u.addressSize, 1) + EncodeFixed(u.abbrevOffset, 4)))
  }

  function EncodeRoot(u: UnitSource): seq<byte> {
    if u.root.Some? && TreesFit([u.root.value], TableOf(u.decls, map[]), u.addressSize)
    then EncodeTree(u.root.value, TableOf(u.decls, map[]), u.addressSize)
    else EncodeULeb(0)
  }

  function EncodeBody(u: UnitSource): seq<byte> {
    EncodeHeader(u) + (EncodeRoot(u) + u.padding)
  }

  function EncodeUnit(u: UnitSource): (e: seq<byte>)
    ensures |e| >= 4
  {
    EncodeFixed(|EncodeBody(u)|, 4) + EncodeBody(u)
  }

  function EncodeUnits(units: seq<UnitSource>): seq<byte> {
    if units == [] then [] else EncodeUnit(units[0]) + EncodeUnits(units[1..])
  }

  /** The unit `u` is once written at `p`, if it has a root. */
  function LayoutUnit(u: UnitSource, p: nat, sections: Sections): Option<CompUnit>
    requires UnitFits(u)
  {
    if u.root.None? then None
    else
      var ctx := FormContext(u.addressSize, p, sections.str, sections.lineStr);
      Some(CompUnit(u.version, u.addressSize, p,
                    Layout(u.root.value, p + 4 + |EncodeHeader(u)|, TableOf(u.decls, map[]), ctx)))
  }

  function LayoutUnits(units: seq<UnitSource>, p: nat, sections: Sections): seq<CompUnit>
    requires forall k :: 0 <= k < |units| ==> UnitFits(units[k])
  {
    if units == [] then []
    else
      var rest := LayoutUnits(units[1..], p + |EncodeUnit(units[0])|, sections);
      var unit := LayoutUnit(units[0], p, sections);
      if unit.None? then rest else [unit.value] + rest
  }

  lemma HeaderReads(s: seq<byte>, p: nat, u: UnitSource)
    requires UnitFits(u) && At(s, p, EncodeHeader(u))
    ensures UnitHeader(s, p) == Read(Header(u.version, u.addressSize, u.abbrevOffset), p + |EncodeHeader(u)|)
  {
    hide At, EncodeFixed, Fixed, EncodeBody, TreesFit;
    assert Power256(1) == 0x100 && Power256(2) == 0x1_0000 && Power256(4) == 0x1_0000_0000;
    var v, a, b, c := EncodeFixed(u.version, 2), EncodeFixed(u.abbrevOffset, 4), EncodeFixed(u.addressSize, 1),
      EncodeFixed(u.unitType, 1);
    if u.version == 4 {
      AtSplit(s, p, v, a + b);
      AtSplit(s, p + 2, a, b);
      FixedReads(s, p, 4, 2);
      FixedReads(s, p + 2, u.abbrevOffset, 4);
      FixedReads(s, p + 6, u.addressSize, 1);
    } else {
      AtSplit(s, p, v, c + (b + a));
      AtSplit(s, p + 2, c, b + a);
      AtSplit(s, p + 3, b, a);
      FixedReads(s, p, 5, 2);
      FixedReads(s, p + 2, u.unitType, 1);
      FixedReads(s, p + 3, u.addressSize, 1);
      FixedReads(s, p + 4, u.abbrevOffset, 4);
    }
  }

  /** A header of any other version is refused. */
  lemma VersionRefused(s: seq<byte>, p: nat, version: nat)
    requires version < 0x1_0000 && version != 4 && version != 5 && At(s, p, EncodeFixed(version, 2))
    ensures UnitHeader(s, p).Malformed?
  {
    assert Power256(2) == 0x1_0000;
    hide EncodeFixed, At, Fixed;
    FixedReads(s, p, version, 2);
  }

  /** So is a DIE whose code its table does not declare. */
  lemma CodeRefused(s: seq<byte>, p: nat, code: nat, table: Table, ctx: FormContext)
    requires code != 0 && code !in table && IsDouble(code) && At(s, p, EncodeULeb(code))
    ensures ParseDie(s, p, table, ctx).Malformed?
  {
    hide EncodeULeb, At, ULeb, IsDouble;
    ULebInverts(s, p, code);
  }

  /** The unit's abbreviation declarations lie where its header says. */
  ghost predicate TablePlaced(u: UnitSource, abbrev: seq<byte>) {
    && At(abbrev, u.abbrevOffset, EncodeTable(u.decls))
    && forall k :: 0 <= k < |u.decls| ==> CodedOk(u.decls[k])
  }

  lemma RootReads(s: seq<byte>, p: nat, u: UnitSource, ctx: FormContext)
    requires UnitFits(u) && ctx.addressSize == u.addressSize && At(s, p, EncodeRoot(u))
    ensures ParseDie(s, p, TableOf(u.decls, map[]), ctx) ==
            Read(if u.root.None? then None else Some(Layout(u.root.value, p, TableOf(u.decls, map[]), ctx)),
                 p + |EncodeRoot(u)|)
  {
    hide At, EncodeULeb, ParseDie, Layout, EncodeTree, EncodeBody, TableOf, TreesFit;
    if u.root.Some? {
      TreeReads(s, p, u.root.value, TableOf(u.decls, map[]), ctx);
    } else {
      NullReads(s, p, TableOf(u.decls, map[]), ctx);
    }
  }

  lemma LengthReads(s: seq<byte>, p: nat, length: nat)
    requires length < 0xffff_fff0 && At(s, p, EncodeFixed(length, 4))
    ensures InitialLength(s, p) == Read(length, p + 4)
  {
    assert Power256(4) == 0x1_0000_0000;
    hide Power256, EncodeFixed, At, LittleEndian;
    FixedReads(s, p, length, 4);
  }

  lemma UnitReads(sections: Sections, p: nat, u: UnitSource)
    requires UnitFits(u) && TablePlaced(u, sections.abbrev) && At(sections.info, p, EncodeUnit(u))
    ensures UnitAt(sections, p) == Read(LayoutUnit(u, p, sections), p + |EncodeUnit(u)|)
  {
    hide At, EncodeFixed, EncodeRoot, EncodeHeader, ParseDie, UnitHeader, Layout, AbbrevTable, EncodeTable, CodedOk,
      InitialLength, TableOf, TreesFit;
    var s := sections.info;
    var header, root, length := EncodeHeader(u), EncodeRoot(u), |EncodeBody(u)|;
    AtSplit(s, p, EncodeFixed(length, 4), EncodeBody(u));
    AtSplit(s, p + 4, header, root + u.padding);
    AtSplit(s, p + 4 + |header|, root, u.padding);
    LengthReads(s, p, length);
    HeaderReads(s, p + 4, u);
    AbbrevTableInverts(sections.abbrev, u.abbrevOffset, u.decls);
    RootReads(s, p + 4 + |header|, u, FormContext(u.addressSize, p, sections.str, sections.lineStr));
    PaddingSkips(s, p + 4 + |header| + |root|, u.padding);
  }

  lemma PaddingSkips(s: seq<byte>, p: nat, padding: seq<byte>)
    requires At(s, p, padding)
    ensures SkipTo(s, p, p + |padding|) == Read((), p + |padding|)
  {
  }

  /** Parsing inverts encoding for compilation units, from any position to the section's end. */
  lemma {:induction false} UnitsRead(sections: Sections, p: nat, units: seq<UnitSource>)
    requires forall k :: 0 <= k < |units| ==> UnitFits(units[k]) && TablePlaced(units[k], sections.abbrev)
    requires At(sections.info, p, EncodeUnits(units)) && p + |EncodeUnits(units)| == |sections.info|
    ensures ParseUnits(sections, p) == Read(LayoutUnits(units, p, sections), |sections.info|)
    decreases |units|
  {
    hide At, EncodeUnit, UnitAt, UnitFits, TablePlaced, LayoutUnit;
    if units != [] {
      AtSplit(sections.info, p, EncodeUnit(units[0]), EncodeUnits(units[1..]));
      UnitReads(sections, p, units[0]);
      UnitsRead(sections, p + |EncodeUnit(units[0])|, units[1..]);
    }
  }

  /**
   * Parsing inverts encoding for a whole `.debug_info`: the parse of the units' bytes is the units, laid
   * out at the offsets they were written at.
   */
  lemma DebugInfoInverts(sections: Sections, units: seq<UnitSource>)
    requires forall k :: 0 <= k < |units| ==> UnitFits(units[k]) && TablePlaced(units[k], sections.abbrev)
    requires sections.info == EncodeUnits(units)
    ensures ParseUnits(sections, 0) == Read(LayoutUnits(units, 0, sections), |sections.info|)
  {
    hide EncodeUnits, ParseUnits, UnitFits, TablePlaced;
    assert sections.info[0..|sections.info|] == sections.info;
    UnitsRead(sections, 0, units);
  }

  // ----- References -----

  /** `operand`, under that reference form in the unit at `ctx.cuHeaderStart`, is written for the DIE at `offset`. */
  predicate RefersTo(form: nat, operand: Operand, ctx: FormContext, offset: nat) {
    && operand.Number?
    && match form
       case 0x11 | 0x12 | 0x13 | 0x14 | 0x15 => ctx.cuHeaderStart + operand.n == offset
       case 0x10 => operand.n == offset
       case _ => false
  }

  /**
   * In-unit and cross-unit references alike: an operand written for a DIE anywhere in the section reads
   * back as a reference, and one lookup in `dieByOffset` finds that very DIE. No typed array is longer than
   * the integers a double holds.
   */
  lemma ReferenceResolves(sections: Sections, p: nat, attr: AbbrevAttr, operand: Operand, ctx: FormContext, k: nat)
    requires |sections.info| <= EXACT
    requires ParseUnits(sections, 0).Read? && k < |Nodes(Roots(ParseUnits(sections, 0).value))|
    requires Readable(ctx.addressSize) && Fits(attr.form, operand, ctx.addressSize)
    requires At(sections.info, p, Encode(attr.form, operand, ctx.addressSize))
    requires RefersTo(attr.form, operand, ctx, Nodes(Roots(ParseUnits(sections, 0).value))[k].secOffset)
    ensures var target := Nodes(Roots(ParseUnits(sections, 0).value))[k];
            var index := IndexAll(Roots(ParseUnits(sections, 0).value), map[]);
            match ReadForm(sections.info, p, attr, ctx)
            case Read(Ref(offset), _) => offset in index && index[offset] == target
            case _ => false
  {
    hide ParseUnits, Nodes, IndexAll, At, Encode, Fits, ReadForm, Round, IsDouble;
    UnitsOrdered(sections, 0);
    RoundExactIff(Nodes(Roots(ParseUnits(sections, 0).value))[k].secOffset);
    RoundExactIff(operand.n);
    OperandReads(sections.info, p, attr, operand, ctx);
    OffsetsNameTheirDies(sections);
  }
}
