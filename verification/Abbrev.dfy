/**
 * Abbreviation tables (src/dwarf/abbrev.ts; section 7.5.3 of DWARF version 5): the parse, and the encoding
 * it inverts.
 */
module Abbrev {
  import opened Prelude
  import opened Doubles
  import opened Bytes
  import opened Forms

  datatype Decl = Decl(tag: nat, hasChildren: bool, attrs: seq<AbbrevAttr>)

  type Table = map<nat, Decl>

  const IMPLICIT_CONST: nat := 0x21

  function ReadSpecs(s: seq<byte>, p: nat): (r: Read<seq<AbbrevAttr>>)
    ensures r.Read? ==> p < r.next <= |s|
    decreases |s| - p
  {
    var at := ULeb(s, p);
    if at.Malformed? then Malformed
    else
      var form := ULeb(s, at.next);
      if form.Malformed? then Malformed
      else if at.value == 0 && form.value == 0 then Read([], form.next)
      else if form.value == IMPLICIT_CONST then
        var value := SLeb(s, form.next);
        if value.Malformed? then Malformed
        else Prepend(AbbrevAttr(at.value, form.value, Some(value.value)), ReadSpecs(s, value.next))
      else Prepend(AbbrevAttr(at.value, form.value, None), ReadSpecs(s, form.next))
  }

  function Prepend<T>(x: T, r: Read<seq<T>>): Read<seq<T>> {
    match r
    case Malformed => Malformed
    case Read(xs, next) => Read([x] + xs, next)
  }

  function ReadDecl(s: seq<byte>, p: nat): (r: Read<Decl>)
    ensures r.Read? ==> p < r.next <= |s|
  {
    var tag := ULeb(s, p);
    if tag.Malformed? then Malformed
    else
      var children := Fixed(s, tag.next, 1);
      if children.Malformed? then Malformed
      else
        var specs := ReadSpecs(s, children.next);
        if specs.Malformed? then Malformed
        else Read(Decl(tag.value, children.value != 0, specs.value), specs.next)
  }

  /** Declarations up to the code-0 terminator; a later declaration of a code replaces an earlier one. */
  function ReadDecls(s: seq<byte>, p: nat, decls: Table): Read<Table>
    decreases |s| - p
  {
    var code := ULeb(s, p);
    if code.Malformed? then Malformed
    else if code.value == 0 then Read(decls, code.next)
    else
      var decl := ReadDecl(s, code.next);
      if decl.Malformed? then Malformed else ReadDecls(s, decl.next, decls[code.value := decl.value])
  }

  /** `section.subarray(offset)`: an offset past the end leaves nothing. */
  function From(section: seq<byte>, offset: nat): seq<byte> {
    section[Min(offset, |section|)..]
  }

  function AbbrevTable(section: seq<byte>, offset: nat): Read<Table> {
    ReadDecls(From(section, offset), 0, map[])
  }

  method ReadAttrSpecs(cursor: ByteCursor) returns (r: Result<seq<AbbrevAttr>>)
    modifies cursor
    ensures Outcome(r, cursor.offset) == ReadSpecs(cursor.data, old(cursor.offset))
  {
    hide ULeb, SLeb;
    var attrs: seq<AbbrevAttr> := [];
    PrependAllEnds(ReadSpecs(cursor.data, cursor.offset), attrs, cursor.offset);
    while true
      invariant ReadSpecs(cursor.data, old(cursor.offset)) == PrependAll(attrs, ReadSpecs(cursor.data, cursor.offset))
      decreases |cursor.data| - cursor.offset
    {
      ghost var start := cursor.offset;
      var at :- cursor.ReadULeb();
      var form :- cursor.ReadULeb();
      if at == 0 && form == 0 {
        PrependAllEnds(Read([], cursor.offset), attrs, cursor.offset);
        return Ok(attrs);
      }
      var attr := AbbrevAttr(at, form, None);
      if form == IMPLICIT_CONST {
        var value :- cursor.ReadSLeb();
        attr := AbbrevAttr(at, form, Some(value));
      }
      PrependAllSnoc(attrs, attr, ReadSpecs(cursor.data, cursor.offset));
      attrs := attrs + [attr];
    }
  }

  function PrependAll<T>(xs: seq<T>, r: Read<seq<T>>): Read<seq<T>> {
    match r
    case Malformed => Malformed
    case Read(ys, next) => Read(xs + ys, next)
  }

  lemma PrependAllSnoc<T>(xs: seq<T>, x: T, r: Read<seq<T>>)
    ensures PrependAll(xs, Prepend(x, r)) == PrependAll(xs + [x], r)
  {
    if r.Read? {
      assert xs + ([x] + r.value) == (xs + [x]) + r.value;
    }
  }

  lemma PrependAllEnds<T>(r: Read<seq<T>>, xs: seq<T>, next: nat)
    ensures PrependAll([], r) == r && PrependAll(xs, Read([], next)) == Read(xs, next)
  {
    if r.Read? {
      assert [] + r.value == r.value;
    }
    assert xs + [] == xs;
  }

  method ParseAbbrevTable(section: seq<byte>, offset: nat) returns (r: Result<Table>)
    ensures r.Ok? ==> AbbrevTable(section, offset).Read? && AbbrevTable(section, offset).value == r.value
    ensures r.Thrown? ==> AbbrevTable(section, offset).Malformed?
  {
    hide ULeb, ReadSpecs;
    var cursor := new ByteCursor(From(section, offset));
    var decls: Table := map[];
    while true
      invariant cursor.data == From(section, offset)
      invariant AbbrevTable(section, offset) == ReadDecls(cursor.data, cursor.offset, decls)
      decreases |cursor.data| - cursor.offset
    {
      var code :- cursor.ReadULeb();
      if code == 0 {
        return Ok(decls);
      }
      var tag :- cursor.ReadULeb();
      var children :- cursor.U8();
      var attrs :- ReadAttrSpecs(cursor);
      decls := decls[code := Decl(tag, children != 0, attrs)];
    }
  }

  // ----- Encoding -----

  ghost predicate SpecOk(a: AbbrevAttr) {
    && !(a.at == 0 && a.form == 0) && IsDouble(a.at) && IsDouble(a.form)
    && (a.form == 0x21 <==> a.implicitConst.Some?)
    && (a.implicitConst.Some? ==> SignedExact(a.implicitConst.value))
  }

  function EncodeSpec(a: AbbrevAttr): seq<byte> {
    EncodeULeb(a.at) + (EncodeULeb(a.form) + (if a.implicitConst.Some? then EncodeSLeb(a.implicitConst.value) else []))
  }

  function EncodeSpecs(attrs: seq<AbbrevAttr>): seq<byte> {
    if attrs == [] then EncodeULeb(0) + EncodeULeb(0) else EncodeSpec(attrs[0]) + EncodeSpecs(attrs[1..])
  }

  function EncodeDecl(d: Decl): seq<byte> {
    EncodeULeb(d.tag) + (EncodeFixed(if d.hasChildren then 1 else 0, 1) + EncodeSpecs(d.attrs))
  }

  datatype Coded = Coded(code: nat, decl: Decl)

  ghost predicate CodedOk(c: Coded) {
    && c.code != 0 && IsDouble(c.code) && IsDouble(c.decl.tag)
    && forall j :: 0 <= j < |c.decl.attrs| ==> SpecOk(c.decl.attrs[j])
  }

  function EncodeTable(decls: seq<Coded>): seq<byte> {
    if decls == [] then EncodeULeb(0)
    else EncodeULeb(decls[0].code) + (EncodeDecl(decls[0].decl) + EncodeTable(decls[1..]))
  }

  /** The table a list of declarations means: a later declaration of a code wins. */
  function TableOf(decls: seq<Coded>, table: Table): Table {
    if decls == [] then table else TableOf(decls[1..], table[decls[0].code := decls[0].decl])
  }

  lemma {:induction false} SpecsRead(s: seq<byte>, p: nat, attrs: seq<AbbrevAttr>)
    requires At(s, p, EncodeSpecs(attrs)) && forall k :: 0 <= k < |attrs| ==> SpecOk(attrs[k])
    ensures ReadSpecs(s, p) == Read(attrs, p + |EncodeSpecs(attrs)|)
    decreases |attrs|
  {
    hide ULeb, SLeb, EncodeULeb, EncodeSLeb, At, IsDouble, SignedExact;
    if attrs == [] {
      ZeroIsDouble();
      AtSplit(s, p, EncodeULeb(0), EncodeULeb(0));
      ULebInverts(s, p, 0);
      ULebInverts(s, p + |EncodeULeb(0)|, 0);
    } else {
      var a := attrs[0];
      var x, y, z := EncodeULeb(a.at), EncodeULeb(a.form),
        if a.implicitConst.Some? then EncodeSLeb(a.implicitConst.value) else [];
      AtSplit(s, p, EncodeSpec(a), EncodeSpecs(attrs[1..]));
      AtSplit(s, p, x, y + z);
      AtSplit(s, p + |x|, y, z);
      ULebInverts(s, p, a.at);
      ULebInverts(s, p + |x|, a.form);
      if a.implicitConst.Some? {
        SLebInverts(s, p + |x| + |y|, a.implicitConst.value);
      }
      SpecsRead(s, p + |EncodeSpec(a)|, attrs[1..]);
      assert a == AbbrevAttr(a.at, a.form, a.implicitConst) && attrs == [a] + attrs[1..];
      assert p + |x| + |y| + |z| == p + |EncodeSpec(a)|;
    }
  }

  lemma DeclReads(s: seq<byte>, p: nat, d: Decl)
    requires At(s, p, EncodeDecl(d)) && IsDouble(d.tag) && forall k :: 0 <= k < |d.attrs| ==> SpecOk(d.attrs[k])
    ensures ReadDecl(s, p) == Read(d, p + |EncodeDecl(d)|)
  {
    hide ULeb, EncodeULeb, At, ReadSpecs, EncodeSpecs, EncodeFixed, Fixed, SpecOk;
    var x, y := EncodeULeb(d.tag), EncodeFixed(if d.hasChildren then 1 else 0, 1);
    AtSplit(s, p, x, y + EncodeSpecs(d.attrs));
    AtSplit(s, p + |x|, y, EncodeSpecs(d.attrs));
    ULebInverts(s, p, d.tag);
    FixedReads(s, p + |x|, if d.hasChildren then 1 else 0, 1);
    SpecsRead(s, p + |x| + 1, d.attrs);
  }

  lemma {:induction false} TableReads(s: seq<byte>, p: nat, decls: seq<Coded>, table: Table)
    requires At(s, p, EncodeTable(decls))
    requires forall k :: 0 <= k < |decls| ==> CodedOk(decls[k])
    ensures ReadDecls(s, p, table) == Read(TableOf(decls, table), p + |EncodeTable(decls)|)
    decreases |decls|
  {
    hide ULeb, EncodeULeb, At, ReadDecl, EncodeDecl, SpecOk;
    if decls == [] {
      ULebInverts(s, p, 0);
    } else {
      var x, y := EncodeULeb(decls[0].code), EncodeDecl(decls[0].decl);
      AtSplit(s, p, x, y + EncodeTable(decls[1..]));
      AtSplit(s, p + |x|, y, EncodeTable(decls[1..]));
      ULebInverts(s, p, decls[0].code);
      DeclReads(s, p + |x|, decls[0].decl);
      TableReads(s, p + |x| + |y|, decls[1..], table[decls[0].code := decls[0].decl]);
    }
  }

  lemma AtFrom(section: seq<byte>, offset: nat, e: seq<byte>)
    requires At(section, offset, e)
    ensures At(From(section, offset), 0, e)
  {
    assert From(section, offset)[0..|e|] == section[offset..offset + |e|];
  }

  /** Parsing inverts encoding for abbreviation tables, wherever in the section the table lies. */
  lemma AbbrevTableInverts(section: seq<byte>, offset: nat, decls: seq<Coded>)
    requires At(section, offset, EncodeTable(decls))
    requires forall k :: 0 <= k < |decls| ==> CodedOk(decls[k])
    ensures AbbrevTable(section, offset).Read? && AbbrevTable(section, offset).value == TableOf(decls, map[])
  {
    hide At, EncodeTable, CodedOk, ReadDecls, TableOf, From;
    AtFrom(section, offset, EncodeTable(decls));
    TableReads(From(section, offset), 0, decls, map[]);
  }
}
