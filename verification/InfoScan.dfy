/**
 * The compilation-unit scan (src/dwarf/info.ts), and that it agrees with the full parse of src/dwarf/die.ts.
 */
module InfoScan {
  import opened Prelude
  import opened Doubles
  import opened Bytes
  import opened Forms
  import opened FormEncoding
  import opened Abbrev
  import opened DieTree

  const AT_NAME: nat := 0x03
  const AT_STMT_LIST: nat := 0x10
  const AT_COMP_DIR: nat := 0x1b

  datatype UnitInfo = UnitInfo(stmtListOffset: Option<nat>, compDir: Option<seq<byte>>, name: Option<seq<byte>>)

  const NOTHING: UnitInfo := UnitInfo(None, None, None)

  predicate IsOffsetForm(form: nat) {
    FormOf(form) == SecOffset || FormOf(form) == Data4
  }

  function OrElse<T>(x: Option<T>, y: Option<T>): Option<T> {
    if x.Some? then x else y
  }

  /** `readStringForm`: forms it cannot resolve are skipped, always at an address size of 4. */
  function StringForm(s: seq<byte>, p: nat, form: nat, sections: Sections): (r: Read<Option<seq<byte>>>) {
    if FormOf(form) == String then
      var (text, next) :- CString(s, p);
      Read(Some(text), next)
    else if FormOf(form) == Strp then
      var (offset, next) :- Fixed(s, p, 4);
      Read(StringAt(sections.str, offset), next)
    else if FormOf(form) == LineStrp then
      var (offset, next) :- Fixed(s, p, 4);
      Read(StringAt(sections.lineStr, offset), next)
    else
      var (_, next) :- SkipForm(s, p, form, 4);
      Read(None, next)
  }

  function ScanAttr(s: seq<byte>, p: nat, spec: AbbrevAttr, addressSize: nat, sections: Sections, info: UnitInfo):
    Read<UnitInfo>
  {
    if spec.at == AT_STMT_LIST && IsOffsetForm(spec.form) then
      var (offset, next) :- Fixed(s, p, 4);
      Read(info.(stmtListOffset := Some(offset)), next)
    else if spec.at == AT_COMP_DIR then
      var (text, next) :- StringForm(s, p, spec.form, sections);
      Read(info.(compDir := OrElse(text, info.compDir)), next)
    else if spec.at == AT_NAME then
      var (text, next) :- StringForm(s, p, spec.form, sections);
      Read(info.(name := OrElse(text, info.name)), next)
    else
      var (_, next) :- SkipForm(s, p, spec.form, addressSize);
      Read(info, next)
  }

  function ScanAttrs(s: seq<byte>, p: nat, specs: seq<AbbrevAttr>, addressSize: nat, sections: Sections,
                     info: UnitInfo): Read<UnitInfo>
    decreases |specs|
  {
    if specs == [] then Read(info, p)
    else
      var (scanned, next) :- ScanAttr(s, p, specs[0], addressSize, sections, info);
      ScanAttrs(s, next, specs[1..], addressSize, sections, scanned)
  }

  function ScanRoot(body: seq<byte>, sections: Sections): Read<UnitInfo> {
    var (header, p1) :- UnitHeader(body, 0);
    var (code, p2) :- ULeb(body, p1);
    if code == 0 then Read(NOTHING, p2)
    else
      var (table, _) :- AbbrevTable(sections.abbrev, header.abbrevOffset);
      if code !in table then Malformed
      else ScanAttrs(body, p2, table[code].attrs, header.addressSize, sections, NOTHING)
  }

  /** One unit: its root, read through a cursor over exactly the unit's bytes. */
  function ScanAt(sections: Sections, p: nat): (r: Read<UnitInfo>)
    ensures r.Read? ==> p < r.next <= |sections.info|
  {
    var (length, p1) :- InitialLength(sections.info, p);
    var (body, p2) :- Take(sections.info, p1, length);
    var (info, _) :- ScanRoot(body, sections);
    Read(info, p2)
  }

  function ScanUnits(sections: Sections, p: nat): Read<seq<UnitInfo>>
    decreases |sections.info| - p
  {
    if p >= |sections.info| then Read([], p)
    else
      var unit := ScanAt(sections, p);
      if unit.Malformed? then Malformed else Prepend(unit.value, ScanUnits(sections, unit.next))
  }

  // ----- Reading through a bounded cursor -----

  /**
   * What a read of the section says through a cursor over [base, end): positions move by `base`, and a
   * read that ends past `end` throws.
   */
  function Window<T>(r: Read<T>, base: nat, end: nat): Read<T>
    requires r.Read? ==> base <= r.next
  {
    if r.Read? && r.next <= end then Read(r.value, r.next - base) else Malformed
  }

  lemma FixedWindow(s: seq<byte>, base: nat, end: nat, p: nat, n: nat)
    requires base <= end <= |s| && p <= end - base
    ensures Fixed(s[base..end], p, n) == Window(Fixed(s, base + p, n), base, end)
  {
    if base + p + n <= end {
      var a, b := s[base..end][p..p + n], s[base + p..base + p + n];
      assert |a| == |b| && forall k :: 0 <= k < n ==> a[k] == b[k];
      assert a == b;
    }
  }

  lemma {:induction false} LebCountWindow(s: seq<byte>, base: nat, end: nat, p: nat)
    requires base <= end <= |s| && p <= end - base
    ensures LebCount(s[base..end], p) == Window(LebCount(s, base + p), base, end)
    decreases end - base - p
  {
    if base + p < end {
      LebCountWindow(s, base, end, p + 1);
    }
  }

  lemma {:induction false} LebRoundedWindow(s: seq<byte>, base: nat, end: nat, p: nat, n: nat)
    requires base <= end <= |s| && base + p + n <= end
    ensures LebRounded(s[base..end], p, n) == LebRounded(s, base + p, n)
    decreases n
  {
    if n > 0 {
      LebRoundedWindow(s, base, end, p, n - 1);
    }
  }

  lemma ULebWindow(s: seq<byte>, base: nat, end: nat, p: nat)
    requires base <= end <= |s| && p <= end - base
    ensures ULeb(s[base..end], p) == Window(ULeb(s, base + p), base, end)
  {
    hide LebCount, LebRounded;
    LebCountWindow(s, base, end, p);
    var n := LebCount(s, base + p);
    if n.Read? && n.next <= end {
      LebRoundedWindow(s, base, end, p, n.value);
    }
  }

  lemma SLebWindow(s: seq<byte>, base: nat, end: nat, p: nat)
    requires base <= end <= |s| && p <= end - base
    ensures SLeb(s[base..end], p) == Window(SLeb(s, base + p), base, end)
  {
    hide LebCount, LebRounded, Signed;
    LebCountWindow(s, base, end, p);
    var n := LebCount(s, base + p);
    if n.Read? && n.next <= end {
      LebRoundedWindow(s, base, end, p, n.value);
    }
  }

  lemma CStringWindow(s: seq<byte>, base: nat, end: nat, p: nat)
    requires base <= end <= |s| && p <= end - base
    ensures CString(s[base..end], p) == Window(CString(s, base + p), base, end)
  {
    var body := s[base..end];
    var inner, outer := Terminator(body, p), Terminator(s, base + p);
    if inner.Some? {
      assert s[base + inner.value] == 0;
      assert forall k :: base + p <= k < base + inner.value ==> s[k] == body[k - base];
      assert outer.value == base + inner.value;
      assert body[p..inner.value] == s[base + p..outer.value];
    } else {
      assert forall k :: base + p <= k < end ==> s[k] == body[k - base];
    }
  }

  lemma CountedWindow(s: seq<byte>, base: nat, end: nat, length: Read<nat>)
    requires base <= end <= |s| && (length.Read? ==> base <= length.next)
    ensures SkipCounted(s[base..end], Window(length, base, end)) == Window(SkipCounted(s, length), base, end)
  {
  }

  /** What `skipByForm` does for each operand layout. */
  function SkipLayout(s: seq<byte>, p: nat, layout: Layout, addressSize: nat): Read<()> {
    match layout
    case FixedWidth(n) => Skip(s, p, n)
    case Raw(n) => Skip(s, p, n)
    case UnsignedLeb => Drop(ULeb(s, p))
    case SignedLeb => Drop(SLeb(s, p))
    case Terminated => Drop(CString(s, p))
    case Counted(w) => SkipCounted(s, if w == 0 then ULeb(s, p) else Fixed(s, p, w))
    case Empty => Read((), p)
    case Nested =>
      var (code, next) :- ULeb(s, p);
      SkipForm(s, next, code, addressSize)
    case Undefined => Malformed
  }

  lemma SkipsItsLayout(s: seq<byte>, p: nat, form: nat, addressSize: nat)
    ensures SkipForm(s, p, form, addressSize) == SkipLayout(s, p, LayoutOf(form, addressSize), addressSize)
  {
    NamesItsLayout(form, addressSize);
    hide LayoutOf, FormOf, Fixed, ULeb, CString, SLeb, Skip, SkipCounted;
  }

  lemma FlatWindow(s: seq<byte>, base: nat, end: nat, p: nat, layout: Layout, addressSize: nat)
    requires base <= end <= |s| && p <= end - base && !layout.Nested?
    ensures var r := SkipLayout(s, base + p, layout, addressSize);
            && (r.Read? ==> base <= r.next)
            && SkipLayout(s[base..end], p, layout, addressSize) == Window(r, base, end)
  {
    hide ULeb, SLeb, CString, SkipCounted, Fixed;
    match layout
    case FixedWidth(n) =>
    case Raw(n) =>
    case UnsignedLeb => ULebWindow(s, base, end, p);
    case SignedLeb => SLebWindow(s, base, end, p);
    case Terminated => CStringWindow(s, base, end, p);
    case Counted(w) =>
      ULebWindow(s, base, end, p);
      FixedWindow(s, base, end, p, w);
      CountedWindow(s, base, end, if w == 0 then ULeb(s, base + p) else Fixed(s, base + p, w));
    case Empty =>
    case Undefined =>
  }

  /** Skipping any form through the bounded cursor is skipping it in the section, or running off the end. */
  lemma {:induction false} SkipFormWindow(s: seq<byte>, base: nat, end: nat, p: nat, form: nat, addressSize: nat)
    requires base <= end <= |s| && p <= end - base
    ensures SkipForm(s[base..end], p, form, addressSize) == Window(SkipForm(s, base + p, form, addressSize), base, end)
    decreases end - base - p
  {
    hide FormOf, LayoutOf, SkipLayout, SkipForm, ULeb;
    var body, layout := s[base..end], LayoutOf(form, addressSize);
    SkipsItsLayout(body, p, form, addressSize);
    SkipsItsLayout(s, base + p, form, addressSize);
    if !layout.Nested? {
      FlatWindow(s, base, end, p, layout, addressSize);
    } else {
      NestedSkips(body, p, addressSize);
      NestedSkips(s, base + p, addressSize);
      ULebWindow(s, base, end, p);
      var code := ULeb(s, base + p);
      if code.Read? && code.next <= end {
        SkipFormWindow(s, base, end, code.next - base, code.value, addressSize);
      }
    }
  }

  lemma NestedSkips(s: seq<byte>, p: nat, addressSize: nat)
    ensures SkipLayout(s, p, Nested, addressSize) ==
            var code := ULeb(s, p);
            if code.Malformed? then Malformed else SkipForm(s, code.next, code.value, addressSize)
  {
  }

  // ----- Agreement with the full parse -----

  predicate IsText(at: nat) {
    at == AT_COMP_DIR || at == AT_NAME
  }

  predicate IsStringForm(form: nat) {
    FormOf(form) == String || FormOf(form) == Strp || FormOf(form) == LineStrp
  }

  /** The text a name or directory tells the scan, given what the full parse reads for it. */
  function Told(spec: AbbrevAttr, value: AttrValue): Option<seq<byte>> {
    if IsStringForm(spec.form) && value.Str? then Some(value.text) else None
  }

  /** What the scan knows after one more attribute, given what the full parse reads for it. */
  function Noted(info: UnitInfo, spec: AbbrevAttr, value: AttrValue): UnitInfo {
    if spec.at == AT_STMT_LIST && IsOffsetForm(spec.form) && value.UInt? then info.(stmtListOffset := Some(value.n))
    else if spec.at == AT_COMP_DIR then info.(compDir := OrElse(Told(spec, value), info.compDir))
    else if spec.at == AT_NAME then info.(name := OrElse(Told(spec, value), info.name))
    else info
  }

  /** The full parse of a DIE's attributes, as the scan would note them. */
  function NotedAll(s: seq<byte>, p: nat, specs: seq<AbbrevAttr>, ctx: FormContext, info: UnitInfo):
    (r: Read<UnitInfo>)
    ensures r.Read? && p <= |s| ==> p <= r.next <= |s|
    decreases |specs|
  {
    if specs == [] then Read(info, p)
    else
      var v := ReadForm(s, p, specs[0], ctx);
      if v.Malformed? then Malformed else NotedAll(s, v.next, specs[1..], ctx, Noted(info, specs[0], v.value))
  }

  function NotedOne(info: UnitInfo, spec: AbbrevAttr, r: Read<AttrValue>): Read<UnitInfo> {
    match r
    case Malformed => Malformed
    case Read(value, next) => Read(Noted(info, spec, value), next)
  }

  lemma OffsetAgrees(s: seq<byte>, p: nat, spec: AbbrevAttr, ctx: FormContext)
    requires IsOffsetForm(spec.form)
    ensures ReadForm(s, p, spec, ctx) == AsUInt(Fixed(s, p, 4))
  {
    hide Fixed;
  }

  function ToldBy(spec: AbbrevAttr, r: Read<AttrValue>): Read<Option<seq<byte>>> {
    match r
    case Malformed => Malformed
    case Read(value, next) => Read(Told(spec, value), next)
  }

  lemma StringAgrees(s: seq<byte>, base: nat, end: nat, p: nat, spec: AbbrevAttr, sections: Sections, ctx: FormContext)
    requires base <= end <= |s| && p <= end - base && IsStringForm(spec.form)
    requires ctx.str == sections.str && ctx.lineStr == sections.lineStr
    ensures StringForm(s[base..end], p, spec.form, sections) ==
            ToldBy(spec, Window(ReadForm(s, base + p, spec, ctx), base, end))
  {
    hide FormOf, Fixed, CString, StringAt;
    FixedWindow(s, base, end, p, 4);
    CStringWindow(s, base, end, p);
  }

  lemma OtherAgrees(s: seq<byte>, base: nat, end: nat, p: nat, spec: AbbrevAttr, ctx: FormContext)
    requires base <= end <= |s| && p <= end - base && Readable(ctx.addressSize)
    ensures SkipForm(s[base..end], p, spec.form, ctx.addressSize) ==
            Window(Drop(ReadForm(s, base + p, spec, ctx)), base, end)
  {
    hide ReadForm, SkipForm;
    SkipFormWindow(s, base, end, p, spec.form, ctx.addressSize);
    ReadSkipParity(s, base + p, spec, ctx);
  }

  /** Text attributes are skipped at an address size of 4: right for any size unless the form is addr or `indirect`. */
  predicate SizeKept(spec: AbbrevAttr, addressSize: nat) {
    addressSize == 4 || (spec.form != 0x01 && spec.form != 0x16)
  }

  lemma SizeIrrelevant(s: seq<byte>, p: nat, spec: AbbrevAttr, addressSize: nat)
    requires SizeKept(spec, addressSize)
    ensures SkipForm(s, p, spec.form, 4) == SkipForm(s, p, spec.form, addressSize)
  {
    hide SkipForm;
    SkipsItsLayout(s, p, spec.form, 4);
    SkipsItsLayout(s, p, spec.form, addressSize);
    NestedCode(spec.form, addressSize);
    hide SkipLayout;
    SameLayout(spec.form, addressSize);
    FlatSkips(s, p, LayoutOf(spec.form, 4), addressSize);
  }

  lemma SameLayout(code: nat, addressSize: nat)
    ensures code != 0x01 ==> LayoutOf(code, 4) == LayoutOf(code, addressSize)
    ensures LayoutOf(code, 4).Nested? <==> code == 0x16
  {
  }

  lemma FlatSkips(s: seq<byte>, p: nat, layout: Layout, addressSize: nat)
    ensures !layout.Nested? ==> SkipLayout(s, p, layout, 4) == SkipLayout(s, p, layout, addressSize)
  {
    hide ULeb, SLeb, CString, SkipCounted, Fixed, Skip;
  }

  lemma TextAgrees(s: seq<byte>, base: nat, end: nat, p: nat, spec: AbbrevAttr, sections: Sections, ctx: FormContext)
    requires base <= end <= |s| && p <= end - base && Readable(ctx.addressSize) && SizeKept(spec, ctx.addressSize)
    requires ctx.str == sections.str && ctx.lineStr == sections.lineStr
    ensures StringForm(s[base..end], p, spec.form, sections) ==
            ToldBy(spec, Window(ReadForm(s, base + p, spec, ctx), base, end))
  {
    hide ReadForm, SkipForm, CString, Fixed, FormOf, StringAt;
    if IsStringForm(spec.form) {
      StringAgrees(s, base, end, p, spec, sections, ctx);
    } else {
      OtherAgrees(s, base, end, p, spec, ctx);
      SizeIrrelevant(s[base..end], p, spec, ctx.addressSize);
    }
  }

  /** One attribute of any kind: the scan through the unit's cursor notes what the parse of the section reads. */
  lemma AttrAgrees(s: seq<byte>, base: nat, end: nat, p: nat, spec: AbbrevAttr, sections: Sections, ctx: FormContext,
                   info: UnitInfo)
    requires base <= end <= |s| && p <= end - base
    requires Readable(ctx.addressSize) && ctx.str == sections.str && ctx.lineStr == sections.lineStr
    requires spec.at == 0x03 || spec.at == 0x1b ==> SizeKept(spec, ctx.addressSize)
    ensures ScanAttr(s[base..end], p, spec, ctx.addressSize, sections, info) ==
            NotedOne(info, spec, Window(ReadForm(s, base + p, spec, ctx), base, end))
  {
    hide ReadForm, StringForm, SkipForm, Fixed, IsOffsetForm, IsStringForm, FormOf;
    if spec.at == AT_STMT_LIST && IsOffsetForm(spec.form) {
      FixedWindow(s, base, end, p, 4);
      OffsetAgrees(s, base + p, spec, ctx);
    } else if IsText(spec.at) {
      TextAgrees(s, base, end, p, spec, sections, ctx);
    } else {
      OtherAgrees(s, base, end, p, spec, ctx);
    }
  }

  ghost predicate SizesKept(specs: seq<AbbrevAttr>, addressSize: nat) {
    forall k :: 0 <= k < |specs| && (specs[k].at == 0x03 || specs[k].at == 0x1b) ==> SizeKept(specs[k], addressSize)
  }

  /**
   * All of a DIE's attributes, whatever they are: the scan succeeds exactly when the parse does without
   * leaving the unit, ends where it ends, and notes what it reads.
   */
  lemma {:induction false} AttrsAgree(s: seq<byte>, base: nat, end: nat, p: nat, specs: seq<AbbrevAttr>,
                                      sections: Sections, ctx: FormContext, info: UnitInfo)
    requires base <= end <= |s| && p <= end - base
    requires Readable(ctx.addressSize) && ctx.str == sections.str && ctx.lineStr == sections.lineStr
    requires SizesKept(specs, ctx.addressSize)
    ensures ScanAttrs(s[base..end], p, specs, ctx.addressSize, sections, info) ==
            Window(NotedAll(s, base + p, specs, ctx, info), base, end)
    decreases |specs|
  {
    hide ReadForm, ScanAttr, Noted;
    if specs != [] {
      AttrAgrees(s, base, end, p, specs[0], sections, ctx, info);
      var r := ReadForm(s, base + p, specs[0], ctx);
      if r.Read? && r.next <= end {
        AttrsAgree(s, base, end, r.next - base, specs[1..], sections, ctx, Noted(info, specs[0], r.value));
      }
    }
  }

  // ----- The same fields -----

  function NumberIn(attrs: map<nat, AttrValue>, at: nat): Option<nat> {
    if at in attrs && attrs[at].UInt? then Some(attrs[at].n) else None
  }

  function TextIn(attrs: map<nat, AttrValue>, at: nat): Option<seq<byte>> {
    if at in attrs && attrs[at].Str? then Some(attrs[at].text) else None
  }

  /** Every `stmt_list` is a section offset: in sec_offset, or in data4. */
  ghost predicate OffsetStmtList(specs: seq<AbbrevAttr>) {
    forall k :: 0 <= k < |specs| && specs[k].at == 0x10 ==> specs[k].form == 0x17 || specs[k].form == 0x06
  }

  /** `at` is given at most once (section 2.2 of DWARF version 5), and its form is not `indirect`. */
  ghost predicate GivenPlainly(specs: seq<AbbrevAttr>, at: nat) {
    && (forall k :: 0 <= k < |specs| && specs[k].at == at ==> specs[k].form != 0x16)
    && (forall j, k :: 0 <= j < k < |specs| && specs[j].at == at ==> specs[k].at != at)
  }

  ghost predicate Given(specs: seq<AbbrevAttr>, at: nat) {
    exists k :: 0 <= k < |specs| && specs[k].at == at
  }

  lemma OffsetForms(form: nat)
    ensures IsOffsetForm(form) <==> form == 0x17 || form == 0x06
  {
  }

  /** An offset reads as a number. */
  lemma OffsetIsNumber(s: seq<byte>, p: nat, spec: AbbrevAttr, ctx: FormContext)
    requires IsOffsetForm(spec.form) && ReadForm(s, p, spec, ctx).Read?
    ensures ReadForm(s, p, spec, ctx).value.UInt?
  {
    OffsetAgrees(s, p, spec, ctx);
    hide ReadForm;
  }

  /** Only the three string forms, and `indirect`, ever read as a string. */
  lemma StringsByForm(s: seq<byte>, p: nat, spec: AbbrevAttr, ctx: FormContext)
    requires ReadForm(s, p, spec, ctx).Read? && ReadForm(s, p, spec, ctx).value.Str?
    ensures IsStringForm(spec.form) || FormOf(spec.form) == Indirect
  {
    hide Fixed, ULeb, SLeb, CString, SkipForm, ReadU64, ReadUint, Take, StringAt, Round;
  }

  /** Exactly where the scan and the parse disagree on a text: an `indirect` form that leads to a string. */
  lemma ToldIff(s: seq<byte>, p: nat, spec: AbbrevAttr, ctx: FormContext)
    requires ReadForm(s, p, spec, ctx).Read?
    ensures var value := ReadForm(s, p, spec, ctx).value;
            Told(spec, value) == (if value.Str? then Some(value.text) else None)
            <==> !(spec.form == 0x16 && value.Str?)
  {
    if ReadForm(s, p, spec, ctx).value.Str? {
      StringsByForm(s, p, spec, ctx);
    }
    hide ReadForm;
  }

  /** Attributes read as the scan notes them fail and end together with attributes read into a DIE. */
  lemma {:induction false} NotedLikeRead(s: seq<byte>, p: nat, specs: seq<AbbrevAttr>, ctx: FormContext,
                                         info: UnitInfo, attrs: map<nat, AttrValue>)
    ensures Drop(NotedAll(s, p, specs, ctx, info)) == Drop(ReadAttrs(s, p, specs, ctx, attrs))
    decreases |specs|
  {
    hide ReadForm, Noted;
    if specs != [] && ReadForm(s, p, specs[0], ctx).Read? {
      var v := ReadForm(s, p, specs[0], ctx);
      NotedLikeRead(s, v.next, specs[1..], ctx, Noted(info, specs[0], v.value), attrs[specs[0].at := v.value]);
    }
  }

  lemma {:induction false} StmtListNoted(s: seq<byte>, p: nat, specs: seq<AbbrevAttr>, ctx: FormContext,
                                         info: UnitInfo, attrs: map<nat, AttrValue>)
    requires OffsetStmtList(specs) && info.stmtListOffset == NumberIn(attrs, 0x10)
    requires ReadAttrs(s, p, specs, ctx, attrs).Read? && NotedAll(s, p, specs, ctx, info).Read?
    ensures NotedAll(s, p, specs, ctx, info).value.stmtListOffset ==
            NumberIn(ReadAttrs(s, p, specs, ctx, attrs).value, 0x10)
    decreases |specs|
  {
    hide ReadForm, IsOffsetForm, Told;
    if specs != [] {
      var v := ReadForm(s, p, specs[0], ctx);
      if specs[0].at == AT_STMT_LIST {
        OffsetForms(specs[0].form);
        OffsetIsNumber(s, p, specs[0], ctx);
      }
      StmtListNoted(s, v.next, specs[1..], ctx, Noted(info, specs[0], v.value), attrs[specs[0].at := v.value]);
    }
  }

  function TextField(info: UnitInfo, at: nat): Option<seq<byte>> {
    if at == AT_NAME then info.name else info.compDir
  }

  lemma {:induction false} TextNoted(s: seq<byte>, p: nat, specs: seq<AbbrevAttr>, ctx: FormContext,
                                     info: UnitInfo, attrs: map<nat, AttrValue>, at: nat)
    requires IsText(at) && GivenPlainly(specs, at) && (Given(specs, at) ==> at !in attrs)
    requires TextField(info, at) == TextIn(attrs, at)
    requires ReadAttrs(s, p, specs, ctx, attrs).Read? && NotedAll(s, p, specs, ctx, info).Read?
    ensures TextField(NotedAll(s, p, specs, ctx, info).value, at) ==
            TextIn(ReadAttrs(s, p, specs, ctx, attrs).value, at)
    decreases |specs|
  {
    hide ReadForm, Told, FormOf, IsOffsetForm;
    if specs != [] {
      var v := ReadForm(s, p, specs[0], ctx);
      var rest := specs[1..];
      assert forall k :: 0 <= k < |rest| ==> rest[k] == specs[k + 1];
      if specs[0].at == at {
        assert Given(specs, at);
        ToldIff(s, p, specs[0], ctx);
      }
      TextNoted(s, v.next, rest, ctx, Noted(info, specs[0], v.value), attrs[specs[0].at := v.value], at);
    }
  }

  lemma OneByteULeb(s: seq<byte>, p: nat)
    requires p < |s| && s[p] < 128
    ensures ULeb(s, p) == Read(s[p], p + 1)
  {
    RoundExactIff(s[p]);
    hide Round;
    assert LebRounded(s, p, 0) == 0 && Pow128(0) == 1;
    assert LebRounded(s, p, 1) == Round(0 + s[p] as int * 1);
  }

  /** A name through `indirect` is told by the parse and not by the scan. */
  lemma IndirectNameDiffers()
    ensures var s: seq<byte> := [0x08, 0x61, 0x00];
            var spec := AbbrevAttr(AT_NAME, 0x16, None);
            var ctx := FormContext(4, 0, None, None);
            && ReadForm(s, 0, spec, ctx) == Read(Str([0x61]), 3)
            && ScanAttr(s, 0, spec, 4, Sections(s, [], None, None), NOTHING) == Read(NOTHING, 3)
  {
    var s: seq<byte> := [0x08, 0x61, 0x00];
    var spec, ctx := AbbrevAttr(AT_NAME, 0x16, None), FormContext(4, 0, None, None);
    OneByteULeb(s, 0);
    hide ULeb;
    assert Terminator(s, 1) == Some(2) && s[1..2] == [0x61];
    assert CString(s, 1) == Read([0x61], 3);
    hide CString;
    assert FormOf(0x16) == Indirect && FormOf(0x08) == String;
    assert ReadForm(s, 1, AbbrevAttr(AT_NAME, 0x08, None), ctx) == Read(Str([0x61]), 3);
    assert SkipForm(s, 1, 0x08, 4) == Read((), 3);
  }

  lemma HeaderWindow(s: seq<byte>, base: nat, end: nat)
    requires base <= end <= |s|
    ensures UnitHeader(s[base..end], 0) == Window(UnitHeader(s, base), base, end)
  {
    hide LittleEndian;
    FixedWindow(s, base, end, 0, 2);
    if end - base >= 2 {
      FixedWindow(s, base, end, 2, 4);
      FixedWindow(s, base, end, 2, 1);
    }
    if end - base >= 3 {
      FixedWindow(s, base, end, 3, 1);
    }
    if end - base >= 6 {
      FixedWindow(s, base, end, 4, 4);
      FixedWindow(s, base, end, 6, 1);
    }
  }

  /** The root DIE's abbreviation declaration and where its attributes start. */
  function RootDecl(sections: Sections, p: nat): Option<(Decl, nat)> {
    var length := InitialLength(sections.info, p);
    if length.Malformed? then None
    else
      var header := UnitHeader(sections.info, length.next);
      if header.Malformed? then None
      else
        var table := AbbrevTable(sections.abbrev, header.value.abbrevOffset);
        var code := ULeb(sections.info, header.next);
        if table.Malformed? || code.Malformed? || code.value !in table.value then None
        else Some((table.value[code.value], code.next))
  }

  /**
   * The unit at `p` parses, holds its whole tree within its stated length, and has addresses of a size both
   * parsers read, with no name or directory that depends on it.
   */
  ghost predicate WellFormed(sections: Sections, p: nat) {
    && UnitAt(sections, p).Read?
    && UnitAt(sections, p).next == UnitEnd(sections, p)
    && var a := UnitHeader(sections.info, InitialLength(sections.info, p).next).value.addressSize;
       Readable(a) && (RootDecl(sections, p).Some? ==> SizesKept(RootDecl(sections, p).value.0.attrs, a))
  }

  /** The end the unit's length field states. */
  function UnitEnd(sections: Sections, p: nat): nat
    requires InitialLength(sections.info, p).Read?
  {
    InitialLength(sections.info, p).next + InitialLength(sections.info, p).value
  }

  lemma RootRead(s: seq<byte>, p: nat, table: Table, ctx: FormContext)
    requires ParseDie(s, p, table, ctx).Read?
    ensures var code, root := ULeb(s, p), ParseDie(s, p, table, ctx);
            && code.Read? && code.next <= root.next
            && (code.value == 0 <==> root.value.None?)
            && (code.value != 0 ==>
                  && code.value in table
                  && var attrs := ReadAttrs(s, code.next, table[code.value].attrs, ctx, map[]);
                     attrs.Read? && attrs.next <= root.next && root.value.value.attrs == attrs.value)
  {
    hide ULeb, ReadAttrs;
  }

  /** What the scan reports of a root, field by field, against the attributes the full parse gave it. */
  ghost predicate Reports(info: UnitInfo, specs: seq<AbbrevAttr>, attrs: map<nat, AttrValue>) {
    && (OffsetStmtList(specs) ==> info.stmtListOffset == NumberIn(attrs, 0x10))
    && (GivenPlainly(specs, 0x03) ==> info.name == TextIn(attrs, 0x03))
    && (GivenPlainly(specs, 0x1b) ==> info.compDir == TextIn(attrs, 0x1b))
  }

  lemma AttrsReported(s: seq<byte>, p: nat, specs: seq<AbbrevAttr>, ctx: FormContext)
    requires ReadAttrs(s, p, specs, ctx, map[]).Read?
    ensures var noted, attrs := NotedAll(s, p, specs, ctx, NOTHING), ReadAttrs(s, p, specs, ctx, map[]);
            noted.Read? && noted.next == attrs.next && Reports(noted.value, specs, attrs.value)
  {
    hide NotedAll, ReadAttrs, OffsetStmtList, GivenPlainly;
    NotedLikeRead(s, p, specs, ctx, NOTHING, map[]);
    if OffsetStmtList(specs) {
      StmtListNoted(s, p, specs, ctx, NOTHING, map[]);
    }
    if GivenPlainly(specs, AT_NAME) {
      TextNoted(s, p, specs, ctx, NOTHING, map[], AT_NAME);
    }
    if GivenPlainly(specs, AT_COMP_DIR) {
      TextNoted(s, p, specs, ctx, NOTHING, map[], AT_COMP_DIR);
    }
  }

  /** The scan of a unit's root against its parse. */
  ghost predicate ScannedRight(sections: Sections, p: nat, info: UnitInfo)
    requires UnitAt(sections, p).Read?
  {
    match UnitAt(sections, p).value
    case None => info == NOTHING
    case Some(unit) =>
      RootDecl(sections, p).Some? && Reports(info, RootDecl(sections, p).value.0.attrs, unit.die.attrs)
  }

  lemma ScanRootAgrees(sections: Sections, p: nat)
    requires WellFormed(sections, p)
    ensures var length := InitialLength(sections.info, p);
            var unit := UnitAt(sections, p);
            && length.Read? && length.next <= unit.next
            && var r := ScanRoot(sections.info[length.next..unit.next], sections);
               r.Read? && ScannedRight(sections, p, r.value)
  {
    hide LittleEndian, UnitHeader, ULeb, AbbrevTable, ParseDie, ReadAttrs, ScanAttrs, NotedAll, Reports, SizesKept;
    var s := sections.info;
    var base, end := InitialLength(s, p).next, UnitAt(sections, p).next;
    var header := UnitHeader(s, base);
    var ctx := ContextOf(sections, header.value, p);
    var table := AbbrevTable(sections.abbrev, header.value.abbrevOffset).value;
    RootRead(s, header.next, table, ctx);
    var code := ULeb(s, header.next);
    HeaderWindow(s, base, end);
    ULebWindow(s, base, end, header.next - base);
    if code.value != 0 {
      var specs := table[code.value].attrs;
      AttrsReported(s, code.next, specs, ctx);
      AttrsAgree(s, base, end, code.next - base, specs, sections, ctx, NOTHING);
    }
  }

  /**
   * On a well-formed unit the scan and the full parse end at the same place and report the same root: the
   * same `stmt_list` whenever that is a section offset, the same name and directory unless given by `indirect`.
   */
  lemma ScanAgrees(sections: Sections, p: nat)
    requires WellFormed(sections, p)
    ensures var scan := ScanAt(sections, p);
            scan.Read? && scan.next == UnitAt(sections, p).next && ScannedRight(sections, p, scan.value)
  {
    hide InitialLength, ScanRoot, UnitAt, ScannedRight;
    ScanRootAgrees(sections, p);
  }

  /** Units that are all well formed, each with a root, fill the section from `p` on. */
  ghost predicate AllWellFormed(sections: Sections, p: nat)
    decreases |sections.info| - p
  {
    p >= |sections.info| ||
    (WellFormed(sections, p) && UnitAt(sections, p).value.Some? && AllWellFormed(sections, UnitAt(sections, p).next))
  }

  /** Every unit's root gives `stmt_list` as a section offset. */
  ghost predicate AllOffsets(sections: Sections, p: nat)
    decreases |sections.info| - p
  {
    p < |sections.info| && UnitAt(sections, p).Read? ==>
      && (RootDecl(sections, p).Some? ==> OffsetStmtList(RootDecl(sections, p).value.0.attrs))
      && AllOffsets(sections, UnitAt(sections, p).next)
  }

  lemma StmtListScanned(sections: Sections, p: nat)
    requires WellFormed(sections, p) && UnitAt(sections, p).value.Some?
    requires RootDecl(sections, p).Some? ==> OffsetStmtList(RootDecl(sections, p).value.0.attrs)
    ensures var scan := ScanAt(sections, p);
            && scan.Read? && scan.next == UnitAt(sections, p).next
            && scan.value.stmtListOffset == NumberIn(UnitAt(sections, p).value.value.die.attrs, 0x10)
  {
    hide UnitAt, ScanAt, RootDecl, OffsetStmtList, WellFormed;
    ScanAgrees(sections, p);
  }

  /** The line programs the table is built from are those the DIE trees name, unit by unit. */
  lemma {:induction false} ScansAgree(sections: Sections, p: nat)
    requires AllWellFormed(sections, p) && AllOffsets(sections, p)
    ensures ParseUnits(sections, p).Read? && ScanUnits(sections, p).Read?
    ensures SameStmtLists(ParseUnits(sections, p).value, ScanUnits(sections, p).value)
    decreases |sections.info| - p
  {
    assert p < |sections.info| ==> UnitAt(sections, p).Read?;
    hide WellFormed, UnitAt, ScanAt, NumberIn, OffsetStmtList, RootDecl, SameStmtLists;
    if p < |sections.info| {
      StmtListScanned(sections, p);
      var next := UnitAt(sections, p).next;
      ScansAgree(sections, next);
      SameStmtListsGrow(UnitAt(sections, p).value.value, ScanAt(sections, p).value,
                        ParseUnits(sections, next).value, ScanUnits(sections, next).value);
    } else {
      NoStmtLists();
    }
  }

  ghost predicate SameStmtLists(units: seq<CompUnit>, infos: seq<UnitInfo>) {
    && |units| == |infos|
    && forall k :: 0 <= k < |units| ==> infos[k].stmtListOffset == NumberIn(units[k].die.attrs, 0x10)
  }

  lemma SameStmtListsGrow(unit: CompUnit, info: UnitInfo, units: seq<CompUnit>, infos: seq<UnitInfo>)
    requires info.stmtListOffset == NumberIn(unit.die.attrs, 0x10) && SameStmtLists(units, infos)
    ensures SameStmtLists([unit] + units, [info] + infos)
  {
    hide NumberIn;
  }

  lemma NoStmtLists()
    ensures SameStmtLists([], [])
  {
  }

  // ----- The scanner -----

  method ReadStringForm(cursor: ByteCursor, form: nat, sections: Sections) returns (r: Result<Option<seq<byte>>>)
    modifies cursor
    ensures Outcome(r, cursor.offset) == StringForm(cursor.data, old(cursor.offset), form, sections)
  {
    hide FormOf, SkipForm, Fixed, CString, StringAt;
    if FormOf(form) == String {
      var text :- cursor.ReadCString();
      r := Ok(Some(text));
    } else if FormOf(form) == Strp {
      var offset :- cursor.U32();
      r := Ok(StringAt(sections.str, offset));
    } else if FormOf(form) == LineStrp {
      var offset :- cursor.U32();
      r := Ok(StringAt(sections.lineStr, offset));
    } else {
      var skipped :- SkipByForm(cursor, form, 4);
      r := Ok(None);
    }
  }

  /** One turn of the attribute loop of `scanUnit`. */
  method ScanAttribute(unit: ByteCursor, attr: AbbrevAttr, addressSize: nat, sections: Sections, info: UnitInfo)
    returns (r: Result<UnitInfo>)
    modifies unit
    ensures Outcome(r, unit.offset) == ScanAttr(unit.data, old(unit.offset), attr, addressSize, sections, info)
  {
    hide FormOf, SkipForm, StringForm, Fixed, IsOffsetForm;
    if attr.at == AT_STMT_LIST && IsOffsetForm(attr.form) {
      var offset :- unit.U32();
      r := Ok(info.(stmtListOffset := Some(offset)));
    } else if attr.at == AT_COMP_DIR || attr.at == AT_NAME {
      var value :- ReadStringForm(unit, attr.form, sections);
      r := Ok(if attr.at == AT_COMP_DIR then info.(compDir := OrElse(value, info.compDir))
              else info.(name := OrElse(value, info.name)));
    } else {
      var skipped :- SkipByForm(unit, attr.form, addressSize);
      r := Ok(info);
    }
  }

  /** The method `scanUnit`; `unit` holds the unit's bytes. */
  method ScanUnit(unit: ByteCursor, sections: Sections) returns (r: Result<UnitInfo>)
    requires unit.offset == 0
    modifies unit
    ensures Outcome(r, unit.offset) == ScanRoot(unit.data, sections)
  {
    hide UnitHeader, ULeb, AbbrevTable, ScanAttr;
    var header :- ReadHeader(unit);
    var code :- unit.ReadULeb();
    if code == 0 {
      return Ok(NOTHING);
    }
    var abbrevs :- ParseAbbrevTable(sections.abbrev, header.abbrevOffset);
    if code !in abbrevs {
      return Thrown;
    }
    var specs := abbrevs[code].attrs;
    var info := NOTHING;
    for i := 0 to |specs|
      invariant ScanRoot(unit.data, sections) ==
                ScanAttrs(unit.data, unit.offset, specs[i..], header.addressSize, sections, info)
    {
      assert specs[i..][1..] == specs[i + 1..];
      info :- ScanAttribute(unit, specs[i], header.addressSize, sections, info);
    }
    r := Ok(info);
  }

  method ScanCompilationUnits(sections: Sections) returns (r: Result<seq<UnitInfo>>)
    ensures r.Thrown? <==> ScanUnits(sections, 0).Malformed?
    ensures r.Ok? ==> r.value == ScanUnits(sections, 0).value
  {
    hide InitialLength, Take, ScanRoot;
    var units: seq<UnitInfo> := [];
    var cursor := new ByteCursor(sections.info);
    PrependAllEnds(ScanUnits(sections, 0), [], 0);
    while cursor.offset < |sections.info|
      invariant cursor.data == sections.info
      invariant ScanUnits(sections, 0) == PrependAll(units, ScanUnits(sections, cursor.offset))
      decreases |sections.info| - cursor.offset
    {
      ghost var start := cursor.offset;
      var unitLength :- cursor.ReadInitialLength();
      var unit :- cursor.Sub(unitLength);
      var info :- ScanUnit(unit, sections);
      assert ScanAt(sections, start) == Read(info, cursor.offset);
      PrependAllSnoc(units, info, ScanUnits(sections, cursor.offset));
      units := units + [info];
    }
    PrependAllEnds(ScanUnits(sections, cursor.offset), units, cursor.offset);
    r := Ok(units);
  }
}
