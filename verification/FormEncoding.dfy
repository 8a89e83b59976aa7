/**
 * Attribute encodings (section 7.5.6 of DWARF version 5), and that `readForm` inverts them in every form and
 * at any nesting of `indirect`.
 */
module FormEncoding {
  import opened Prelude
  import opened Doubles
  import opened Bytes
  import opened Forms

  /** What an attribute carries in the DIE, before it is interpreted. */
  datatype Operand =
    | Number(n: nat)
    | SignedNumber(i: int)
    | Text(bytes: seq<byte>)
    | Via(form: nat, inner: Operand)
    | NoOperand

  /** How a form's operand is laid out. `Counted(0)` has a ULEB128 length, `Counted(w)` one of `w` bytes. */
  datatype Layout =
    | FixedWidth(n: nat)
    | UnsignedLeb
    | SignedLeb
    | Terminated
    | Counted(width: nat)
    | Raw(n: nat)
    | Empty
    | Nested
    | Undefined

  /** The layout of each form, by its code in table 7.6 of DWARF version 5. */
  function LayoutOf(code: nat, addressSize: nat): Layout {
    match code
    case 0x01 => FixedWidth(addressSize)
    case 0x0b | 0x0c | 0x11 | 0x25 | 0x29 => FixedWidth(1)
    case 0x05 | 0x12 | 0x26 | 0x2a => FixedWidth(2)
    case 0x27 | 0x2b => FixedWidth(3)
    case 0x06 | 0x0e | 0x10 | 0x13 | 0x17 | 0x1c | 0x1d | 0x1f | 0x28 | 0x2c => FixedWidth(4)
    case 0x07 | 0x14 | 0x20 | 0x24 => FixedWidth(8)
    case 0x1e => Raw(16)
    case 0x08 => Terminated
    case 0x0a => Counted(1)
    case 0x03 => Counted(2)
    case 0x04 => Counted(4)
    case 0x09 | 0x18 => Counted(0)
    case 0x0d => SignedLeb
    case 0x0f | 0x15 | 0x1a | 0x1b | 0x22 | 0x23 => UnsignedLeb
    case 0x16 => Nested
    case 0x19 | 0x21 => Empty
    case _ => Undefined
  }

  /**
   * `operand` can be carried by `form`. A number that the code sums up from LEB128 groups and returns is a
   * double, as is the length of a block; eight-byte numbers are rounded, and those of the forms the code
   * only steps over are anything.
   */
  predicate Fits(form: nat, operand: Operand, addressSize: nat)
    decreases operand
  {
    match LayoutOf(form, addressSize)
    case FixedWidth(n) => operand.Number? && operand.n < Power256(n)
    case UnsignedLeb => operand.Number? && ((form == 0x0f || form == 0x15) ==> IsDouble(operand.n))
    case SignedLeb => operand.SignedNumber? && SignedExact(operand.i)
    case Terminated => operand.Text? && 0 !in operand.bytes
    case Counted(w) => operand.Text? && (if w > 0 then |operand.bytes| < Power256(w) else IsDouble(|operand.bytes|))
    case Raw(n) => operand.Text? && |operand.bytes| == n
    case Empty => operand.NoOperand?
    case Nested => operand.Via? && Fits(operand.form, operand.inner, addressSize)
    case Undefined => false
  }

  function Encode(form: nat, operand: Operand, addressSize: nat): seq<byte>
    requires Fits(form, operand, addressSize)
    decreases operand
  {
    match LayoutOf(form, addressSize)
    case FixedWidth(n) => EncodeFixed(operand.n, n)
    case UnsignedLeb => EncodeULeb(operand.n)
    case SignedLeb => EncodeSLeb(operand.i)
    case Terminated => operand.bytes + [0]
    case Counted(w) => (if w == 0 then EncodeULeb(|operand.bytes|) else EncodeFixed(|operand.bytes|, w)) + operand.bytes
    case Raw(_) => operand.bytes
    case Empty => []
    case Nested => EncodeULeb(operand.form) + Encode(operand.form, operand.inner, addressSize)
  }

  /** What a number means, by the code of the form that carries it; the code only steps over the forms left out. */
  function NumberMeaning(code: nat, n: nat, ctx: FormContext): AttrValue {
    match code
    case 0x01 | 0x0b | 0x05 | 0x06 | 0x17 | 0x0f => UInt(n)
    case 0x07 => UInt(Round(n))
    case 0x0e => ResolveString(StringAt(ctx.str, n))
    case 0x1f => ResolveString(StringAt(ctx.lineStr, n))
    case 0x11 | 0x12 | 0x13 | 0x15 => Ref(Round(ctx.cuHeaderStart + n))
    case 0x14 => Ref(Round(ctx.cuHeaderStart + Round(n)))
    case 0x10 => Ref(n)
    case 0x0c => FlagValue(n != 0)
    case _ => Unavailable
  }

  /** What the attribute means to the debugger. */
  function Meaning(attr: AbbrevAttr, operand: Operand, ctx: FormContext): AttrValue
    decreases operand
  {
    match operand
    case Number(n) => NumberMeaning(attr.form, n, ctx)
    case SignedNumber(i) => SInt(i)
    case Text(bytes) => if attr.form == 0x08 then Str(bytes) else BlockValue(bytes)
    case Via(form, inner) => Meaning(AbbrevAttr(attr.at, form, None), inner, ctx)
    case NoOperand =>
      if attr.form == 0x19 then FlagValue(true)
      else SInt(if attr.implicitConst.Some? then attr.implicitConst.value else 0)
  }

  // ----- The tables and the parsers' names for the codes -----

  /** The layout of a form by its name. */
  ghost function NamedLayout(form: Form, addressSize: nat): Layout {
    match form
    case Addr => FixedWidth(addressSize)
    case Data1 | Ref1 | Flag | Strx1 | Addrx1 => FixedWidth(1)
    case Data2 | Ref2 | Strx2 | Addrx2 => FixedWidth(2)
    case Strx3 | Addrx3 => FixedWidth(3)
    case Data4 | Ref4 | Strx4 | Addrx4 | SecOffset | Strp | LineStrp | StrpSup | RefAddr | RefSup4 => FixedWidth(4)
    case Data8 | Ref8 | RefSig8 | RefSup8 => FixedWidth(8)
    case Data16 => Raw(16)
    case String => Terminated
    case Block1 => Counted(1)
    case Block2 => Counted(2)
    case Block4 => Counted(4)
    case Block | Exprloc => Counted(0)
    case Sdata => SignedLeb
    case Udata | RefUdata | Strx | Addrx | Loclistx | Rnglistx => UnsignedLeb
    case Indirect => Nested
    case FlagPresent | ImplicitConst => Empty
    case Unknown => Undefined
  }

  lemma NamesItsLayout(code: nat, addressSize: nat)
    ensures LayoutOf(code, addressSize) == NamedLayout(FormOf(code), addressSize)
  {
  }

  /** What a number means under a form that carries one, by name. */
  ghost function NumberMeans(form: Form, n: nat, ctx: FormContext): AttrValue {
    match form
    case Addr | Data1 | Data2 | Data4 | SecOffset | Udata => UInt(n)
    case Data8 => UInt(Round(n))
    case Strp => ResolveString(StringAt(ctx.str, n))
    case LineStrp => ResolveString(StringAt(ctx.lineStr, n))
    case Ref1 | Ref2 | Ref4 | RefUdata => Ref(Round(ctx.cuHeaderStart + n))
    case Ref8 => Ref(Round(ctx.cuHeaderStart + Round(n)))
    case RefAddr => Ref(n)
    case Flag => FlagValue(n != 0)
    case _ => Unavailable
  }

  lemma NamesItsNumber(code: nat, n: nat, ctx: FormContext)
    ensures NumberMeaning(code, n, ctx) == NumberMeans(FormOf(code), n, ctx)
  {
    hide Round, StringAt, ResolveString;
  }

  lemma NamesItsKind(code: nat)
    ensures FormOf(code) == String <==> code == 0x08
    ensures FormOf(code) == FlagPresent <==> code == 0x19
    ensures FormOf(code) == Udata || FormOf(code) == RefUdata <==> code == 0x0f || code == 0x15
  {
  }

  // ----- Eight-byte values -----

  /** The digits of `v` in base 256, low to high, and what is left above them. */
  lemma FourDigits(v: nat)
    ensures EncodeFixed(v, 4) == [v % 256, v / 0x100 % 256, v / 0x1_0000 % 256, v / 0x100_0000 % 256]
  {
    var v1 := v / 256;
    var v2 := v1 / 256;
    var v3 := v2 / 256;
    assert v2 == v / 0x1_0000 && v3 == v / 0x100_0000;
    assert EncodeFixed(v3, 1) == [v3 % 256] + EncodeFixed(v3 / 256, 0);
    assert EncodeFixed(v2, 2) == [v2 % 256] + EncodeFixed(v3, 1);
    assert EncodeFixed(v1, 3) == [v1 % 256] + EncodeFixed(v2, 2);
  }

  lemma EightDigits(v: nat)
    ensures EncodeFixed(v, 8) == EncodeFixed(v, 4) + EncodeFixed(v / 0x1_0000_0000, 4)
  {
    var v1 := v / 256;
    var v2 := v1 / 256;
    var v3 := v2 / 256;
    var v4 := v3 / 256;
    assert v2 == v / 0x1_0000 && v3 == v / 0x100_0000 && v4 == v / 0x1_0000_0000;
    assert EncodeFixed(v3, 5) == [v3 % 256] + EncodeFixed(v4, 4);
    assert EncodeFixed(v2, 6) == [v2 % 256] + EncodeFixed(v3, 5);
    assert EncodeFixed(v1, 7) == [v1 % 256] + EncodeFixed(v2, 6);
    FourDigits(v);
  }

  lemma {:induction false} HighIgnored(v: nat, h: nat, n: nat)
    ensures EncodeFixed(v + Power256(n) * h, n) == EncodeFixed(v, n)
  {
    if n > 0 {
      var k := Power256(n - 1) * h;
      Regrouped(Power256(n - 1), h);
      assert (v + 256 * k) % 256 == v % 256 && (v + 256 * k) / 256 == v / 256 + k;
      HighIgnored(v / 256, h, n - 1);
    }
  }

  lemma Regrouped(p: nat, h: nat)
    ensures (256 * p) * h == 256 * (p * h)
  {
  }

  lemma LowDigits(v: nat)
    ensures EncodeFixed(v % 0x1_0000_0000, 4) == EncodeFixed(v, 4)
  {
    assert Power256(4) == 0x1_0000_0000;
    HighIgnored(v % 0x1_0000_0000, v / 0x1_0000_0000, 4);
  }

  lemma U64Reads(s: seq<byte>, p: nat, v: nat)
    requires v < Power256(8) && At(s, p, EncodeFixed(v, 8))
    ensures ReadU64(s, p) == Read(Round(v), p + 8)
  {
    assert Power256(4) == 0x1_0000_0000;
    assert Power256(8) == 0x1_0000_0000 * 0x1_0000_0000;
    EightDigits(v);
    LowDigits(v);
    var low, high := v % 0x1_0000_0000, v / 0x1_0000_0000;
    AtSplit(s, p, EncodeFixed(low, 4), EncodeFixed(high, 4));
    FixedReads(s, p, low, 4);
    FixedReads(s, p + 4, high, 4);
  }

  // ----- Reading inverts encoding -----

  lemma CountedReads(s: seq<byte>, p: nat, form: nat, operand: Operand, addressSize: nat)
    requires LayoutOf(form, addressSize).Counted? && Fits(form, operand, addressSize)
    requires At(s, p, Encode(form, operand, addressSize))
    ensures var w := LayoutOf(form, addressSize).width;
            TakeCounted(s, if w == 0 then ULeb(s, p) else Fixed(s, p, w)) ==
            Read(BlockValue(operand.bytes), p + |Encode(form, operand, addressSize)|)
  {
    hide FormOf, ULeb, EncodeULeb, EncodeFixed, Fixed, At, IsDouble, Take;
    var w, b := LayoutOf(form, addressSize).width, operand.bytes;
    var length := if w == 0 then EncodeULeb(|b|) else EncodeFixed(|b|, w);
    AtSplit(s, p, length, b);
    RawReads(s, p + |length|, b);
    if w == 0 {
      ULebInverts(s, p, |b|);
    } else {
      FixedReads(s, p, |b|, w);
    }
  }

  lemma FixedOperandReads(s: seq<byte>, p: nat, attr: AbbrevAttr, operand: Operand, ctx: FormContext)
    requires LayoutOf(attr.form, ctx.addressSize).FixedWidth? && Readable(ctx.addressSize)
    requires Fits(attr.form, operand, ctx.addressSize)
    requires At(s, p, Encode(attr.form, operand, ctx.addressSize))
    ensures ReadForm(s, p, attr, ctx) ==
            Read(Meaning(attr, operand, ctx), p + |Encode(attr.form, operand, ctx.addressSize)|)
  {
    NamesItsLayout(attr.form, ctx.addressSize);
    hide LittleEndian, Power256, EncodeFixed, ReadU64, Fixed, StringAt, FormOf, At, ResolveString, Round, LayoutOf,
      NumberMeaning;
    NamesItsNumber(attr.form, operand.n, ctx);
    var n := LayoutOf(attr.form, ctx.addressSize).n;
    FixedReads(s, p, operand.n, n);
    FixedSkips(s, p, operand.n, n);
    if n == 8 {
      U64Reads(s, p, operand.n);
    }
  }

  lemma FixedSkips(s: seq<byte>, p: nat, v: nat, n: nat)
    requires At(s, p, EncodeFixed(v, n))
    ensures Skip(s, p, n) == Read((), p + n)
  {
  }

  lemma RawReads(s: seq<byte>, p: nat, b: seq<byte>)
    requires At(s, p, b)
    ensures Take(s, p, |b|) == Read(b, p + |b|)
  {
  }

  lemma UnsignedOperandReads(s: seq<byte>, p: nat, attr: AbbrevAttr, operand: Operand, ctx: FormContext)
    requires LayoutOf(attr.form, ctx.addressSize) == UnsignedLeb && Fits(attr.form, operand, ctx.addressSize)
    requires At(s, p, Encode(attr.form, operand, ctx.addressSize))
    ensures ReadForm(s, p, attr, ctx) ==
            Read(Meaning(attr, operand, ctx), p + |Encode(attr.form, operand, ctx.addressSize)|)
  {
    hide FormOf, EncodeULeb, ULeb, At, IsDouble, LayoutOf, NumberMeaning, NumberMeans, ReadForm, NamedLayout;
    NamesItsLayout(attr.form, ctx.addressSize);
    NamesItsKind(attr.form);
    NamesItsNumber(attr.form, operand.n, ctx);
    ULebReads(s, p, operand.n);
    UnsignedFormReads(s, p, attr, operand.n, ctx);
  }

  /** What the parser makes of a LEB128: the number, or nothing for the forms it steps over. */
  lemma UnsignedFormReads(s: seq<byte>, p: nat, attr: AbbrevAttr, n: nat, ctx: FormContext)
    requires NamedLayout(FormOf(attr.form), ctx.addressSize) == UnsignedLeb && ULeb(s, p).Read?
    requires FormOf(attr.form) == Udata || FormOf(attr.form) == RefUdata ==> ULeb(s, p).value == n
    ensures ReadForm(s, p, attr, ctx) == Read(NumberMeans(FormOf(attr.form), n, ctx), ULeb(s, p).next)
  {
    hide FormOf, ULeb, StringAt, Round, ResolveString;
  }

  lemma TextOperandReads(s: seq<byte>, p: nat, attr: AbbrevAttr, operand: Operand, ctx: FormContext)
    requires var layout := LayoutOf(attr.form, ctx.addressSize); layout.Terminated? || layout.Counted? || layout.Raw?
    requires Fits(attr.form, operand, ctx.addressSize)
    requires At(s, p, Encode(attr.form, operand, ctx.addressSize))
    ensures ReadForm(s, p, attr, ctx) ==
            Read(Meaning(attr, operand, ctx), p + |Encode(attr.form, operand, ctx.addressSize)|)
  {
    hide FormOf, EncodeULeb, EncodeFixed, Fixed, ULeb, CString, Take, At, IsDouble, LayoutOf;
    NamesItsLayout(attr.form, ctx.addressSize);
    NamesItsKind(attr.form);
    match LayoutOf(attr.form, ctx.addressSize)
    case Terminated => CStringReads(s, p, operand.bytes);
    case Counted(w) => CountedReads(s, p, attr.form, operand, ctx.addressSize);
    case Raw(_) => RawReads(s, p, operand.bytes);
  }

  lemma SignedOperandReads(s: seq<byte>, p: nat, attr: AbbrevAttr, operand: Operand, ctx: FormContext)
    requires LayoutOf(attr.form, ctx.addressSize) == SignedLeb && Fits(attr.form, operand, ctx.addressSize)
    requires At(s, p, Encode(attr.form, operand, ctx.addressSize))
    ensures ReadForm(s, p, attr, ctx) ==
            Read(Meaning(attr, operand, ctx), p + |Encode(attr.form, operand, ctx.addressSize)|)
  {
    hide FormOf, EncodeSLeb, SLeb, At, SignedExact, LayoutOf;
    NamesItsLayout(attr.form, ctx.addressSize);
    SLebInverts(s, p, operand.i);
  }

  lemma EmptyOperandReads(s: seq<byte>, p: nat, attr: AbbrevAttr, operand: Operand, ctx: FormContext)
    requires LayoutOf(attr.form, ctx.addressSize) == Empty && Fits(attr.form, operand, ctx.addressSize)
    requires At(s, p, Encode(attr.form, operand, ctx.addressSize))
    ensures ReadForm(s, p, attr, ctx) ==
            Read(Meaning(attr, operand, ctx), p + |Encode(attr.form, operand, ctx.addressSize)|)
  {
    hide FormOf, LayoutOf;
    NamesItsLayout(attr.form, ctx.addressSize);
    NamesItsKind(attr.form);
  }

  lemma FlatOperandReads(s: seq<byte>, p: nat, attr: AbbrevAttr, operand: Operand, ctx: FormContext)
    requires Readable(ctx.addressSize) && Fits(attr.form, operand, ctx.addressSize)
    requires !LayoutOf(attr.form, ctx.addressSize).Nested?
    requires At(s, p, Encode(attr.form, operand, ctx.addressSize))
    ensures ReadForm(s, p, attr, ctx) ==
            Read(Meaning(attr, operand, ctx), p + |Encode(attr.form, operand, ctx.addressSize)|)
  {
    hide FormOf, At, ReadForm, Meaning, Encode, LayoutOf, IsDouble, SignedExact, Power256;
    match LayoutOf(attr.form, ctx.addressSize)
    case FixedWidth(_) => FixedOperandReads(s, p, attr, operand, ctx);
    case UnsignedLeb => UnsignedOperandReads(s, p, attr, operand, ctx);
    case SignedLeb => SignedOperandReads(s, p, attr, operand, ctx);
    case Terminated => TextOperandReads(s, p, attr, operand, ctx);
    case Counted(_) => TextOperandReads(s, p, attr, operand, ctx);
    case Raw(_) => TextOperandReads(s, p, attr, operand, ctx);
    case Empty => EmptyOperandReads(s, p, attr, operand, ctx);
  }

  lemma NestedCode(code: nat, addressSize: nat)
    ensures LayoutOf(code, addressSize).Nested? <==> code == 0x16
    ensures FormOf(code) == Indirect <==> code == 0x16
  {
  }

  lemma KnownFormIsDouble(form: nat, operand: Operand, addressSize: nat)
    requires Fits(form, operand, addressSize)
    ensures IsDouble(form)
  {
    assert form < 0x100;
  }

  /** An indirect operand reads as the operand behind its code. */
  lemma NestedOperandReads(s: seq<byte>, p: nat, attr: AbbrevAttr, operand: Operand, ctx: FormContext)
    requires LayoutOf(attr.form, ctx.addressSize).Nested? && Fits(attr.form, operand, ctx.addressSize)
    requires At(s, p, EncodeULeb(operand.form))
    ensures ReadForm(s, p, attr, ctx) ==
            ReadForm(s, p + |EncodeULeb(operand.form)|, AbbrevAttr(attr.at, operand.form, None), ctx)
    ensures Meaning(attr, operand, ctx) == Meaning(AbbrevAttr(attr.at, operand.form, None), operand.inner, ctx)
  {
    hide FormOf, EncodeULeb, ULeb, At, IsDouble, LayoutOf, ReadForm, NumberMeaning, Encode;
    NestedCode(attr.form, ctx.addressSize);
    KnownFormIsDouble(operand.form, operand.inner, ctx.addressSize);
    ULebInverts(s, p, operand.form);
    IndirectReads(s, p, attr, ctx);
  }

  lemma IndirectReads(s: seq<byte>, p: nat, attr: AbbrevAttr, ctx: FormContext)
    requires FormOf(attr.form) == Indirect && ULeb(s, p).Read?
    ensures ReadForm(s, p, attr, ctx) ==
            ReadForm(s, ULeb(s, p).next, AbbrevAttr(attr.at, ULeb(s, p).value, None), ctx)
  {
    hide FormOf, ULeb;
  }

  /** A code the table does not define is refused, by either parser. */
  lemma UndefinedRefused(s: seq<byte>, p: nat, attr: AbbrevAttr, ctx: FormContext)
    requires LayoutOf(attr.form, ctx.addressSize).Undefined?
    ensures ReadForm(s, p, attr, ctx).Malformed? && SkipForm(s, p, attr.form, ctx.addressSize).Malformed?
  {
    NamesItsLayout(attr.form, ctx.addressSize);
    hide FormOf, LayoutOf;
  }

  /** `readForm` reads back exactly what was encoded, whatever surrounds it, at any nesting of `indirect`. */
  lemma {:induction false} OperandReads(s: seq<byte>, p: nat, attr: AbbrevAttr, operand: Operand, ctx: FormContext)
    requires Readable(ctx.addressSize) && Fits(attr.form, operand, ctx.addressSize)
    requires At(s, p, Encode(attr.form, operand, ctx.addressSize))
    ensures ReadForm(s, p, attr, ctx) ==
            Read(Meaning(attr, operand, ctx), p + |Encode(attr.form, operand, ctx.addressSize)|)
    decreases operand
  {
    hide FormOf, EncodeULeb, At, IsDouble, LayoutOf, ReadForm, Meaning;
    if LayoutOf(attr.form, ctx.addressSize).Nested? {
      var code, inner := EncodeULeb(operand.form), Encode(operand.form, operand.inner, ctx.addressSize);
      AtSplit(s, p, code, inner);
      NestedOperandReads(s, p, attr, operand, ctx);
      OperandReads(s, p + |code|, AbbrevAttr(attr.at, operand.form, None), operand.inner, ctx);
    } else {
      FlatOperandReads(s, p, attr, operand, ctx);
    }
  }
}
