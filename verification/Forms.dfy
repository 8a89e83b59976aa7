/**
 * Attribute values by form (src/dwarf/forms.ts `readForm`, src/dwarf/info.ts `skipByForm`): two
 * parsers of one encoding that must never drift apart.
 */
module Forms {
  import opened Prelude
  import opened Doubles
  import opened Bytes

  /** The DW_FORM_* codes of src/dwarf/constants.ts; any other code is `Unknown`. */
  datatype Form =
    | Addr | Block2 | Block4 | Data2 | Data4 | Data8 | String | Block | Block1 | Data1 | Flag | Sdata | Strp | Udata
    | RefAddr | Ref1 | Ref2 | Ref4 | Ref8 | RefUdata | Indirect | SecOffset | Exprloc | FlagPresent
    | Strx | Addrx | RefSup4 | StrpSup | Data16 | LineStrp | RefSig8 | ImplicitConst | Loclistx | Rnglistx | RefSup8
    | Strx1 | Strx2 | Strx3 | Strx4 | Addrx1 | Addrx2 | Addrx3 | Addrx4
    | Unknown

  function FormOf(code: nat): Form {
    match code
    case 0x01 => Addr case 0x03 => Block2 case 0x04 => Block4
    case 0x05 => Data2 case 0x06 => Data4 case 0x07 => Data8
    case 0x08 => String case 0x09 => Block case 0x0a => Block1
    case 0x0b => Data1 case 0x0c => Flag case 0x0d => Sdata
    case 0x0e => Strp case 0x0f => Udata case 0x10 => RefAddr
    case 0x11 => Ref1 case 0x12 => Ref2 case 0x13 => Ref4
    case 0x14 => Ref8 case 0x15 => RefUdata case 0x16 => Indirect
    case 0x17 => SecOffset case 0x18 => Exprloc case 0x19 => FlagPresent
    case 0x1a => Strx case 0x1b => Addrx case 0x1c => RefSup4
    case 0x1d => StrpSup case 0x1e => Data16 case 0x1f => LineStrp
    case 0x20 => RefSig8 case 0x21 => ImplicitConst case 0x22 => Loclistx
    case 0x23 => Rnglistx case 0x24 => RefSup8 case 0x25 => Strx1
    case 0x26 => Strx2 case 0x27 => Strx3 case 0x28 => Strx4
    case 0x29 => Addrx1 case 0x2a => Addrx2 case 0x2b => Addrx3
    case 0x2c => Addrx4
    case _ => Unknown
  }

  datatype AttrValue =
    | UInt(n: nat)
    | SInt(i: int)
    | Str(text: seq<byte>)
    | FlagValue(b: bool)
    | Ref(target: nat)
    | BlockValue(bytes: seq<byte>)
    | Unavailable

  datatype AbbrevAttr = AbbrevAttr(at: nat, form: nat, implicitConst: Option<int>)

  /** What reference and string forms are decoded against. */
  datatype FormContext = FormContext(
    addressSize: nat, cuHeaderStart: nat, str: Option<seq<byte>>, lineStr: Option<seq<byte>>)

  /** The NUL-terminated string at `offset` of a string section, if there is one. */
  function StringAt(section: Option<seq<byte>>, offset: nat): Option<seq<byte>> {
    if section.None? || offset >= |section.value| then None
    else
      var end := Terminator(section.value, offset);
      if end.None? then None else Some(section.value[offset..end.value])
  }

  /** The text at `offset` ends at the first zero; there is none past the section or without a terminator. */
  lemma StringAtIff(section: Option<seq<byte>>, offset: nat, text: seq<byte>)
    ensures StringAt(section, offset) == Some(text) <==>
            section.Some? && 0 !in text && At(section.value, offset, text + [0])
    ensures StringAt(section, offset).None? <==>
            section.None? || forall k :: offset <= k < |section.value| ==> section.value[k] != 0
  {
    if section.Some? {
      var s := section.value;
      if offset < |s| && Terminator(s, offset).Some? {
        var end := Terminator(s, offset).value;
        assert 0 !in s[offset..end];
        AtSplit(s, offset, text, [0]);
        if 0 !in text && At(s, offset, text + [0]) {
          CStringReads(s, offset, text);
        }
      }
      if 0 !in text && At(s, offset, text + [0]) {
        assert s[offset..offset + |text + [0]|][|text|] == 0;
      }
      if StringAt(section, offset) == Some(text) {
        assert s[offset + |text|..offset + |text| + 1] == [0];
      }
    }
  }

  function ResolveString(text: Option<seq<byte>>): AttrValue {
    if text.None? then Unavailable else Str(text.value)
  }

  // ----- skipByForm -----

  function Drop<T>(r: Read<T>): Read<()> {
    match r
    case Malformed => Malformed
    case Read(_, next) => Read((), next)
  }

  /** A length read, then that many bytes. */
  function SkipCounted(s: seq<byte>, length: Read<nat>): Read<()> {
    match length
    case Malformed => Malformed
    case Read(n, next) => Skip(s, next, n)
  }

  function SkipForm(s: seq<byte>, p: nat, form: nat, addressSize: nat): (r: Read<()>)
    ensures r.Read? && p <= |s| ==> p <= r.next <= |s|
    decreases |s| - p
  {
    match FormOf(form)
    case Addr => Skip(s, p, addressSize)
    case Data1 | Ref1 | Flag | Strx1 | Addrx1 => Skip(s, p, 1)
    case Data2 | Ref2 | Strx2 | Addrx2 => Skip(s, p, 2)
    case Strx3 | Addrx3 => Skip(s, p, 3)
    case Data4 | Ref4 | Strx4 | Addrx4 | SecOffset | Strp | LineStrp | StrpSup | RefAddr | RefSup4 => Skip(s, p, 4)
    case Data8 | Ref8 | RefSig8 | RefSup8 => Skip(s, p, 8)
    case Data16 => Skip(s, p, 16)
    case String => Drop(CString(s, p))
    case Block1 => SkipCounted(s, Fixed(s, p, 1))
    case Block2 => SkipCounted(s, Fixed(s, p, 2))
    case Block4 => SkipCounted(s, Fixed(s, p, 4))
    case Block | Exprloc => SkipCounted(s, ULeb(s, p))
    case Sdata => Drop(SLeb(s, p))
    case Udata | RefUdata | Strx | Addrx | Loclistx | Rnglistx => Drop(ULeb(s, p))
    case Indirect =>
      var code := ULeb(s, p);
      if code.Malformed? then Malformed else SkipForm(s, code.next, code.value, addressSize)
    case FlagPresent | ImplicitConst => Read((), p)
    case Unknown => Malformed
  }

  // ----- readForm -----

  function AsUInt(r: Read<nat>): Read<AttrValue> {
    match r
    case Malformed => Malformed
    case Read(v, next) => Read(UInt(v), next)
  }

  function AsRef(base: nat, r: Read<nat>): Read<AttrValue> {
    match r
    case Malformed => Malformed
    case Read(v, next) => Read(Ref(Round(base + v)), next)
  }

  function AsAbsoluteRef(r: Read<nat>): Read<AttrValue> {
    match r
    case Malformed => Malformed
    case Read(v, next) => Read(Ref(v), next)
  }

  function AsBlock(r: Read<seq<byte>>): Read<AttrValue> {
    match r
    case Malformed => Malformed
    case Read(b, next) => Read(BlockValue(b), next)
  }

  function AsString(section: Option<seq<byte>>, r: Read<nat>): Read<AttrValue> {
    match r
    case Malformed => Malformed
    case Read(offset, next) => Read(ResolveString(StringAt(section, offset)), next)
  }

  function TakeCounted(s: seq<byte>, length: Read<nat>): Read<AttrValue> {
    match length
    case Malformed => Malformed
    case Read(n, next) => AsBlock(Take(s, next, n))
  }

  /** `readUint`: only 1, 2 and 4 byte integers. */
  function ReadUint(s: seq<byte>, p: nat, size: nat): Read<nat> {
    if size == 1 || size == 2 || size == 4 then Fixed(s, p, size) else Malformed
  }

  /** `readU64AsNumber`: low word, then high word, their sum rounded to a double. */
  function ReadU64(s: seq<byte>, p: nat): Read<nat> {
    var low := Fixed(s, p, 4);
    if low.Malformed? then Malformed
    else
      var high := Fixed(s, low.next, 4);
      if high.Malformed? then Malformed else Read(Round(low.value + high.value * 0x1_0000_0000), high.next)
  }

  function Consumed(r: Read<()>): Read<AttrValue> {
    match r
    case Malformed => Malformed
    case Read(_, next) => Read(Unavailable, next)
  }

  function ReadForm(s: seq<byte>, p: nat, attr: AbbrevAttr, ctx: FormContext): (r: Read<AttrValue>)
    ensures r.Read? && p <= |s| ==> p <= r.next <= |s|
    decreases |s| - p
  {
    match FormOf(attr.form)
    case Addr => AsUInt(ReadUint(s, p, ctx.addressSize))
    case Data1 => AsUInt(Fixed(s, p, 1))
    case Data2 => AsUInt(Fixed(s, p, 2))
    case Data4 | SecOffset => AsUInt(Fixed(s, p, 4))
    case Data8 => AsUInt(ReadU64(s, p))
    case Data16 => AsBlock(Take(s, p, 16))
    case Sdata =>
      var v := SLeb(s, p);
      if v.Malformed? then Malformed else Read(SInt(v.value), v.next)
    case Udata => AsUInt(ULeb(s, p))
    case String =>
      var v := CString(s, p);
      if v.Malformed? then Malformed else Read(Str(v.value), v.next)
    case Strp => AsString(ctx.str, Fixed(s, p, 4))
    case LineStrp => AsString(ctx.lineStr, Fixed(s, p, 4))
    case Ref1 => AsRef(ctx.cuHeaderStart, Fixed(s, p, 1))
    case Ref2 => AsRef(ctx.cuHeaderStart, Fixed(s, p, 2))
    case Ref4 => AsRef(ctx.cuHeaderStart, Fixed(s, p, 4))
    case Ref8 => AsRef(ctx.cuHeaderStart, ReadU64(s, p))
    case RefUdata => AsRef(ctx.cuHeaderStart, ULeb(s, p))
    case RefAddr => AsAbsoluteRef(Fixed(s, p, 4))
    case Exprloc | Block => TakeCounted(s, ULeb(s, p))
    case Block1 => TakeCounted(s, Fixed(s, p, 1))
    case Block2 => TakeCounted(s, Fixed(s, p, 2))
    case Block4 => TakeCounted(s, Fixed(s, p, 4))
    case Flag =>
      var v := Fixed(s, p, 1);
      if v.Malformed? then Malformed else Read(FlagValue(v.value != 0), v.next)
    case FlagPresent => Read(FlagValue(true), p)
    case ImplicitConst => Read(SInt(if attr.implicitConst.Some? then attr.implicitConst.value else 0), p)
    case Indirect =>
      var code := ULeb(s, p);
      if code.Malformed? then Malformed
      else ReadForm(s, code.next, AbbrevAttr(attr.at, code.value, None), ctx)
    case Strx | Strx1 | Strx2 | Strx3 | Strx4 | Addrx | Addrx1 | Addrx2 | Addrx3 | Addrx4 | StrpSup
    | RefSup4 | RefSup8 | RefSig8 | Loclistx | Rnglistx =>
      Consumed(SkipForm(s, p, attr.form, ctx.addressSize))
    case Unknown => Malformed
  }

  // ----- Parity -----

  /** The address sizes `readUint` supports. */
  predicate Readable(addressSize: nat) {
    addressSize == 1 || addressSize == 2 || addressSize == 4
  }

  /** On one input, reading and skipping agree: both fail, or both stop at the same position. */
  ghost predicate Agree(s: seq<byte>, p: nat, attr: AbbrevAttr, ctx: FormContext) {
    Drop(ReadForm(s, p, attr, ctx)) == SkipForm(s, p, attr.form, ctx.addressSize)
  }

  /** Over every byte string, form and nesting of indirect forms, with a readable address size. */
  lemma {:induction false} ReadSkipParity(s: seq<byte>, p: nat, attr: AbbrevAttr, ctx: FormContext)
    requires Readable(ctx.addressSize)
    ensures Agree(s, p, attr, ctx)
    decreases |s| - p
  {
    hide FormOf, LittleEndian, Terminator, Signed, StringAt, Round, LebRounded;
    if FormOf(attr.form) == Indirect && ULeb(s, p).Read? {
      var code := ULeb(s, p);
      ReadSkipParity(s, code.next, AbbrevAttr(attr.at, code.value, None), ctx);
    }
  }

  /** The address sizes for which the two can never drift are exactly those `readUint` supports. */
  lemma ParityIffReadable(ctx: FormContext)
    ensures (forall s, p: nat, attr :: Agree(s, p, attr, ctx)) <==> Readable(ctx.addressSize)
  {
    if Readable(ctx.addressSize) {
      forall s, p: nat, attr ensures Agree(s, p, attr, ctx) {
        ReadSkipParity(s, p, attr, ctx);
      }
    } else {
      var s: seq<byte> := seq(ctx.addressSize, (_: int) => 0);
      assert FormOf(0x01) == Addr;
      assert !Agree(s, 0, AbbrevAttr(0, 0x01, None), ctx);
    }
  }

  // ----- The methods over a cursor -----

  method SkipByForm(cursor: ByteCursor, form: nat, addressSize: nat) returns (r: Result<()>)
    modifies cursor
    ensures Outcome(r, cursor.offset) == SkipForm(cursor.data, old(cursor.offset), form, addressSize)
    decreases |cursor.data| - cursor.offset
  {
    hide FormOf, LittleEndian, Terminator, Signed, LebRounded;
    match FormOf(form) {
      case Addr =>
        r := cursor.SkipBytes(addressSize);
      case Data1 | Ref1 | Flag | Strx1 | Addrx1 =>
        r := cursor.SkipBytes(1);
      case Data2 | Ref2 | Strx2 | Addrx2 =>
        r := cursor.SkipBytes(2);
      case Strx3 | Addrx3 =>
        r := cursor.SkipBytes(3);
      case Data4 | Ref4 | Strx4 | Addrx4 | SecOffset | Strp | LineStrp | StrpSup | RefAddr | RefSup4 =>
        r := cursor.SkipBytes(4);
      case Data8 | Ref8 | RefSig8 | RefSup8 =>
        r := cursor.SkipBytes(8);
      case Data16 =>
        r := cursor.SkipBytes(16);
      case String =>
        var text :- cursor.ReadCString();
        r := Ok(());
      case Block1 =>
        var n :- cursor.U8();
        r := cursor.SkipBytes(n);
      case Block2 =>
        var n :- cursor.U16();
        r := cursor.SkipBytes(n);
      case Block4 =>
        var n :- cursor.U32();
        r := cursor.SkipBytes(n);
      case Block | Exprloc =>
        var n :- cursor.ReadULeb();
        r := cursor.SkipBytes(n);
      case Sdata =>
        var v :- cursor.ReadSLeb();
        r := Ok(());
      case Udata | RefUdata | Strx | Addrx | Loclistx | Rnglistx =>
        var v :- cursor.ReadULeb();
        r := Ok(());
      case Indirect =>
        var code :- cursor.ReadULeb();
        r := SkipByForm(cursor, code, addressSize);
      case FlagPresent | ImplicitConst =>
        r := Ok(());
      case Unknown =>
        r := Thrown;
    }
  }

  method ReadFixedUint(cursor: ByteCursor, size: nat) returns (r: Result<nat>)
    modifies cursor
    ensures Outcome(r, cursor.offset) == ReadUint(cursor.data, old(cursor.offset), size)
  {
    if size == 1 {
      r := cursor.U8();
    } else if size == 2 {
      r := cursor.U16();
    } else if size == 4 {
      r := cursor.U32();
    } else {
      r := Thrown;
    }
  }

  method ReadU64AsNumber(cursor: ByteCursor) returns (r: Result<nat>)
    modifies cursor
    ensures Outcome(r, cursor.offset) == ReadU64(cursor.data, old(cursor.offset))
  {
    var low :- cursor.U32();
    var high :- cursor.U32();
    r := Ok(Round(low + high * 0x1_0000_0000));
  }

  /** The forms that carry an unsigned integer, or a reference to an offset. */
  method ReadNumber(cursor: ByteCursor, form: Form, addressSize: nat) returns (r: Result<nat>)
    modifies cursor
    ensures Outcome(r, cursor.offset) == NumberAt(cursor.data, old(cursor.offset), form, addressSize)
  {
    hide LittleEndian, Fixed, ReadU64, ReadUint, ULeb;
    if form == Addr {
      r := ReadFixedUint(cursor, addressSize);
    } else if form == Data1 || form == Ref1 {
      r := cursor.U8();
    } else if form == Data2 || form == Ref2 {
      r := cursor.U16();
    } else if form == Data4 || form == SecOffset || form == Ref4 || form == RefAddr {
      r := cursor.U32();
    } else if form == Data8 || form == Ref8 {
      r := ReadU64AsNumber(cursor);
    } else {
      r := cursor.ReadULeb();
    }
  }

  function NumberAt(s: seq<byte>, p: nat, form: Form, addressSize: nat): Read<nat> {
    if form == Addr then ReadUint(s, p, addressSize)
    else if form == Data1 || form == Ref1 then Fixed(s, p, 1)
    else if form == Data2 || form == Ref2 then Fixed(s, p, 2)
    else if form == Data4 || form == SecOffset || form == Ref4 || form == RefAddr then Fixed(s, p, 4)
    else if form == Data8 || form == Ref8 then ReadU64(s, p)
    else ULeb(s, p)
  }

  function LengthAt(s: seq<byte>, p: nat, form: Form): Read<nat> {
    if form == Block1 then Fixed(s, p, 1)
    else if form == Block2 then Fixed(s, p, 2)
    else if form == Block4 then Fixed(s, p, 4)
    else ULeb(s, p)
  }

  method ReadBlock(cursor: ByteCursor, form: Form) returns (r: Result<AttrValue>)
    modifies cursor
    ensures Outcome(r, cursor.offset) ==
            TakeCounted(cursor.data, LengthAt(cursor.data, old(cursor.offset), form))
  {
    var n;
    if form == Block1 {
      n :- cursor.U8();
    } else if form == Block2 {
      n :- cursor.U16();
    } else if form == Block4 {
      n :- cursor.U32();
    } else {
      n :- cursor.ReadULeb();
    }
    var bytes :- cursor.ReadBytes(n);
    r := Ok(BlockValue(bytes));
  }

  /** References: to an offset in the unit, or in the section. */
  method ReadReference(cursor: ByteCursor, form: Form, ctx: FormContext) returns (r: Result<AttrValue>)
    modifies cursor
    ensures Outcome(r, cursor.offset) ==
            if form == RefAddr then AsAbsoluteRef(NumberAt(cursor.data, old(cursor.offset), form, ctx.addressSize))
            else AsRef(ctx.cuHeaderStart, NumberAt(cursor.data, old(cursor.offset), form, ctx.addressSize))
  {
    hide NumberAt, Round;
    var v :- ReadNumber(cursor, form, ctx.addressSize);
    r := Ok(Ref(if form == RefAddr then v else Round(ctx.cuHeaderStart + v)));
  }

  function TextAt(s: seq<byte>, p: nat, form: Form, ctx: FormContext): Read<AttrValue> {
    if form == Strp then AsString(ctx.str, Fixed(s, p, 4))
    else if form == LineStrp then AsString(ctx.lineStr, Fixed(s, p, 4))
    else
      var (text, next) :- CString(s, p);
      Read(Str(text), next)
  }

  method ReadText(cursor: ByteCursor, form: Form, ctx: FormContext) returns (r: Result<AttrValue>)
    modifies cursor
    ensures Outcome(r, cursor.offset) == TextAt(cursor.data, old(cursor.offset), form, ctx)
  {
    hide Fixed, CString, StringAt, ResolveString;
    if form == Strp {
      var offset :- cursor.U32();
      r := Ok(ResolveString(StringAt(ctx.str, offset)));
    } else if form == LineStrp {
      var offset :- cursor.U32();
      r := Ok(ResolveString(StringAt(ctx.lineStr, offset)));
    } else {
      var text :- cursor.ReadCString();
      r := Ok(Str(text));
    }
  }

  /** The method `readForm`. */
  method ReadAttribute(cursor: ByteCursor, attr: AbbrevAttr, ctx: FormContext) returns (r: Result<AttrValue>)
    modifies cursor
    ensures Outcome(r, cursor.offset) == ReadForm(cursor.data, old(cursor.offset), attr, ctx)
    decreases |cursor.data| - cursor.offset
  {
    hide FormOf, Fixed, ULeb, SLeb, ReadU64, ReadUint, CString, SkipForm, StringAt, ResolveString, Round;
    var form := FormOf(attr.form);
    match form {
      case Addr | Data1 | Data2 | Data4 | SecOffset | Data8 | Udata =>
        var v :- ReadNumber(cursor, form, ctx.addressSize);
        r := Ok(UInt(v));
      case Ref1 | Ref2 | Ref4 | Ref8 | RefUdata | RefAddr =>
        r := ReadReference(cursor, form, ctx);
      case Data16 =>
        var b :- cursor.ReadBytes(16);
        r := Ok(BlockValue(b));
      case Sdata =>
        var v :- cursor.ReadSLeb();
        r := Ok(SInt(v));
      case String | Strp | LineStrp =>
        r := ReadText(cursor, form, ctx);
      case Exprloc | Block | Block1 | Block2 | Block4 =>
        r := ReadBlock(cursor, form);
      case Flag =>
        var v :- cursor.U8();
        r := Ok(FlagValue(v != 0));
      case FlagPresent =>
        r := Ok(FlagValue(true));
      case ImplicitConst =>
        r := Ok(SInt(if attr.implicitConst.Some? then attr.implicitConst.value else 0));
      case Indirect =>
        var code :- cursor.ReadULeb();
        r := ReadAttribute(cursor, AbbrevAttr(attr.at, code, None), ctx);
      case Strx | Strx1 | Strx2 | Strx3 | Strx4 | Addrx | Addrx1 | Addrx2 | Addrx3 | Addrx4 | StrpSup
         | RefSup4 | RefSup8 | RefSig8 | Loclistx | Rnglistx =>
        var skipped :- SkipByForm(cursor, attr.form, ctx.addressSize);
        r := Ok(Unavailable);
      case Unknown =>
        r := Thrown;
    }
  }
}
