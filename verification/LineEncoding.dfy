/**
 * Writing line-number programs (section 6.2.5 of DWARF version 5), which `runStateMachine` reads back.
 */
module LineEncoding {
  import opened Prelude
  import opened Doubles
  import opened Bytes
  import opened Abbrev
  import opened LineProgram

  // ----- Instructions -----

  /** The opcode byte of a standard instruction. */
  function StandardOpcode(op: Op): Option<byte> {
    match op
    case Copy => Some(1)
    case AdvancePc(_) => Some(2)
    case AdvanceLine(_) => Some(3)
    case SetFile(_) => Some(4)
    case SetColumn(_) => Some(5)
    case NegateStmt => Some(6)
    case ConstAddPc => Some(8)
    case FixedAdvancePc(_) => Some(9)
    case _ => None
  }

  /** The header defines the instruction, its effect is tracked, and its operand is a number the machine reads back. */
  predicate OpFits(op: Op, params: Params) {
    && params.opcodeBase >= 1 && !op.Ignored?
    && (StandardOpcode(op).Some? ==> StandardOpcode(op).value < params.opcodeBase)
    && match op
       case Special(a) => params.opcodeBase as int + a <= 255
       case AdvancePc(n) => IsDouble(n)
       case AdvanceLine(n) => SignedExact(n)
       case SetFile(n) => IsDouble(n)
       case SetColumn(n) => IsDouble(n)
       case FixedAdvancePc(n) => n < 0x1_0000
       case SetAddress(a) => a.Finite? && 0 <= a.value < 0x1_0000_0000
       case _ => true
  }

  function Operand(op: Op): seq<byte>
    requires op.FixedAdvancePc? ==> op.bytes < 0x1_0000
  {
    match op
    case AdvancePc(n) => EncodeULeb(n)
    case AdvanceLine(n) => EncodeSLeb(n)
    case SetFile(n) => EncodeULeb(n)
    case SetColumn(n) => EncodeULeb(n)
    case FixedAdvancePc(n) => EncodeFixed(n, 2)
    case _ => []
  }

  /** The body of an extended instruction. */
  function ExtendedBody(op: Op): seq<byte>
    requires op.SetAddress? ==> op.address.Finite? && op.address.value >= 0
  {
    match op
    case EndSequence => [1]
    case SetAddress(a) => [2] + EncodeFixed(a.value, 4)
    case _ => []
  }

  function EncodeOp(op: Op, params: Params): (e: seq<byte>)
    requires OpFits(op, params)
  {
    if op.Special? then [params.opcodeBase + op.adjusted]
    else if StandardOpcode(op).Some? then [StandardOpcode(op).value] + Operand(op)
    else [0] + (EncodeULeb(|ExtendedBody(op)|) + ExtendedBody(op))
  }

  lemma ExtendedDecodes(s: seq<byte>, p: nat, body: seq<byte>)
    requires IsDouble(|body|) && At(s, p, EncodeULeb(|body|) + body)
    ensures Extended(s, p) ==
            Read(if body == [] then Ignored
                 else if body[0] == 1 then EndSequence
                 else if body[0] == 2 then SetAddress(SummedLE(body[1..]))
                 else Ignored, p + |EncodeULeb(|body|)| + |body|)
  {
    hide ULeb, EncodeULeb, SummedLE, IsDouble;
    AtSplit(s, p, EncodeULeb(|body|), body);
    ULebInverts(s, p, |body|);
  }

  lemma OperandAt(s: seq<byte>, p: nat, op: Op, params: Params)
    requires OpFits(op, params) && StandardOpcode(op).Some? && At(s, p, EncodeOp(op, params))
    ensures p < |s| && s[p] == StandardOpcode(op).value && 0 < s[p] < params.opcodeBase
    ensures At(s, p + 1, Operand(op)) && |EncodeOp(op, params)| == 1 + |Operand(op)|
  {
    var code: seq<byte> := [StandardOpcode(op).value];
    assert s[p..p + |EncodeOp(op, params)|][0] == code[0];
    AtSplit(s, p, code, Operand(op));
  }

  lemma AdvancePcDecodes(s: seq<byte>, p: nat, n: nat, params: Params)
    requires IsDouble(n) && At(s, p, EncodeULeb(n))
    ensures Standard(s, p, 2, params) == Read(AdvancePc(n), p + |EncodeULeb(n)|)
  {
    hide ULeb, EncodeULeb, At, IsDouble;
    ULebInverts(s, p, n);
  }

  lemma AdvanceLineDecodes(s: seq<byte>, p: nat, n: int, params: Params)
    requires SignedExact(n) && At(s, p, EncodeSLeb(n))
    ensures Standard(s, p, 3, params) == Read(AdvanceLine(n), p + |EncodeSLeb(n)|)
  {
    hide SLeb, EncodeSLeb, At, SignedExact;
    SLebInverts(s, p, n);
  }

  lemma SetFileDecodes(s: seq<byte>, p: nat, n: nat, params: Params)
    requires IsDouble(n) && At(s, p, EncodeULeb(n))
    ensures Standard(s, p, 4, params) == Read(SetFile(n), p + |EncodeULeb(n)|)
  {
    hide ULeb, EncodeULeb, At, IsDouble;
    ULebInverts(s, p, n);
  }

  lemma SetColumnDecodes(s: seq<byte>, p: nat, n: nat, params: Params)
    requires IsDouble(n) && At(s, p, EncodeULeb(n))
    ensures Standard(s, p, 5, params) == Read(SetColumn(n), p + |EncodeULeb(n)|)
  {
    hide ULeb, EncodeULeb, At, IsDouble;
    ULebInverts(s, p, n);
  }

  lemma FixedAdvanceDecodes(s: seq<byte>, p: nat, n: nat, params: Params)
    requires n < 0x1_0000 && At(s, p, EncodeFixed(n, 2))
    ensures Standard(s, p, 9, params) == Read(FixedAdvancePc(n), p + 2)
  {
    assert Power256(2) == 0x1_0000;
    hide Power256, EncodeFixed, At, Fixed;
    FixedReads(s, p, n, 2);
  }

  /** Each standard opcode reads its own operand back. */
  lemma StandardDecodes(s: seq<byte>, p: nat, op: Op, params: Params)
    requires OpFits(op, params) && StandardOpcode(op).Some? && At(s, p, Operand(op))
    ensures Standard(s, p, StandardOpcode(op).value, params) == Read(op, p + |Operand(op)|)
  {
    hide Standard, At, EncodeULeb, EncodeSLeb, EncodeFixed, IsDouble, SignedExact;
    match op
    case AdvancePc(n) => AdvancePcDecodes(s, p, n, params);
    case AdvanceLine(n) => AdvanceLineDecodes(s, p, n, params);
    case SetFile(n) => SetFileDecodes(s, p, n, params);
    case SetColumn(n) => SetColumnDecodes(s, p, n, params);
    case FixedAdvancePc(n) => FixedAdvanceDecodes(s, p, n, params);
    case Copy => BareDecodes(s, p, params);
    case NegateStmt => BareDecodes(s, p, params);
    case ConstAddPc => BareDecodes(s, p, params);
  }

  lemma BareDecodes(s: seq<byte>, p: nat, params: Params)
    ensures Standard(s, p, 1, params) == Read(Copy, p)
    ensures Standard(s, p, 6, params) == Read(NegateStmt, p)
    ensures Standard(s, p, 8, params) == Read(ConstAddPc, p)
  {
  }

  lemma {:induction false} Power256Is(k: nat)
    ensures Power256(k) == Pow2(8 * k)
    decreases k
  {
    if k > 0 {
      Power256Is(k - 1);
      var e := 8 * (k - 1);
      assert Pow2(e + 1) == 2 * Pow2(e) && Pow2(e + 2) == 2 * Pow2(e + 1) && Pow2(e + 3) == 2 * Pow2(e + 2);
      assert Pow2(e + 4) == 2 * Pow2(e + 3) && Pow2(e + 5) == 2 * Pow2(e + 4) && Pow2(e + 6) == 2 * Pow2(e + 5);
      assert Pow2(e + 7) == 2 * Pow2(e + 6) && Pow2(e + 8) == 2 * Pow2(e + 7);
    }
  }

  /** The last byte carries the highest weight. */
  lemma {:induction false} LittleEndianSnoc(b: seq<byte>, last: byte)
    ensures LittleEndian(b + [last]) == LittleEndian(b) + last as nat * Power256(|b|)
    ensures LittleEndian(b) < Power256(|b|)
    decreases |b|
  {
    if b != [] {
      LittleEndianSnoc(b[1..], last);
      assert (b + [last])[1..] == b[1..] + [last] && (b + [last])[0] == b[0];
      Scale256(last, Power256(|b| - 1));
    } else {
      assert ([] + [last])[1..] == [];
    }
  }

  lemma Scale256(x: int, w: int)
    ensures 256 * (x * w) == x * (256 * w)
  {
  }

  /** Bytes sum up to what they spell exactly when there are at most 128 and that is a double. */
  lemma {:induction false} SummedReads(b: seq<byte>)
    ensures SummedLE(b) == Finite(LittleEndian(b)) <==> |b| <= 128 && IsDouble(LittleEndian(b))
    ensures SummedLE(b).Finite? ==> SummedLE(b).value >= 0 && IsDouble(SummedLE(b).value) && |b| <= 128
    decreases |b|
  {
    hide Has53Bits, Limit, Power256, LittleEndian, Pow2, Scaled, PowerOfTwo, Plus;
    if b == [] {
      ZeroIsDouble();
      NoBytes();
    } else {
      var low, last := b[..|b| - 1], b[|b| - 1];
      assert low + [last] == b;
      SummedReads(low);
      LittleEndianSnoc(low, last);
      Power256Is(|low|);
      SummedStep(SummedLE(low), LittleEndian(low), last, |low|);
    }
  }

  lemma NoBytes()
    ensures LittleEndian([]) == 0
  {
  }

  lemma SummedStep(low: Num, l: nat, x: nat, n: nat)
    requires x < 256 && l < Pow2(8 * n)
    requires low == Finite(l) <==> n <= 128 && IsDouble(l)
    requires low.Finite? ==> low.value >= 0 && IsDouble(low.value) && n <= 128
    ensures x * Pow2(8 * n) >= 0
    ensures var sum, v := Plus(low, Scaled(x, PowerOfTwo(8 * n))), l + x * Pow2(8 * n);
            && (sum == Finite(v) <==> n + 1 <= 128 && IsDouble(v))
            && (sum.Finite? ==> sum.value >= 0 && IsDouble(sum.value) && n + 1 <= 128)
  {
    hide Has53Bits, Limit, Pow2, Scaled, PowerOfTwo, Round, Rounded;
    var w := Pow2(8 * n);
    NotNegative(x, w);
    if low.Finite? {
      SumStep(low, low.value, x, 8 * n);
    }
    if IsDouble(l + x * w) {
      Unique(l + x * w, w, x, l);
      LowDigitsDouble(l + x * w, 8 * n);
      RoundExactIff(l + x * w);
    }
  }

  lemma FourBytesRead(a: nat)
    requires a < 0x1_0000_0000
    ensures SummedLE(EncodeFixed(a, 4)) == Finite(a)
  {
    assert Power256(4) == 0x1_0000_0000;
    FixedInverts(a, 4);
    SummedReads(EncodeFixed(a, 4));
    RoundExactIff(a);
  }

  lemma RoundedExact(x: nat)
    requires x <= EXACT
    ensures Rounded(x) == Finite(x)
  {
    RoundExactIff(x);
  }

  lemma ExtensionDecodes(s: seq<byte>, p: nat, op: Op, params: Params)
    requires OpFits(op, params) && At(s, p, EncodeOp(op, params))
    requires op.EndSequence? || op.SetAddress?
    ensures Decode(s, p, params) == Read(op, p + |EncodeOp(op, params)|)
  {
    assert At(s, p, EncodeOp(op, params)) ==> s[p] == EncodeOp(op, params)[0];
    hide EncodeULeb, EncodeFixed, Extended, At, SummedLE;
    var body := ExtendedBody(op);
    AtSplit(s, p, [0], EncodeULeb(|body|) + body);
    RoundExactIff(|body|);
    ExtendedDecodes(s, p + 1, body);
    if op.SetAddress? {
      assert body[1..] == EncodeFixed(op.address.value, 4);
      FourBytesRead(op.address.value);
    }
  }

  /** Decoding inverts encoding for every instruction the header defines. */
  lemma OpDecodes(s: seq<byte>, p: nat, op: Op, params: Params)
    requires OpFits(op, params) && At(s, p, EncodeOp(op, params))
    ensures Decode(s, p, params) == Read(op, p + |EncodeOp(op, params)|)
  {
    if op.Special? {
      assert s[p] == EncodeOp(op, params)[0];
    } else if StandardOpcode(op).Some? {
      hide Standard, EncodeOp, At, Operand;
      OperandAt(s, p, op, params);
      StandardDecodes(s, p + 1, op, params);
    } else {
      ExtensionDecodes(s, p, op, params);
    }
  }

  predicate OpsFit(ops: seq<Op>, params: Params) {
    forall k :: 0 <= k < |ops| ==> OpFits(ops[k], params)
  }

  // ----- Instructions among others -----

  /**
   * An instruction as a producer writes it: one whose effect the debugger tracks; any other standard opcode,
   * with the operands its header declares (set_basic_block, set_prologue_end, set_epilogue_begin, set_isa, and
   * those of later versions); or any other extended instruction.
   */
  datatype Item =
    | Tracked(op: Op)
    | Untracked(opcode: byte, operands: seq<nat>)
    | Extension(body: seq<byte>)

  /** How many operands the header declares for an opcode; none for one past its table. */
  function Declared(params: Params, opcode: byte): nat {
    if 0 < opcode as int <= |params.standardOpcodeLengths| then params.standardOpcodeLengths[opcode - 1] else 0
  }

  predicate ItemFits(item: Item, params: Params) {
    match item
    case Tracked(op) => OpFits(op, params)
    case Untracked(opcode, operands) =>
      && 0 < opcode < params.opcodeBase && opcode !in {1, 2, 3, 4, 5, 6, 8, 9}
      && |operands| == Declared(params, opcode)
    case Extension(body) =>
      params.opcodeBase >= 1 && IsDouble(|body|) && (body != [] ==> body[0] != 1 && body[0] != 2)
  }

  function EncodeULebs(operands: seq<nat>): seq<byte> {
    if operands == [] then [] else EncodeULeb(operands[0]) + EncodeULebs(operands[1..])
  }

  function EncodeItem(item: Item, params: Params): seq<byte>
    requires ItemFits(item, params)
  {
    match item
    case Tracked(op) => EncodeOp(op, params)
    case Untracked(opcode, operands) => [opcode] + EncodeULebs(operands)
    case Extension(body) => [0] + (EncodeULeb(|body|) + body)
  }

  lemma {:induction false} ULebsSkip(s: seq<byte>, p: nat, operands: seq<nat>)
    requires At(s, p, EncodeULebs(operands))
    ensures SkipULebs(s, p, |operands|) == Read((), p + |EncodeULebs(operands)|)
    decreases |operands|
  {
    hide ULeb, EncodeULeb, At;
    if operands != [] {
      var x := EncodeULeb(operands[0]);
      AtSplit(s, p, x, EncodeULebs(operands[1..]));
      ULebReads(s, p, operands[0]);
      ULebsSkip(s, p + |x|, operands[1..]);
    }
  }

  /** An instruction the debugger does not track decodes as one that does nothing, operands and all. */
  lemma OthersDecode(s: seq<byte>, p: nat, item: Item, params: Params)
    requires !item.Tracked? && ItemFits(item, params) && At(s, p, EncodeItem(item, params))
    ensures Decode(s, p, params) == Read(Ignored, p + |EncodeItem(item, params)|)
  {
    assert s[p] == EncodeItem(item, params)[0];
    hide At, ULeb, EncodeULeb, EncodeULebs, SkipULebs, Extended, IsDouble;
    match item
    case Untracked(opcode, operands) =>
      AtSplit(s, p, [opcode], EncodeULebs(operands));
      ULebsSkip(s, p + 1, operands);
    case Extension(body) =>
      AtSplit(s, p, [0], EncodeULeb(|body|) + body);
      ExtendedDecodes(s, p + 1, body);
  }

  /** It emits no row and leaves every register: the machine goes on right after it. */
  lemma OthersDoNothing(s: seq<byte>, p: nat, item: Item, params: Params, regs: Registers)
    requires !item.Tracked? && ItemFits(item, params) && At(s, p, EncodeItem(item, params))
    ensures Run(s, p, params, regs) == Run(s, p + |EncodeItem(item, params)|, params, regs)
  {
    hide Decode, EncodeItem, At, ItemFits, PrependAll;
    OthersDecode(s, p, item, params);
    PrependAllEnds(Run(s, Decode(s, p, params).next, params, regs), [], 0);
  }

  predicate ItemsFit(items: seq<Item>, params: Params) {
    forall k :: 0 <= k < |items| ==> ItemFits(items[k], params)
  }

  function EncodeItems(items: seq<Item>, params: Params): seq<byte>
    requires ItemsFit(items, params)
  {
    if items == [] then [] else EncodeItem(items[0], params) + EncodeItems(items[1..], params)
  }

  /** The instructions of a program that count. */
  function Tracks(items: seq<Item>): seq<Op> {
    if items == [] then []
    else (if items[0].Tracked? then [items[0].op] else []) + Tracks(items[1..])
  }

  /** The rows a list of instructions emits, and the registers it leaves. */
  function RowsOf(ops: seq<Op>, regs: Registers, params: Params): seq<Row> {
    if ops == [] then [] else Emitted(ops[0], regs, params) + RowsOf(ops[1..], Next(ops[0], regs, params), params)
  }

  function After(ops: seq<Op>, regs: Registers, params: Params): Registers {
    if ops == [] then regs else After(ops[1..], Next(ops[0], regs, params), params)
  }

  /**
   * Running the bytes of a program emits the rows of the instructions that count, whatever stands between
   * them, then runs what follows.
   */
  lemma {:induction false} ItemsRun(s: seq<byte>, p: nat, items: seq<Item>, params: Params, regs: Registers)
    requires ItemsFit(items, params) && At(s, p, EncodeItems(items, params))
    ensures Run(s, p, params, regs) ==
            PrependAll(RowsOf(Tracks(items), regs, params),
                       Run(s, p + |EncodeItems(items, params)|, params, After(Tracks(items), regs, params)))
    decreases |items|
  {
    hide At, EncodeItem, Decode, Next, Emitted, ItemFits, Run;
    if items == [] {
      PrependAllEnds(Run(s, p, params, regs), [], 0);
    } else {
      var e, rest := EncodeItem(items[0], params), items[1..];
      AtSplit(s, p, e, EncodeItems(rest, params));
      var after := Run(s, p + |EncodeItems(items, params)|, params, After(Tracks(items), regs, params));
      if items[0].Tracked? {
        OpRuns(s, p, items[0].op, params, regs);
        var op, regs1 := items[0].op, Next(items[0].op, regs, params);
        assert Tracks(items) == [op] + Tracks(rest) && ([op] + Tracks(rest))[1..] == Tracks(rest);
        ItemsRun(s, p + |e|, rest, params, regs1);
        PrependAllJoins(Emitted(op, regs, params), RowsOf(Tracks(rest), regs1, params), after);
      } else {
        OthersDoNothing(s, p, items[0], params, regs);
        assert Tracks(items) == Tracks(rest);
        ItemsRun(s, p + |e|, rest, params, regs);
      }
    }
  }

  lemma OpRuns(s: seq<byte>, p: nat, op: Op, params: Params, regs: Registers)
    requires ItemFits(Tracked(op), params) && At(s, p, EncodeItem(Tracked(op), params))
    ensures Run(s, p, params, regs) ==
            PrependAll(Emitted(op, regs, params),
                       Run(s, p + |EncodeItem(Tracked(op), params)|, params, Next(op, regs, params)))
  {
    hide At, EncodeOp, Decode, Next, Emitted, OpFits;
    OpDecodes(s, p, op, params);
    AtInside(s, p, EncodeOp(op, params));
  }

  lemma AtInside(s: seq<byte>, p: nat, e: seq<byte>)
    requires At(s, p, e)
    ensures p + |e| <= |s|
  {
  }

  /**
   * Each special opcode is an advance_pc, an advance_line and a copy, and const_add_pc advances the
   * address as special opcode 255 does.
   */
  lemma SpecialExpands(adjusted: nat, regs: Registers, params: Params)
    requires params.lineRange > 0
    ensures var expansion := [AdvancePc(adjusted / params.lineRange),
                              AdvanceLine(params.lineBase + adjusted % params.lineRange), Copy];
            && RowsOf(expansion, regs, params) == RowsOf([Special(adjusted)], regs, params)
            && After(expansion, regs, params) == After([Special(adjusted)], regs, params)
    ensures Next(ConstAddPc, regs, params) ==
            regs.(address := Next(Special(255 - params.opcodeBase), regs, params).address)
  {
    hide Plus, Rounded;
    var a, b := AdvancePc(adjusted / params.lineRange), AdvanceLine(params.lineBase + adjusted % params.lineRange);
    var regs1 := Next(a, regs, params);
    var regs2 := Next(b, regs1, params);
    assert RowsOf([Copy], regs2, params) == [RowOf(regs2, false)] + RowsOf([], regs2, params);
    assert [a, b, Copy][1..] == [b, Copy] && [b, Copy][1..] == [Copy];
    assert After([Copy], regs2, params) == regs2;
    assert After([b, Copy], regs1, params) == regs2;
    assert RowsOf([b, Copy], regs1, params) == [RowOf(regs2, false)];
  }

  // ----- Rows -----

  /** How an address change is written. */
  datatype Move = NoMove | ByAdvance | ByFixedAdvance | BySetAddress

  /** How a row is written: by one special opcode, after a const_add_pc or not, or by standard opcodes. */
  datatype Choice = BySpecial(constAdd: bool) | ByStandard(move: Move)

  /** Registers, or a row, that hold numbers a double tells apart from their neighbours. */
  predicate Sane(address: Num, line: Num) {
    address.Finite? && 0 <= address.value <= EXACT && line.Finite? && -(EXACT as int) <= line.value <= EXACT
  }

  predicate SaneRow(row: Row) {
    Sane(row.address, row.line)
  }

  predicate SaneRegisters(regs: Registers) {
    Sane(regs.address, regs.line)
  }

  function RegistersOf(row: Row): Registers {
    Registers(row.address, row.fileIndex, row.line, row.column, row.isStmt)
  }

  lemma PlusExact(a: int, b: int)
    requires -(EXACT as int) <= a + b <= EXACT
    ensures Plus(Finite(a), Finite(b)) == Finite(a + b)
  {
    RoundExactIff(if a + b < 0 then -(a + b) else a + b);
  }

  /** File, column and statement flag, each only if it differs. */
  function Setup(regs: Registers, row: Row): seq<Op> {
    (if row.fileIndex != regs.file then [SetFile(row.fileIndex)] else []) +
    ((if row.column != regs.column then [SetColumn(row.column)] else []) +
     (if row.isStmt != regs.isStmt then [NegateStmt] else []))
  }

  /** `bytes` is a whole number of instructions. */
  predicate Divides(params: Params, bytes: int) {
    bytes == 0 || (bytes > 0 && params.minInstLength > 0 && bytes % params.minInstLength == 0)
  }

  function Quotient(params: Params, bytes: int): (n: nat)
    requires Divides(params, bytes)
    ensures n * params.minInstLength == bytes
  {
    if bytes == 0 then 0 else bytes / params.minInstLength
  }

  function MoveBytes(regs: Registers, row: Row): int
    requires SaneRegisters(regs) && SaneRow(row)
  {
    row.address.value - regs.address.value
  }

  function MoveLines(regs: Registers, row: Row): int
    requires SaneRegisters(regs) && SaneRow(row)
  {
    row.line.value - regs.line.value
  }

  predicate MoveReaches(move: Move, regs: Registers, row: Row, params: Params)
    requires SaneRegisters(regs) && SaneRow(row)
  {
    match move
    case NoMove => row.address == regs.address
    case BySetAddress => true
    case ByFixedAdvance => MoveBytes(regs, row) >= 0
    case ByAdvance => Divides(params, MoveBytes(regs, row))
  }

  function MoveOps(move: Move, regs: Registers, row: Row, params: Params): seq<Op>
    requires SaneRegisters(regs) && SaneRow(row) && MoveReaches(move, regs, row, params)
  {
    match move
    case NoMove => []
    case BySetAddress => [SetAddress(row.address)]
    case ByFixedAdvance => [FixedAdvancePc(MoveBytes(regs, row))]
    case ByAdvance => [AdvancePc(Quotient(params, MoveBytes(regs, row)))]
  }

  function LineOps(regs: Registers, row: Row): seq<Op>
    requires SaneRegisters(regs) && SaneRow(row)
  {
    if row.line == regs.line then [] else [AdvanceLine(MoveLines(regs, row))]
  }

  /** What const_add_pc adds to the address. */
  function ConstAdvance(constAdd: bool, params: Params): nat
    requires params.lineRange > 0
  {
    if constAdd then ((255 - params.opcodeBase) / params.lineRange) * params.minInstLength else 0
  }

  /** The special opcode, less `opcode_base`, that does the rest of the move and the line. */
  function Adjusted(constAdd: bool, regs: Registers, row: Row, params: Params): int
    requires SaneRegisters(regs) && SaneRow(row) && params.lineRange > 0
    requires Divides(params, MoveBytes(regs, row) - ConstAdvance(constAdd, params))
  {
    Quotient(params, MoveBytes(regs, row) - ConstAdvance(constAdd, params)) * params.lineRange
    + (MoveLines(regs, row) - params.lineBase)
  }

  /** The choice leads from the registers to the row. */
  predicate Reaches(choice: Choice, regs: Registers, row: Row, params: Params)
    requires SaneRegisters(regs) && SaneRow(row)
  {
    match choice
    case BySpecial(constAdd) =>
      && !row.endSequence && params.lineRange > 0
      && params.lineBase <= MoveLines(regs, row) < params.lineBase + params.lineRange
      && Divides(params, MoveBytes(regs, row) - ConstAdvance(constAdd, params))
    case ByStandard(move) => MoveReaches(move, regs, row, params)
  }

  /** The instructions that write `row`, the registers standing at `regs`. */
  function Plan(choice: Choice, regs: Registers, row: Row, params: Params): seq<Op>
    requires SaneRegisters(regs) && SaneRow(row) && Reaches(choice, regs, row, params)
  {
    Setup(regs, row) +
    match choice
    case BySpecial(constAdd) =>
      AdjustedBound(constAdd, regs, row, params);
      (if constAdd then [ConstAddPc] else []) + [Special(Adjusted(constAdd, regs, row, params))]
    case ByStandard(move) =>
      MoveOps(move, regs, row, params) + (LineOps(regs, row) + [if row.endSequence then EndSequence else Copy])
  }

  /** And every instruction of it is one the header defines, with an operand that reads back. */
  predicate Suits(choice: Choice, regs: Registers, row: Row, params: Params) {
    && SaneRegisters(regs) && SaneRow(row) && Reaches(choice, regs, row, params)
    && OpsFit(Plan(choice, regs, row, params), params)
  }

  lemma AdjustedBound(constAdd: bool, regs: Registers, row: Row, params: Params)
    requires SaneRegisters(regs) && SaneRow(row) && Reaches(BySpecial(constAdd), regs, row, params)
    ensures var a := Adjusted(constAdd, regs, row, params);
            && a >= 0
            && a / params.lineRange == Quotient(params, MoveBytes(regs, row) - ConstAdvance(constAdd, params))
            && a % params.lineRange == MoveLines(regs, row) - params.lineBase
  {
    var q := Quotient(params, MoveBytes(regs, row) - ConstAdvance(constAdd, params));
    var d := MoveLines(regs, row) - params.lineBase;
    hide Quotient, Divides;
    NotNegative(q, params.lineRange);
    Unique(q * params.lineRange + d, params.lineRange, q, d);
  }

  /** After Setup, only address and line are still to be set. */
  function SetUp(regs: Registers, row: Row): Registers {
    Registers(regs.address, row.fileIndex, regs.line, row.column, row.isStmt)
  }

  lemma {:induction false} OpsConcatenate(a: seq<Op>, b: seq<Op>, regs: Registers, params: Params)
    ensures RowsOf(a + b, regs, params) == RowsOf(a, regs, params) + RowsOf(b, After(a, regs, params), params)
    ensures After(a + b, regs, params) == After(b, After(a, regs, params), params)
    decreases |a|
  {
    hide Next, Emitted;
    if a == [] {
      assert a + b == b;
    } else {
      assert (a + b)[1..] == a[1..] + b;
      OpsConcatenate(a[1..], b, Next(a[0], regs, params), params);
    }
  }

  lemma OneOp(op: Op, regs: Registers, params: Params)
    ensures RowsOf([op], regs, params) == Emitted(op, regs, params)
    ensures After([op], regs, params) == Next(op, regs, params)
    ensures RowsOf([], regs, params) == [] && After([], regs, params) == regs
  {
    hide Next, Emitted;
    assert [op][1..] == [];
  }

  lemma SetupReaches(regs: Registers, row: Row, params: Params)
    ensures RowsOf(Setup(regs, row), regs, params) == []
    ensures After(Setup(regs, row), regs, params) == SetUp(regs, row)
  {
    hide RowsOf, After;
    var f, c, n := SetFile(row.fileIndex), SetColumn(row.column), NegateStmt;
    var a := if row.fileIndex != regs.file then [f] else [];
    var b := if row.column != regs.column then [c] else [];
    var d := if row.isStmt != regs.isStmt then [n] else [];
    var regs1 := regs.(file := row.fileIndex);
    var regs2 := regs1.(column := row.column);
    OpsConcatenate(a, b + d, regs, params);
    OpsConcatenate(b, d, regs1, params);
    OneOp(f, regs, params);
    OneOp(c, regs1, params);
    OneOp(n, regs2, params);
  }

  lemma MoveArrives(move: Move, regs: Registers, row: Row, params: Params)
    requires SaneRegisters(regs) && SaneRow(row) && MoveReaches(move, regs, row, params)
    ensures var ops, r := MoveOps(move, regs, row, params), SetUp(regs, row);
            RowsOf(ops, r, params) == [] && After(ops, r, params) == r.(address := row.address)
  {
    hide RowsOf, After, Round, Plus, Rounded;
    var r, d := SetUp(regs, row), MoveBytes(regs, row);
    PlusExact(regs.address.value, d);
    if move == ByAdvance {
      RoundedExact(Quotient(params, d) * params.minInstLength);
    }
    var op := if move == NoMove then Copy else MoveOps(move, regs, row, params)[0];
    OneOp(op, r, params);
  }

  lemma LineArrives(regs: Registers, row: Row, params: Params)
    requires SaneRegisters(regs) && SaneRow(row)
    ensures var ops, r := LineOps(regs, row), SetUp(regs, row).(address := row.address);
            RowsOf(ops, r, params) == [] && After(ops, r, params) == RegistersOf(row)
  {
    hide RowsOf, After, Round, Plus;
    PlusExact(regs.line.value, MoveLines(regs, row));
    OneOp(AdvanceLine(MoveLines(regs, row)), SetUp(regs, row).(address := row.address), params);
  }

  /** The registers a sequence starts from (section 6.2.2 of DWARF version 5). */
  function Fresh(params: Params): Registers {
    Registers(Finite(0), 1, Finite(1), 0, params.defaultIsStmt)
  }

  function Reset(row: Row, params: Params): Registers {
    if row.endSequence then Fresh(params) else RegistersOf(row)
  }

  lemma StandardReaches(regs: Registers, row: Row, move: Move, params: Params)
    requires SaneRegisters(regs) && SaneRow(row) && MoveReaches(move, regs, row, params)
    ensures var r := SetUp(regs, row);
            var ops := MoveOps(move, regs, row, params) +
                       (LineOps(regs, row) + [if row.endSequence then EndSequence else Copy]);
            RowsOf(ops, r, params) == [row] && After(ops, r, params) == Reset(row, params)
  {
    hide RowsOf, After, MoveOps, LineOps, MoveReaches, SaneRegisters, SaneRow;
    var last := if row.endSequence then EndSequence else Copy;
    var m, l := MoveOps(move, regs, row, params), LineOps(regs, row);
    MoveArrives(move, regs, row, params);
    LineArrives(regs, row, params);
    OneOp(last, RegistersOf(row), params);
    OpsConcatenate(m, l + [last], SetUp(regs, row), params);
    OpsConcatenate(l, [last], SetUp(regs, row).(address := row.address), params);
  }

  lemma ConstAddArrives(constAdd: bool, regs: Registers, row: Row, params: Params)
    requires SaneRegisters(regs) && SaneRow(row) && Reaches(BySpecial(constAdd), regs, row, params)
    ensures var ops, r := if constAdd then [ConstAddPc] else [], SetUp(regs, row);
            && RowsOf(ops, r, params) == []
            && After(ops, r, params) == r.(address := Finite(regs.address.value + ConstAdvance(constAdd, params)))
  {
    hide RowsOf, After, Round, Plus, Rounded, Divides;
    var c := ConstAdvance(constAdd, params);
    assert MoveBytes(regs, row) - c >= 0 by {
      DividesSign(params, MoveBytes(regs, row) - c);
    }
    if constAdd {
      RoundedExact((255 - params.opcodeBase) / params.lineRange * params.minInstLength);
      PlusExact(regs.address.value, c);
    }
    OneOp(ConstAddPc, SetUp(regs, row), params);
  }

  lemma DividesSign(params: Params, bytes: int)
    requires Divides(params, bytes)
    ensures bytes >= 0
  {
  }

  lemma SpecialArrives(constAdd: bool, regs: Registers, row: Row, params: Params)
    requires SaneRegisters(regs) && SaneRow(row) && Reaches(BySpecial(constAdd), regs, row, params)
    ensures Adjusted(constAdd, regs, row, params) >= 0
    ensures var r := SetUp(regs, row).(address := Finite(regs.address.value + ConstAdvance(constAdd, params)));
            Next(Special(Adjusted(constAdd, regs, row, params)), r, params) == RegistersOf(row)
  {
    AdjustedBound(constAdd, regs, row, params);
    var c := ConstAdvance(constAdd, params);
    var q := Quotient(params, MoveBytes(regs, row) - c);
    hide Round, Plus, Rounded, Divides, Adjusted, ConstAdvance, Quotient;
    assert q * params.minInstLength == MoveBytes(regs, row) - c;
    RoundedExact(q * params.minInstLength);
    PlusExact(regs.address.value + c, MoveBytes(regs, row) - c);
    PlusExact(regs.line.value, MoveLines(regs, row));
  }

  lemma SpecialReaches(regs: Registers, row: Row, constAdd: bool, params: Params)
    requires SaneRegisters(regs) && SaneRow(row) && Reaches(BySpecial(constAdd), regs, row, params)
    ensures Adjusted(constAdd, regs, row, params) >= 0
    ensures var r := SetUp(regs, row);
            var ops := (if constAdd then [ConstAddPc] else []) + [Special(Adjusted(constAdd, regs, row, params))];
            RowsOf(ops, r, params) == [row] && After(ops, r, params) == RegistersOf(row)
  {
    assert !row.endSequence;
    SpecialArrives(constAdd, regs, row, params);
    hide RowsOf, After, Reaches, Next, Adjusted, ConstAdvance, SaneRegisters, SaneRow;
    var r, special := SetUp(regs, row), Special(Adjusted(constAdd, regs, row, params));
    var pre := if constAdd then [ConstAddPc] else [];
    ConstAddArrives(constAdd, regs, row, params);
    OpsConcatenate(pre, [special], r, params);
    OneOp(special, After(pre, r, params), params);
  }

  /** A plan writes exactly its row, and leaves the registers at it, or reset after the end of a sequence. */
  lemma PlanReaches(choice: Choice, regs: Registers, row: Row, params: Params)
    requires Suits(choice, regs, row, params)
    ensures var ops := Plan(choice, regs, row, params);
            RowsOf(ops, regs, params) == [row] && After(ops, regs, params) == Reset(row, params)
  {
    hide RowsOf, After, Setup, SetUp, SaneRegisters, SaneRow, MoveOps, LineOps, Adjusted, OpsFit;
    SetupReaches(regs, row, params);
    match choice {
      case BySpecial(constAdd) =>
        SpecialReaches(regs, row, constAdd, params);
        OpsConcatenate(Setup(regs, row), (if constAdd then [ConstAddPc] else []) +
                       [Special(Adjusted(constAdd, regs, row, params))], regs, params);
      case ByStandard(move) =>
        StandardReaches(regs, row, move, params);
        OpsConcatenate(Setup(regs, row), MoveOps(move, regs, row, params) +
                       (LineOps(regs, row) + [if row.endSequence then EndSequence else Copy]), regs, params);
    }
  }

  // ----- Programs -----

  predicate AllSuit(rows: seq<Row>, choices: seq<Choice>, regs: Registers, params: Params)
    decreases rows
  {
    if rows == [] then choices == []
    else choices != [] && Suits(choices[0], regs, rows[0], params) &&
         AllSuit(rows[1..], choices[1..], Reset(rows[0], params), params)
  }

  function Program(rows: seq<Row>, choices: seq<Choice>, regs: Registers, params: Params): seq<Op>
    requires AllSuit(rows, choices, regs, params)
    decreases rows
  {
    if rows == [] then []
    else Plan(choices[0], regs, rows[0], params) + Program(rows[1..], choices[1..], Reset(rows[0], params), params)
  }

  lemma {:induction false} ProgramEmits(rows: seq<Row>, choices: seq<Choice>, regs: Registers, params: Params)
    requires AllSuit(rows, choices, regs, params)
    ensures var ops := Program(rows, choices, regs, params);
            OpsFit(ops, params) && RowsOf(ops, regs, params) == rows
    decreases rows
  {
    if rows != [] {
      assert OpsFit(Plan(choices[0], regs, rows[0], params), params);
      hide Plan, Suits, After, OpFits, Reset;
      PlanReaches(choices[0], regs, rows[0], params);
      var rest := Program(rows[1..], choices[1..], Reset(rows[0], params), params);
      ProgramEmits(rows[1..], choices[1..], Reset(rows[0], params), params);
      OpsConcatenate(Plan(choices[0], regs, rows[0], params), rest, regs, params);
    }
  }

  /**
   * Whatever the header, the rows, the instructions chosen among those the header defines, and the others
   * written between them, the machine reads the program back as exactly those rows.
   */
  lemma RowsReadBack(rows: seq<Row>, choices: seq<Choice>, items: seq<Item>, params: Params)
    requires AllSuit(rows, choices, Fresh(params), params) && ItemsFit(items, params)
    requires Tracks(items) == Program(rows, choices, Fresh(params), params)
    ensures var s := EncodeItems(items, params); Run(s, 0, params, Initial(params)) == Read(rows, |s|)
  {
    hide AllSuit, Program, OpsFit, RowsOf, After, EncodeItems, ItemsFit, Tracks;
    ProgramEmits(rows, choices, Fresh(params), params);
    var s := EncodeItems(items, params);
    assert s[0..|s|] == s;
    ItemsRun(s, 0, items, params, Initial(params));
    PrependAllEnds(Read([], |s|), rows, |s|);
  }

  /** A program with nothing but the instructions that count. */
  function Bare(ops: seq<Op>): (items: seq<Item>)
    ensures |items| == |ops| && forall k :: 0 <= k < |ops| ==> items[k] == Tracked(ops[k])
  {
    seq(|ops|, k requires 0 <= k < |ops| => Tracked(ops[k]))
  }

  lemma {:induction false} BareTracks(ops: seq<Op>, params: Params)
    requires OpsFit(ops, params)
    ensures Tracks(Bare(ops)) == ops && ItemsFit(Bare(ops), params)
    decreases |ops|
  {
    hide OpFits;
    if ops != [] {
      BareTracks(ops[1..], params);
      assert Bare(ops)[1..] == Bare(ops[1..]);
    }
  }

  /** Rows whose changes of file, column, flag and line the header's standard opcodes can say. */
  predicate Sayable(rows: seq<Row>, regs: Registers, params: Params)
    decreases rows
  {
    rows == [] ||
    (var row := rows[0];
     && row.address.Finite? && 0 <= row.address.value < 0x1_0000_0000
     && row.line.Finite? && 0 <= row.line.value <= 0x1_0000_0000_0000
     && OpsFit(Setup(regs, row), params)
     && (!row.endSequence ==> params.opcodeBase > 1)
     && (row.line != regs.line ==> params.opcodeBase > 3)
     && Sayable(rows[1..], Reset(row, params), params))
  }

  lemma StandardFits(row: Row, regs: Registers, params: Params)
    requires Sayable([row], regs, params) && params.opcodeBase >= 1
    requires SaneRegisters(regs) && 0 <= regs.line.value <= 0x1_0000_0000_0000
    ensures Suits(ByStandard(BySetAddress), regs, row, params)
  {
    var dl := MoveLines(regs, row);
    if dl > 0 {
      RoundExactIff(dl);
    }
    var ops := Plan(ByStandard(BySetAddress), regs, row, params);
    var setup := Setup(regs, row);
    var rest := [SetAddress(row.address)] + (LineOps(regs, row) + [if row.endSequence then EndSequence else Copy]);
    assert ops == setup + rest;
    hide Setup, IsDouble, Plan;
    assert OpsFit(rest, params);
    assert forall k :: 0 <= k < |setup| ==> ops[k] == setup[k];
    assert forall k :: |setup| <= k < |ops| ==> ops[k] == rest[k - |setup|];
  }

  /**
   * Rows of 32-bit addresses and ordinary line numbers can be written whatever the header, as long as it
   * defines the opcodes their changes need; with the first six defined, always.
   */
  lemma {:induction false} AlwaysWritable(rows: seq<Row>, regs: Registers, params: Params)
    requires params.opcodeBase >= 1 && Sayable(rows, regs, params)
    requires SaneRegisters(regs) && 0 <= regs.line.value <= 0x1_0000_0000_0000
    ensures AllSuit(rows, seq(|rows|, _ => ByStandard(BySetAddress)), regs, params)
    decreases rows
  {
    if rows != [] {
      assert [rows[0]][0] == rows[0] && [rows[0]][1..] == [];
      StandardFits(rows[0], regs, params);
      AlwaysWritable(rows[1..], Reset(rows[0], params), params);
      assert seq(|rows|, _ => ByStandard(BySetAddress))[1..] == seq(|rows[1..]|, _ => ByStandard(BySetAddress));
    }
  }

  lemma {:induction false} SixOpcodesSay(rows: seq<Row>, regs: Registers, params: Params)
    requires params.opcodeBase >= 7
    requires forall k :: 0 <= k < |rows| ==>
               && rows[k].address.Finite? && 0 <= rows[k].address.value < 0x1_0000_0000
               && rows[k].line.Finite? && 0 <= rows[k].line.value <= 0x1_0000_0000_0000
               && IsDouble(rows[k].fileIndex) && IsDouble(rows[k].column)
    ensures Sayable(rows, regs, params)
    decreases rows
  {
    hide IsDouble;
    if rows != [] {
      SixOpcodesSay(rows[1..], Reset(rows[0], params), params);
    }
  }
}
