/**
 * The line-number program (src/dwarf/line.ts `runStateMachine`; section 6.2.5 of DWARF version 5): what
 * its bytes mean, the machine itself, and an encoder it inverts.
 */
module LineProgram {
  import opened Prelude
  import opened Doubles
  import opened Bytes
  import opened Abbrev

  datatype Params = Params(
    minInstLength: nat, defaultIsStmt: bool, lineBase: int, lineRange: nat, opcodeBase: byte,
    standardOpcodeLengths: seq<nat>)

  datatype Row = Row(address: Num, fileIndex: nat, line: Num, column: nat, isStmt: bool, endSequence: bool)

  datatype Registers = Registers(address: Num, file: nat, line: Num, column: nat, isStmt: bool)

  function Initial(params: Params): Registers {
    Registers(Finite(0), 1, Finite(1), 0, params.defaultIsStmt)
  }

  /** One instruction, decoded. `Ignored` covers opcodes whose state the debugger does not track. */
  datatype Op =
    | Special(adjusted: nat)
    | Copy
    | AdvancePc(operations: nat)
    | AdvanceLine(lines: int)
    | SetFile(file: nat)
    | SetColumn(column: nat)
    | NegateStmt
    | ConstAddPc
    | FixedAdvancePc(bytes: nat)
    | EndSequence
    | SetAddress(address: Num)
    | Ignored

  // ----- Decoding -----

  /** `readUintLE`: the little-endian value as the code adds it up, infinite once a weight or the sum is. */
  function SummedLE(b: seq<byte>): Num {
    if b == [] then Finite(0)
    else Plus(SummedLE(b[..|b| - 1]), Scaled(b[|b| - 1], PowerOfTwo(8 * (|b| - 1))))
  }

  function Extended(s: seq<byte>, p: nat): (r: Read<Op>)
    ensures r.Read? ==> p < r.next <= |s|
  {
    var (length, p1) :- ULeb(s, p);
    var (body, p2) :- Take(s, p1, length);
    Read(if length > 0 && body[0] == 1 then EndSequence
         else if length > 0 && body[0] == 2 then SetAddress(SummedLE(body[1..]))
         else Ignored, p2)
  }

  function SkipULebs(s: seq<byte>, p: nat, n: nat): (r: Read<()>)
    ensures r.Read? && p <= |s| ==> p <= r.next <= |s|
    decreases n
  {
    if n == 0 then Read((), p)
    else
      var (_, next) :- ULeb(s, p);
      SkipULebs(s, next, n - 1)
  }

  function OperandCount(params: Params, opcode: nat): nat {
    if 1 <= opcode <= |params.standardOpcodeLengths| then params.standardOpcodeLengths[opcode - 1] else 0
  }

  function Standard(s: seq<byte>, p: nat, opcode: nat, params: Params): (r: Read<Op>)
    ensures r.Read? && p <= |s| ==> p <= r.next <= |s|
  {
    if opcode == 1 then Read(Copy, p)
    else if opcode == 2 then
      var (n, next) :- ULeb(s, p);
      Read(AdvancePc(n), next)
    else if opcode == 3 then
      var (n, next) :- SLeb(s, p);
      Read(AdvanceLine(n), next)
    else if opcode == 4 then
      var (n, next) :- ULeb(s, p);
      Read(SetFile(n), next)
    else if opcode == 5 then
      var (n, next) :- ULeb(s, p);
      Read(SetColumn(n), next)
    else if opcode == 6 then Read(NegateStmt, p)
    else if opcode == 8 then Read(ConstAddPc, p)
    else if opcode == 9 then
      var (n, next) :- Fixed(s, p, 2);
      Read(FixedAdvancePc(n), next)
    else
      var (_, next) :- SkipULebs(s, p, OperandCount(params, opcode));
      Read(Ignored, next)
  }

  function Decode(s: seq<byte>, p: nat, params: Params): (r: Read<Op>)
    ensures r.Read? ==> p < r.next <= |s|
  {
    if p >= |s| then Malformed
    else if s[p] >= params.opcodeBase then Read(Special(s[p] - params.opcodeBase), p + 1)
    else if s[p] == 0 then Extended(s, p + 1)
    else Standard(s, p + 1, s[p], params)
  }

  // ----- Execution -----

  function RowOf(regs: Registers, endSequence: bool): Row {
    Row(regs.address, regs.file, regs.line, regs.column, regs.isStmt, endSequence)
  }

  /** Addresses advance in units of `minimum_instruction_length`. */
  function Advance(operations: nat, params: Params): Num {
    Rounded(operations * params.minInstLength)
  }

  /** How a special opcode advances the address; dividing by a zero line range leaves no finite number. */
  function SpecialAdvance(adjusted: nat, params: Params): Num {
    if params.lineRange == 0 then NotFinite else Advance(adjusted / params.lineRange, params)
  }

  /** How it advances the line. */
  function SpecialLines(adjusted: nat, params: Params): Num {
    if params.lineRange == 0 then NotFinite else Finite(params.lineBase + adjusted % params.lineRange)
  }

  /** What one instruction emits. */
  function Emitted(op: Op, regs: Registers, params: Params): seq<Row>
  {
    match op
    case Special(_) => [RowOf(Next(op, regs, params), false)]
    case Copy => [RowOf(regs, false)]
    case EndSequence => [RowOf(regs, true)]
    case _ => []
  }

  /** The registers after one instruction. */
  function Next(op: Op, regs: Registers, params: Params): Registers
  {
    match op
    case Special(a) =>
      regs.(address := Plus(regs.address, SpecialAdvance(a, params)), line := Plus(regs.line, SpecialLines(a, params)))
    case AdvancePc(n) => regs.(address := Plus(regs.address, Advance(n, params)))
    case AdvanceLine(n) => regs.(line := Plus(regs.line, Finite(n)))
    case SetFile(n) => regs.(file := n)
    case SetColumn(n) => regs.(column := n)
    case NegateStmt => regs.(isStmt := !regs.isStmt)
    case ConstAddPc => regs.(address := Plus(regs.address, SpecialAdvance(255 - params.opcodeBase, params)))
    case FixedAdvancePc(n) => regs.(address := Plus(regs.address, Finite(n)))
    case EndSequence => Initial(params)
    case SetAddress(a) => regs.(address := a)
    case Copy | Ignored => regs
  }

  /** The rows a program emits from position `p` to its end. */
  function Run(s: seq<byte>, p: nat, params: Params, regs: Registers): Read<seq<Row>>
    decreases |s| - p
  {
    if p >= |s| then Read([], p)
    else
      var op := Decode(s, p, params);
      if op.Malformed? then Malformed
      else PrependAll(Emitted(op.value, regs, params), Run(s, op.next, params, Next(op.value, regs, params)))
  }

  // ----- The state machine -----

  /** `readUintLE` of the rest of an instruction's body. */
  method ReadUintLE(body: ByteCursor) returns (value: Num)
    requires body.offset == 1 <= |body.data|
    modifies body
    ensures value == SummedLE(body.data[1..])
  {
    hide Plus, Scaled, PowerOfTwo;
    value := Finite(0);
    var n := |body.data| - body.offset;
    ghost var digits := body.data[1..];
    for i := 0 to n
      invariant body.offset == i + 1 && |digits| == n
      invariant value == SummedLE(digits[..i])
    {
      assert digits[..i + 1][..i] == digits[..i];
      LittleEndianOf(body.data[body.offset..body.offset + 1]);
      var byte := body.U8();
      if byte.Thrown? {
        assert false;
      } else {
        value := Plus(value, Scaled(byte.value, PowerOfTwo(8 * i)));
      }
    }
    assert digits[..n] == digits;
  }

  /** The registers and the rows emitted so far: the local state of `runStateMachine`. */
  class Machine {
    const params: Params
    var rows: seq<Row>
    var address: Num
    var file: nat
    var line: Num
    var column: nat
    var isStmt: bool

    function State(): Registers
      reads this
    {
      Registers(address, file, line, column, isStmt)
    }

    /** The machine did in `program` what instruction `d` says, starting from these rows and registers. */
    ghost predicate Did(d: Read<Op>, next: nat, rows0: seq<Row>, regs0: Registers)
      reads this
    {
      && d.Read? && d.next == next
      && State() == Next(d.value, regs0, params)
      && rows == rows0 + Emitted(d.value, regs0, params)
    }

    constructor (params: Params)
      ensures this.params == params && rows == [] && State() == Initial(params)
    {
      this.params := params;
      rows := [];
      address, file, line, column, isStmt := Finite(0), 1, Finite(1), 0, params.defaultIsStmt;
    }

    method Emit(endSequence: bool)
      modifies this
      ensures rows == old(rows) + [RowOf(State(), endSequence)] && State() == old(State())
    {
      rows := rows + [Row(address, file, line, column, isStmt, endSequence)];
    }

    method ResetRegisters()
      modifies this
      ensures State() == Initial(params) && rows == old(rows)
    {
      address, file, line, column, isStmt := Finite(0), 1, Finite(1), 0, params.defaultIsStmt;
    }

    method RunExtended(program: ByteCursor) returns (r: Result<()>)
      modifies this, program
      ensures r.Thrown? ==> Extended(program.data, old(program.offset)).Malformed?
      ensures r.Ok? ==> Did(Extended(program.data, old(program.offset)), program.offset, old(rows), old(State()))
    {
      hide ULeb, LittleEndian, SummedLE;
      var length :- program.ReadULeb();
      var body :- program.Sub(length);
      var extOpcode := 0;
      if length > 0 {
        LittleEndianOf(body.data[0..1]);
        var first := body.U8();
        extOpcode := if first.Ok? then first.value else 0;
      }
      if extOpcode == 1 {
        Emit(true);
        ResetRegisters();
      } else if extOpcode == 2 {
        var target := ReadUintLE(body);
        address := target;
      }
      r := Ok(());
    }

    method SkipOperands(program: ByteCursor, count: nat) returns (r: Result<()>)
      modifies program
      ensures Outcome(r, program.offset) == SkipULebs(program.data, old(program.offset), count)
    {
      hide ULeb;
      for i := 0 to count
        invariant SkipULebs(program.data, old(program.offset), count) ==
                  SkipULebs(program.data, program.offset, count - i)
      {
        var skipped :- program.ReadULeb();
      }
      r := Ok(());
    }

    method RunStandard(program: ByteCursor, opcode: nat) returns (r: Result<()>)
      modifies this, program
      ensures r.Thrown? ==> Standard(program.data, old(program.offset), opcode, params).Malformed?
      ensures r.Ok? ==>
                Did(Standard(program.data, old(program.offset), opcode, params), program.offset,
                    old(rows), old(State()))
    {
      hide ULeb, SLeb, Fixed, SkipULebs, Plus, SpecialAdvance, Advance, Overflows, LebCount, ULebNumber, SLebNumber;
      if opcode == 1 {
        Emit(false);
      } else if opcode == 2 {
        var n :- program.ReadULeb();
        address := Plus(address, Advance(n, params));
      } else if opcode == 3 {
        var n :- program.ReadSLeb();
        line := Plus(line, Finite(n));
      } else if opcode == 4 {
        file :- program.ReadULeb();
      } else if opcode == 5 {
        column :- program.ReadULeb();
      } else if opcode == 6 {
        isStmt := !isStmt;
      } else if opcode == 8 {
        address := Plus(address, SpecialAdvance(255 - params.opcodeBase, params));
      } else if opcode == 9 {
        var n :- program.U16();
        address := Plus(address, Finite(n));
      } else {
        var skipped :- SkipOperands(program, OperandCount(params, opcode));
      }
      r := Ok(());
    }

    /** One turn of the loop. */
    method Step(program: ByteCursor) returns (r: Result<()>)
      modifies this, program
      ensures r.Thrown? ==> Decode(program.data, old(program.offset), params).Malformed?
      ensures r.Ok? ==>
                Did(Decode(program.data, old(program.offset), params), program.offset, old(rows), old(State()))
    {
      hide Extended, Standard, LittleEndian, Plus, SpecialAdvance, SpecialLines;
      if program.offset < |program.data| {
        LittleEndianOf(program.data[program.offset..program.offset + 1]);
      }
      var opcode :- program.U8();
      if opcode >= params.opcodeBase as int {
        var adjusted := opcode - params.opcodeBase as int;
        address := Plus(address, SpecialAdvance(adjusted, params));
        line := Plus(line, SpecialLines(adjusted, params));
        Emit(false);
        r := Ok(());
      } else if opcode == 0 {
        r := RunExtended(program);
      } else {
        r := RunStandard(program, opcode);
      }
    }
  }

  method RunStateMachine(program: ByteCursor, params: Params) returns (r: Result<seq<Row>>)
    modifies program
    ensures r.Thrown? <==> Run(program.data, old(program.offset), params, Initial(params)).Malformed?
    ensures r.Ok? ==> r.value == Run(program.data, old(program.offset), params, Initial(params)).value
  {
    hide Decode, Next, Emitted;
    var m := new Machine(params);
    PrependAllEnds(Run(program.data, program.offset, params, Initial(params)), [], 0);
    while program.offset < |program.data|
      invariant m.params == params && fresh(m)
      invariant Run(program.data, old(program.offset), params, Initial(params)) ==
                PrependAll(m.rows, Run(program.data, program.offset, params, m.State()))
      decreases |program.data| - program.offset
    {
      ghost var rows0, regs0, d := m.rows, m.State(), Decode(program.data, program.offset, params);
      var done :- m.Step(program);
      PrependAllJoins(rows0, Emitted(d.value, regs0, params),
                      Run(program.data, program.offset, params, m.State()));
    }
    PrependAllEnds(Run(program.data, program.offset, params, m.State()), m.rows, program.offset);
    r := Ok(m.rows);
  }

  lemma PrependAllJoins<T>(xs: seq<T>, ys: seq<T>, r: Read<seq<T>>)
    ensures PrependAll(xs, PrependAll(ys, r)) == PrependAll(xs + ys, r)
  {
    if r.Read? {
      assert xs + (ys + r.value) == (xs + ys) + r.value;
    }
  }
}
