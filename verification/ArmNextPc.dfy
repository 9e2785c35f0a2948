/** Where a stepped instruction goes next (arm-next-pc/src/lib.rs). Instructions arrive decoded. Every opcode the
    source names is here; OtherOpcode stands for those it lets fall through.

    Words are integers below 2^32, and wrapping operations are taken modulo 2^32. The shift, rotate and bitwise
    opcodes work on the bits; elsewhere `& (2^k - 1)` is written `% 2^k`, which ArmAlu.LowMask justifies.
    `Unreachable` is an operand shape on which the source panics. */
module ArmNextPc {
  import opened Words
  import opened ArmManual
  import opened WordBits

  type RegNo = x: nat | x < 16

  type Regs13 = r: seq<u32> | |r| == 13 witness seq(13, _ => 0)

  datatype RegContext = RegContext(r: Regs13, sp: u32, lr: u32, pc: u32, cpsr: u32)

  datatype ConditionCode = EQ | NE | HS | LO | MI | PL | VS | VC | HI | LS | GE | LT | GT | LE | AL

  datatype Operand =
    | Reg(n: RegNo)
    | RegWBack(n: RegNo)
    | RegList(list: nat)
    | Imm12(value: nat)
    | Imm32(word: u32)
    | RegDeref(n: RegNo)
    | RegDerefPreindexOffset(n: RegNo, distance: nat, add: bool)
    | RegDerefPostindexOffset(n: RegNo)
    | RegDerefPreindexReg(n: RegNo, index: RegNo)
    | BranchOffset(offset: int)
    | BranchThumbOffset(offset: int)
    | Nothing
    | OtherOperand

  datatype Opcode =
    | AND | EOR | SUB | RSB | ADD | ADC | SBC | RSC | ORR | MOV | BIC | MVN | LSL | LSR | ASR | RRX | ROR | ADR
    | LDR | LDRT
    | LDM(up: bool, before: bool)
    | POP
    | B | BL | BX | BXJ | BLX | CBZ | CBNZ
    | TBB | TBH
    | OtherOpcode

  datatype Insn = Insn(
    condition: ConditionCode, opcode: Opcode, op0: Operand, op1: Operand, op2: Operand, thumb: bool, wide: bool)

  datatype NextPc = Next(target: Target) | MemoryRead | DecodeError | Unreachable

  type Decoder = (seq<byte>, bool) -> Option<Insn>

  function WrappingAdd(a: u32, b: int): u32 {
    (a + b) % TWO_TO_THE_32
  }

  function WrappingSub(a: u32, b: int): u32 {
    (a - b) % TWO_TO_THE_32
  }

  /** x & mask != 0, for a mask of one bit. */
  predicate Masked(x: nat, mask: nat)
    requires mask > 0
  {
    x / mask % 2 == 1
  }

  predicate Thumb(regs: RegContext) {
    Masked(regs.cpsr, 0x20)
  }

  function RegValue(regs: RegContext, n: RegNo): u32
  {
    if n < 13 then regs.r[n] else if n == 13 then regs.sp else if n == 14 then regs.lr else regs.pc
  }

  function CondFlags(regs: RegContext): Flags {
    Flags(Masked(regs.cpsr, 0x8000_0000), Masked(regs.cpsr, 0x4000_0000),
          Masked(regs.cpsr, 0x2000_0000), Masked(regs.cpsr, 0x1000_0000))
  }

  predicate EvalCond(cond: ConditionCode, regs: RegContext) {
    var Flags(n, z, c, v) := CondFlags(regs);
    match cond
    case EQ => z
    case NE => !z
    case HS => c
    case LO => !c
    case MI => n
    case PL => !n
    case VS => v
    case VC => !v
    case HI => c && !z
    case LS => !c || z
    case GE => n == v
    case LT => n != v
    case GT => !z && n == v
    case LE => z || n != v
    case AL => true
  }

  function ReadBytes(mem: Memory, addr: u32, n: nat): (r: Option<seq<byte>>)
    ensures r.Some? ==> |r.value| == n
    decreases n
  {
    if n == 0 then Some([])
    else
      var rest := ReadBytes(mem, WrappingAdd(addr, 1), n - 1);
      if mem(addr).None? || rest.None? then None else Some([mem(addr).value] + rest.value)
  }

  /** MemReader::read_u32. */
  function ReadU32(mem: Memory, addr: u32): Option<u32> {
    var bytes := ReadBytes(mem, addr, 4);
    if bytes.None? then None
    else
      FromLeBound(bytes.value);
      assert Span(4) == TWO_TO_THE_32;
      Some(FromLe(bytes.value))
  }

  function ValueOf(operand: Operand, regs: RegContext): Option<u32>
  {
    match operand
    case Reg(n) => Some(RegValue(regs, n))
    case Imm12(value) => Some(value % TWO_TO_THE_32)
    case Imm32(word) => Some(word)
    case _ => None
  }

  /** first << shift; a shift of 32 or more leaves nothing. */
  function Lsl(x: u32, shift: nat): u32 {
    if shift == 0 then x else if shift <= 31 then Word(ShiftLeft(Bits(x), shift)) else 0
  }

  function Lsr(x: u32, shift: nat): u32 {
    if shift == 0 then x else if shift <= 31 then Word(ShiftRight(Bits(x), shift, false)) else 0
  }

  /** The shift of a signed number copies its sign. */
  function Asr(x: u32, shift: nat): u32 {
    if shift == 0 then x
    else if shift <= 31 then Word(ShiftRight(Bits(x), shift, Bits(x)[31]))
    else if Masked(x, 0x8000_0000) then 0xFFFF_FFFF
    else 0
  }

  function Ror(x: u32, shift: nat): u32 {
    if shift % 32 == 0 then x else Word(RotateBits(Bits(x), shift % 32))
  }

  /** (x >> 1) | (carry << 31). */
  function Rrx(x: u32, carry: bool): u32 {
    Word(CombineBits(ORR, ShiftRight(Bits(x), 1, false), ShiftLeft(Bits(if carry then 1 else 0), 31)))
  }

  /** One bit of first & second, first ^ second, first | second or first & !second. */
  predicate BitOf(op: Opcode, a: bool, b: bool) {
    match op
    case AND => a && b
    case EOR => a != b
    case ORR => a || b
    case _ => a && !b
  }

  function CombineBits(op: Opcode, a: seq<bool>, b: seq<bool>): (r: seq<bool>)
    requires |a| == |b|
    ensures |r| == |a| && forall j :: 0 <= j < |r| ==> r[j] == BitOf(op, a[j], b[j])
    decreases |a|
  {
    if a == [] then [] else [BitOf(op, a[0], b[0])] + CombineBits(op, a[1..], b[1..])
  }

  function Bitwise(op: Opcode, first: u32, second: u32): u32 {
    Word(CombineBits(op, Bits(first), Bits(second)))
  }

  /** !x. */
  function Inverted(x: u32): u32 {
    Word(CombineBits(BIC, Fill(true, 32), Bits(x)))
  }

  /** The arithmetic and shift opcodes with two operands, and the carry flag. */
  function Alu2(op: Opcode, first: u32, second: u32, c: bool): Option<u32> {
    var carry := if c then 1 else 0;
    var shift := second % 0x100;
    match op
    case ADD => Some(WrappingAdd(first, second))
    case ADC => Some(WrappingAdd(WrappingAdd(first, second), carry))
    case SUB => Some(WrappingSub(first, second))
    case RSB => Some(WrappingSub(second, first))
    case SBC => Some(WrappingSub(WrappingSub(first, second), 1 - carry))
    case RSC => Some(WrappingSub(WrappingSub(second, first), 1 - carry))
    case AND => Some(Bitwise(op, first, second))
    case EOR => Some(Bitwise(op, first, second))
    case ORR => Some(Bitwise(op, first, second))
    case BIC => Some(Bitwise(op, first, second))
    case LSL => Some(Lsl(first, shift))
    case LSR => Some(Lsr(first, shift))
    case ASR => Some(Asr(first, shift))
    case ROR => Some(Ror(first, shift))
    case _ => None
  }

  function EvalAlu(insn: Insn, regs: RegContext): Option<u32>
  {
    var first := ValueOf(insn.op1, regs);
    var carry := CondFlags(regs).c;
    if first.None? then None
    else
      match insn.opcode
      case MOV => first
      case ADR => first
      case MVN => Some(Inverted(first.value))
      case RRX => Some(Rrx(first.value, carry))
      case _ =>
        var second := ValueOf(insn.op2, regs);
        if second.None? then None else Alu2(insn.opcode, first.value, second.value, carry)
  }

  predicate IsAlu(op: Opcode) {
    op in {AND, EOR, SUB, RSB, ADD, ADC, SBC, RSC, ORR, MOV, BIC, MVN, LSL, LSR, ASR, RRX, ROR, ADR}
  }

  /** BX, LDR and LDM: bit 0 of the value selects the instruction set. */
  function Interwork(value: u32): NextPc {
    Next(Target(value - value % 2, value % 2 == 1))
  }

  function EffectiveAddress(operand: Operand, regs: RegContext): Option<u32>
  {
    match operand
    case RegDeref(n) => Some(RegValue(regs, n))
    case RegDerefPreindexOffset(n, offset, add) =>
      Some(if add then WrappingAdd(RegValue(regs, n), offset) else WrappingSub(RegValue(regs, n), offset))
    case RegDerefPostindexOffset(n) => Some(RegValue(regs, n))
    case _ => None
  }

  function Load(mem: Memory, addr: u32): NextPc {
    var target := ReadU32(mem, addr);
    if target.None? then MemoryRead else Interwork(target.value)
  }

  /** The closed-form address of the PC's slot in a load-multiple. */
  function PcAddress(op: Opcode, base: u32, list: nat): Option<u32> {
    PcSlot(op, base, BitCount(list % 0x8000), BitCount(list))
  }

  function PcSlot(op: Opcode, base: u32, beforePc: nat, totalRegs: nat): Option<u32> {
    match op
    case POP => Some(WrappingAdd(base, beforePc * 4))
    case LDM(true, false) => Some(WrappingAdd(base, beforePc * 4))
    case LDM(true, true) => Some(WrappingAdd(base, (beforePc + 1) * 4))
    case LDM(false, false) => Some(WrappingSub(base, (totalRegs - 1 - beforePc) * 4))
    case LDM(false, true) => Some(WrappingSub(base, (totalRegs - beforePc) * 4))
    case _ => None
  }

  /** The base register and the register list. */
  function LoadOperands(insn: Insn): Option<(RegNo, nat)> {
    match (insn.op0, insn.op1)
    case (Reg(b), RegList(l)) => Some((b, l))
    case (RegWBack(b), RegList(l)) => Some((b, l))
    case (_, RegList(l)) => if insn.opcode == POP then Some((13, l)) else None
    case _ => None
  }

  function LoadMultiple(insn: Insn, fallthrough: Target, regs: RegContext, mem: Memory): NextPc {
    match LoadOperands(insn)
    case None => Unreachable
    case Some((b, list)) =>
      if !Bit(list, 15) then Next(fallthrough)
      else
        var addr := PcAddress(insn.opcode, RegValue(regs, b), list);
        if addr.None? then Unreachable else Load(mem, addr.value)
  }

  function EntryAddress(op: Opcode, base: u32, index: u32): u32 {
    if op == TBB then WrappingAdd(base, index) else WrappingAdd(base, index * 4 % TWO_TO_THE_32)
  }

  function TableOperands(insn: Insn): Option<(RegNo, RegNo)> {
    match (insn.op0, insn.op1)
    case (Reg(b), Reg(i)) => Some((b, i))
    case (RegDerefPreindexReg(b, i), Nothing) => Some((b, i))
    case _ => None
  }

  function TableBranch(insn: Insn, regs: RegContext, mem: Memory): NextPc {
    var operands := TableOperands(insn);
    if operands.None? then Unreachable
    else
      var b, i := RegValue(regs, operands.value.0), RegValue(regs, operands.value.1);
      var bytes := ReadBytes(mem, EntryAddress(insn.opcode, b, i), if insn.opcode == TBB then 1 else 2);
      if bytes.None? then MemoryRead
      else Next(Target(WrappingAdd(regs.pc, FromLe(bytes.value) * 2), insn.thumb))
  }

  /** next_pc for an instruction at `addr` that has been decoded. */
  function Execute(insn: Insn, addr: u32, regs: RegContext, mem: Memory): NextPc {
    var fallthrough := Target(WrappingAdd(addr, if insn.thumb && !insn.wide then 2 else 4), insn.thumb);
    if !EvalCond(insn.condition, regs) then Next(fallthrough)
    else if IsAlu(insn.opcode) then AluPc(insn, fallthrough, regs)
    else
      match insn.opcode
      case B => OffsetBranch(insn, regs)
      case BL => OffsetBranch(insn, regs)
      case BX => RegBranch(insn, regs)
      case BXJ => RegBranch(insn, regs)
      case BLX => LinkExchange(insn, regs)
      case CBZ => CompareBranch(insn, fallthrough, regs)
      case CBNZ => CompareBranch(insn, fallthrough, regs)
      case LDR => LoadPc(insn, fallthrough, regs, mem)
      case LDRT => LoadPc(insn, fallthrough, regs, mem)
      case LDM(_, _) => LoadMultiple(insn, fallthrough, regs, mem)
      case POP => LoadMultiple(insn, fallthrough, regs, mem)
      case TBB => TableBranch(insn, regs, mem)
      case TBH => TableBranch(insn, regs, mem)
      case _ => Next(fallthrough)
  }

  function AluPc(insn: Insn, fallthrough: Target, regs: RegContext): NextPc {
    if insn.op0 != Reg(15) then Next(fallthrough)
    else
      var target := EvalAlu(insn, regs);
      if target.None? then Unreachable else Next(Target(target.value - target.value % 4, insn.thumb))
  }

  function RegBranch(insn: Insn, regs: RegContext): NextPc {
    if insn.op0.Reg? then Interwork(RegValue(regs, insn.op0.n)) else Unreachable
  }

  /** B and BL. */
  function OffsetBranch(insn: Insn, regs: RegContext): NextPc {
    match insn.op0
    case BranchOffset(offset) => Next(Target(WrappingAdd(regs.pc, (offset - 2) * 4), false))
    case BranchThumbOffset(offset) => Next(Target(ThumbBranchTarget(insn.condition, offset, regs), true))
    case _ => Unreachable
  }

  function ThumbBranchTarget(cond: ConditionCode, offset: int, regs: RegContext): u32 {
    WrappingAdd(if cond == AL then WrappingAdd(regs.pc, 4) else WrappingSub(regs.pc, 4), offset * 2)
  }

  /** BLX: an offset changes the instruction set. */
  function LinkExchange(insn: Insn, regs: RegContext): NextPc {
    match insn.op0
    case BranchOffset(offset) => Next(Target(WrappingAdd(regs.pc, offset * 4), true))
    case BranchThumbOffset(offset) => Next(Target(WrappingAdd(regs.pc, offset * 2), false))
    case _ => RegBranch(insn, regs)
  }

  /** CBZ and CBNZ. */
  function CompareBranch(insn: Insn, fallthrough: Target, regs: RegContext): NextPc {
    if !insn.op0.Reg? || !insn.op1.Imm32? then Unreachable
    else if (RegValue(regs, insn.op0.n) == 0) == (insn.opcode == CBZ) then Interwork(insn.op1.word)
    else Next(fallthrough)
  }

  function LoadPc(insn: Insn, fallthrough: Target, regs: RegContext, mem: Memory): NextPc {
    if insn.op0 != Reg(15) then Next(fallthrough)
    else
      var addr := EffectiveAddress(insn.op1, regs);
      if addr.None? then Unreachable else Load(mem, addr.value)
  }

  /** `regs.pc` is read as the manual has it: the instruction's address plus 8, or plus 4 in Thumb state. */
  function InsnAddress(regs: RegContext): u32 {
    WrappingSub(regs.pc, if Thumb(regs) then 4 else 8)
  }

  function NextPcOf(regs: RegContext, mem: Memory, decode: Decoder): NextPc {
    var bytes := ReadBytes(mem, InsnAddress(regs), 4);
    if bytes.None? then MemoryRead
    else
      var insn := decode(bytes.value, Thumb(regs));
      if insn.None? then DecodeError else Execute(insn.value, InsnAddress(regs), regs, mem)
  }

  /** The instruction next_pc finds. */
  predicate Fetches(regs: RegContext, mem: Memory, decode: Decoder, insn: Insn) {
    var bytes := ReadBytes(mem, InsnAddress(regs), 4);
    bytes.Some? && decode(bytes.value, Thumb(regs)) == Some(insn)
  }
}
