/** next_pc from the CPSR and the operands up, against the manual: the instruction set it decodes in, every
    condition code on every setting of the flags, and every arithmetic instruction on its own two operands
    (arm-next-pc/src/lib.rs; ARM DDI 0406C). */
module ArmEval {
  import opened Words
  import opened ArmManual
  import opened ArmNextPc
  import opened WordBits
  import opened ArmProofs
  import opened ArmAlu
  import R = Armv7Regs

  // ---- The CPSR

  /** Bit 5 of the CPSR, and nothing else in it, says which instruction set the thread is in. */
  lemma ThumbIsBit5(regs: RegContext, above: nat, t: bool, below: nat)
    requires below < 0x20 && regs.cpsr == above * 0x40 + (if t then 0x20 else 0) + below
    ensures Thumb(regs) == t == Bit(regs.cpsr, 5)
  {
    WordSize();
    var high := above * 2 + if t then 1 else 0;
    DivMod(regs.cpsr, 0x20, high, below);
  }

  lemma ThumbIsBit(regs: RegContext)
    ensures Thumb(regs) == Bit(regs.cpsr, 5)
  {
    WordSize();
  }

  /** The instruction is fetched 4 bytes before the PC when bit 5 is set and 8 when it is clear, and decoded in
      that state. */
  lemma FetchedByBit5(regs: RegContext, mem: Memory, decode: Decoder, insn: Insn)
    ensures InsnAddress(regs) == (regs.pc - if Bit(regs.cpsr, 5) then 4 else 8) % TWO_TO_THE_32
    ensures Fetches(regs, mem, decode, insn)
            <==> var bytes := ReadBytes(mem, (regs.pc - if Bit(regs.cpsr, 5) then 4 else 8) % TWO_TO_THE_32, 4);
                 bytes.Some? && decode(bytes.value, Bit(regs.cpsr, 5)) == Some(insn)
  {
    ThumbIsBit(regs);
  }

  /** The flags as bits of the CPSR. */
  function FlagBits(cpsr: u32): Flags {
    Flags(Bit(cpsr, 31), Bit(cpsr, 30), Bit(cpsr, 29), Bit(cpsr, 28))
  }

  lemma CondFlagsAreBits(regs: RegContext)
    ensures CondFlags(regs) == FlagBits(regs.cpsr)
  {
    WordSize();
  }

  /** The condition field. */
  function Encoding(cond: ConditionCode): (code: nat)
    ensures code < 15
  {
    match cond
    case EQ => 0
    case NE => 1
    case HS => 2
    case LO => 3
    case MI => 4
    case PL => 5
    case VS => 6
    case VC => 7
    case HI => 8
    case LS => 9
    case GE => 10
    case LT => 11
    case GT => 12
    case LE => 13
    case AL => 14
  }

  /** On every setting of the flags, also those that no comparison leaves, a condition code decides what the
      manual says. */
  lemma EvalCondIsConditionPassed(cond: ConditionCode, regs: RegContext)
    ensures EvalCond(cond, regs) <==> ConditionPassed(Encoding(cond), FlagBits(regs.cpsr))
  {
    CondFlagsAreBits(regs);
  }

  // ---- Operands

  /** arm_reg_context: the registers of the debugger's register file. */
  function ContextOf(v: R.RegFile): RegContext
    requires R.Shaped(v)
  {
    RegContext(v.r, v.sp, v.lr, v.pc, v.cpsr)
  }

  /** Register n of an instruction is register n of the packet, and the CPSR is number 16. */
  lemma RegistersByNumber(v: R.RegFile, n: RegNo)
    requires R.Shaped(v)
    ensures RegValue(ContextOf(v), n) == R.Value(v, n) && ContextOf(v).cpsr == R.Value(v, 16)
  {
  }

  /** A register operand is worth the register, an immediate itself; nothing else has a value. */
  lemma OperandIsWorth(operand: Operand, v: R.RegFile)
    requires R.Shaped(v)
    ensures operand.Reg? ==> ValueOf(operand, ContextOf(v)) == Some(R.Value(v, operand.n))
    ensures operand.Imm32? ==> ValueOf(operand, ContextOf(v)) == Some(operand.word)
    ensures operand.Imm12? && operand.value < 0x1000 ==> ValueOf(operand, ContextOf(v)) == Some(operand.value)
    ensures HasValue(operand) <==> ValueOf(operand, ContextOf(v)).Some?
  {
    if operand.Reg? {
      RegistersByNumber(v, operand.n);
    }
    if operand.Imm12? && operand.value < 0x1000 {
      WrapOf(operand.value);
    }
  }

  // ---- Arithmetic

  predicate OneOperand(op: Opcode) {
    op in {MOV, ADR, MVN, RRX}
  }

  /** What the manual makes of the operands x and y and the carry. */
  predicate Meets(op: Opcode, x: u32, y: u32, c: bool, r: u32) {
    var shift := y % 0x100;
    match op
    case MOV => r == x
    case ADR => r == x
    case MVN => r == Not(x)
    case RRX => r == RotateOnce(x - x % 2 + if c then 1 else 0)
    case ADD => r == AddWithCarry(x, y, false).result
    case ADC => r == AddWithCarry(x, y, c).result
    case SUB => r == AddWithCarry(x, Not(y), true).result
    case SBC => r == AddWithCarry(x, Not(y), c).result
    case RSB => r == AddWithCarry(Not(x), y, true).result
    case RSC => r == AddWithCarry(Not(x), y, c).result
    case LSL => r == x * Pow2(shift) % TWO_TO_THE_32
    case LSR => r == x / Pow2(shift)
    case ASR => r == SInt(x) / Pow2(shift) % TWO_TO_THE_32
    case ROR => r == Rotate(x, shift)
    case AND => forall j: nat :: j < 32 ==> Bit(r, j) == (Bit(x, j) && Bit(y, j))
    case EOR => forall j: nat :: j < 32 ==> Bit(r, j) == (Bit(x, j) != Bit(y, j))
    case ORR => forall j: nat :: j < 32 ==> Bit(r, j) == (Bit(x, j) || Bit(y, j))
    case BIC => forall j: nat :: j < 32 ==> Bit(r, j) == (Bit(x, j) && !Bit(y, j))
    case _ => false
  }

  lemma SumsMeet(op: Opcode, x: u32, y: u32, c: bool)
    requires op in {ADD, ADC, SUB, SBC, RSB, RSC}
    ensures Alu2(op, x, y, c).Some? && Meets(op, x, y, c, Alu2(op, x, y, c).value)
  {
    AdditionIsAddWithCarry(x, y, c);
    SubtractionIsAddWithCarry(x, y, c);
  }

  lemma ShiftsMeet(op: Opcode, x: u32, y: u32, c: bool)
    requires op in {LSL, LSR, ASR, ROR}
    ensures Alu2(op, x, y, c).Some? && Meets(op, x, y, c, Alu2(op, x, y, c).value)
  {
    LslScales(x, y, c);
    LsrScales(x, y, c);
    AsrScales(x, y, c);
    RotationIterates(x, y, c);
  }

  lemma BitsMeet(op: Opcode, x: u32, y: u32, c: bool)
    requires op in {AND, EOR, ORR, BIC}
    ensures Alu2(op, x, y, c).Some? && Meets(op, x, y, c, Alu2(op, x, y, c).value)
  {
    assert Alu2(op, x, y, c).Some?;
    forall j: nat | j < 32 ensures Bit(Alu2(op, x, y, c).value, j) == BitOf(op, Bit(x, j), Bit(y, j)) {
      BitwiseActsBitByBit(op, x, y, c, j);
    }
  }

  lemma TwoOperandsMeet(op: Opcode, x: u32, y: u32, c: bool)
    requires IsAlu(op) && !OneOperand(op)
    ensures Alu2(op, x, y, c).Some? && Meets(op, x, y, c, Alu2(op, x, y, c).value)
  {
    if op in {ADD, ADC, SUB, SBC, RSB, RSC} {
      SumsMeet(op, x, y, c);
    } else if op in {LSL, LSR, ASR, ROR} {
      ShiftsMeet(op, x, y, c);
    } else {
      BitsMeet(op, x, y, c);
    }
  }

  lemma EvaluatesTwo(insn: Insn, regs: RegContext, x: u32, y: u32)
    requires IsAlu(insn.opcode) && !OneOperand(insn.opcode)
    requires ValueOf(insn.op1, regs) == Some(x) && ValueOf(insn.op2, regs) == Some(y)
    ensures EvalAlu(insn, regs) == Alu2(insn.opcode, x, y, CondFlags(regs).c)
  {
  }

  lemma OneOperandMeets(insn: Insn, regs: RegContext, x: u32, y: u32)
    requires OneOperand(insn.opcode) && ValueOf(insn.op1, regs) == Some(x)
    ensures EvalAlu(insn, regs).Some? && Meets(insn.opcode, x, y, CondFlags(regs).c, EvalAlu(insn, regs).value)
  {
    if insn.opcode == MVN {
      MvnIsNot(insn, regs);
    } else if insn.opcode == RRX {
      RrxRotatesThroughCarry(insn, regs);
    } else {
      MoveMeets(insn, regs, x);
    }
  }

  lemma MoveMeets(insn: Insn, regs: RegContext, x: u32)
    requires insn.opcode in {MOV, ADR} && ValueOf(insn.op1, regs) == Some(x)
    ensures EvalAlu(insn, regs) == Some(x)
  {
  }

  /** Every arithmetic instruction computes what the manual says of its own operands and bit 29 of the CPSR. */
  lemma EvalAluMeets(insn: Insn, regs: RegContext, x: u32, y: u32)
    requires IsAlu(insn.opcode) && ValueOf(insn.op1, regs) == Some(x)
    requires OneOperand(insn.opcode) || ValueOf(insn.op2, regs) == Some(y)
    ensures EvalAlu(insn, regs).Some?
    ensures Meets(insn.opcode, x, y, Bit(regs.cpsr, 29), EvalAlu(insn, regs).value)
  {
    CondFlagsAreBits(regs);
    if OneOperand(insn.opcode) {
      OneOperandMeets(insn, regs, x, y);
    } else {
      EvaluatesTwo(insn, regs, x, y);
      TwoOperandsMeet(insn.opcode, x, y, CondFlags(regs).c);
    }
  }

  function TwoBitsCleared(x: u32): u32 {
    x - x % 4
  }

  lemma FetchedExecutes(insn: Insn, regs: RegContext, mem: Memory, decode: Decoder)
    requires Fetches(regs, mem, decode, insn)
    ensures NextPcOf(regs, mem, decode) == Execute(insn, InsnAddress(regs), regs, mem)
  {
  }

  /** So next_pc on such an instruction with the PC as its destination goes to that result, its two lowest bits
      cleared; and where the manual goes when they are clear. */
  lemma AluPcGoesToResult(insn: Insn, regs: RegContext, mem: Memory, decode: Decoder, result: u32)
    requires Fetches(regs, mem, decode, insn) && EvalCond(insn.condition, regs)
    requires IsAlu(insn.opcode) && insn.op0 == Reg(15) && EvalAlu(insn, regs) == Some(result)
    ensures NextPcOf(regs, mem, decode) == Next(Target(TwoBitsCleared(result), insn.thumb))
    ensures result % 4 == 0 ==> ALUWritePC(result, insn.thumb) == Some(Target(result, insn.thumb))
  {
    FetchedExecutes(insn, regs, mem, decode);
    AluExecutes(insn, InsnAddress(regs), regs, mem, result);
    if result % 4 == 0 {
      ZeroBits(result);
    }
  }

  /** The manual's result for x, y and bit 29 of the CPSR, without its two lowest bits. */
  ghost predicate IsResult(insn: Insn, cpsr: u32, x: u32, y: u32, next: NextPc) {
    exists r: u32 :: Meets(insn.opcode, x, y, Bit(cpsr, 29), r) && next == Next(Target(TwoBitsCleared(r), insn.thumb))
  }

  /** Together: what the manual makes of the operands decides the target. */
  lemma AluPcMeets(insn: Insn, regs: RegContext, mem: Memory, decode: Decoder, x: u32, y: u32)
    requires Fetches(regs, mem, decode, insn) && EvalCond(insn.condition, regs)
    requires IsAlu(insn.opcode) && insn.op0 == Reg(15) && ValueOf(insn.op1, regs) == Some(x)
    requires OneOperand(insn.opcode) || ValueOf(insn.op2, regs) == Some(y)
    ensures IsResult(insn, regs.cpsr, x, y, NextPcOf(regs, mem, decode))
  {
    EvalAluMeets(insn, regs, x, y);
    var r := EvalAlu(insn, regs).value;
    AluPcGoesToResult(insn, regs, mem, decode, r);
    assert Meets(insn.opcode, x, y, Bit(regs.cpsr, 29), r);
  }

  lemma AluExecutes(insn: Insn, at: u32, regs: RegContext, mem: Memory, result: u32)
    requires EvalCond(insn.condition, regs) && IsAlu(insn.opcode) && insn.op0 == Reg(15)
    requires EvalAlu(insn, regs) == Some(result)
    ensures Execute(insn, at, regs, mem) == Next(Target(TwoBitsCleared(result), insn.thumb))
  {
  }

  lemma ZeroBits(x: u32)
    requires x % 4 == 0
    ensures x % 2 == 0
  {
    DivMod(x, 2, 2 * (x / 4), 0);
  }

  // ---- Loads and branches

  /** The three addressing forms next_pc knows; what follows a post-indexed load's base does not matter. */
  lemma EffectiveAddressIsLoadAddress(operand: Operand, regs: RegContext, imm: nat, add: bool)
    ensures operand.RegDeref? ==>
              EffectiveAddress(operand, regs) == Some(LoadAddress(RegValue(regs, operand.n), 0, true, true))
    ensures operand.RegDerefPreindexOffset? ==>
              EffectiveAddress(operand, regs)
              == Some(LoadAddress(RegValue(regs, operand.n), operand.distance, operand.add, true))
    ensures operand.RegDerefPostindexOffset? ==>
              EffectiveAddress(operand, regs) == Some(LoadAddress(RegValue(regs, operand.n), imm, add, false))
  {
    if operand.RegDeref? {
      WrapOf(RegValue(regs, operand.n));
    }
  }

  /** POP without a base register loads from SP up, and LDM and POP with one from that register. */
  lemma LoadBase(insn: Insn, list: nat)
    requires insn.op1 == RegList(list)
    ensures insn.op0.Reg? || insn.op0.RegWBack? ==> LoadOperands(insn) == Some((insn.op0.n, list))
    ensures !insn.op0.Reg? && !insn.op0.RegWBack? && insn.opcode == POP ==> LoadOperands(insn) == Some((13, list))
    ensures !insn.op0.Reg? && !insn.op0.RegWBack? && insn.opcode != POP ==> LoadOperands(insn) == None
  {
  }

  /** The table of TBB and TBH starts at the first register, and the second one is the index into it. */
  lemma TableBase(insn: Insn, b: RegNo, i: RegNo)
    ensures insn.op0 == Reg(b) && insn.op1 == Reg(i) ==> TableOperands(insn) == Some((b, i))
    ensures insn.op0 == RegDerefPreindexReg(b, i) && insn.op1 == Nothing ==> TableOperands(insn) == Some((b, i))
    ensures TableOperands(insn).Some? <==>
              (insn.op0.Reg? && insn.op1.Reg?) || (insn.op0.RegDerefPreindexReg? && insn.op1.Nothing?)
  {
  }

  /** What the offsets of branches count, from the instruction's own address: words in ARM state, for B and BL from
      the instruction itself and for BLX from two words on; in Thumb state halfwords, from the instruction for a
      conditional branch, from four halfwords on for an unconditional one, and from two on for BLX. */
  lemma OffsetsCount(insn: Insn, at: u32, regs: RegContext, offset: int)
    requires regs.pc == PcRead(at, insn.thumb)
    requires insn.op0 == if insn.thumb then BranchThumbOffset(offset) else BranchOffset(offset)
    ensures !insn.thumb ==>
              OffsetBranch(insn, regs) == Next(Target((at + 4 * offset) % TWO_TO_THE_32, false))
              && LinkExchange(insn, regs) == Next(Target((at + 8 + 4 * offset) % TWO_TO_THE_32, true))
    ensures insn.thumb ==>
              OffsetBranch(insn, regs)
              == Next(Target((at + (if insn.condition == AL then 8 else 0) + 2 * offset) % TWO_TO_THE_32, true))
              && LinkExchange(insn, regs) == Next(Target((at + 4 + 2 * offset) % TWO_TO_THE_32, false))
  {
    if insn.thumb {
      ThumbOffsetsCount(insn, at, regs, offset);
    } else {
      WrapsOnce(at + 8, (offset - 2) * 4);
      WrapsOnce(at + 8, offset * 4);
    }
  }

  lemma ThumbOffsetsCount(insn: Insn, at: u32, regs: RegContext, offset: int)
    requires insn.thumb && regs.pc == (at + 4) % TWO_TO_THE_32 && insn.op0 == BranchThumbOffset(offset)
    ensures OffsetBranch(insn, regs)
            == Next(Target((at + (if insn.condition == AL then 8 else 0) + 2 * offset) % TWO_TO_THE_32, true))
    ensures LinkExchange(insn, regs) == Next(Target((at + 4 + 2 * offset) % TWO_TO_THE_32, false))
  {
    WrapsOnce(at + 4, 4);
    WrapsOnce(at + 4, -4);
    WrapsOnce(at + 8, offset * 2);
    WrapsOnce(at, offset * 2);
    WrapsOnce(at + 4, offset * 2);
    WrapOf(at);
  }
}
