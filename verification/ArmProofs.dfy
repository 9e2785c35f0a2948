/** next_pc against the manual: where a load-multiple finds its new PC, what the condition codes decide, and
    what the arithmetic and shift opcodes compute (arm-next-pc/src/lib.rs; ARM DDI 0406C). */
module ArmProofs {
  import opened Words
  import opened ArmManual
  import opened ArmNextPc
  import opened WordBits

  // ---- Fetching

  /** next_pc looks at the instruction itself when the PC is what that instruction reads. */
  lemma FetchesAtInstruction(at: u32, regs: RegContext)
    requires regs.pc == PcRead(at, Thumb(regs))
    ensures InsnAddress(regs) == at
  {
    WrapOf(at + 4);
    WrapOf(at + 8);
    WrapOf(regs.pc - 4);
    WrapOf(regs.pc - 8);
  }

  /** It fails in fetching exactly when a byte of the four at the instruction cannot be read, or they do not
      decode. */
  lemma FetchFailsExactly(at: u32, regs: RegContext, mem: Memory, decode: Decoder)
    requires regs.pc == PcRead(at, Thumb(regs))
    ensures MemU32(mem, at).None? ==> NextPcOf(regs, mem, decode) == MemoryRead
    ensures MemU32(mem, at).Some? ==>
              NextPcOf(regs, mem, decode) == DecodeError || exists insn :: Fetches(regs, mem, decode, insn)
  {
    FetchesAtInstruction(at, regs);
    ReadsLittleEndian(mem, at);
    var bytes := ReadBytes(mem, at, 4);
    if bytes.Some? && decode(bytes.value, Thumb(regs)).Some? {
      assert Fetches(regs, mem, decode, decode(bytes.value, Thumb(regs)).value);
    }
  }

  /** Instructions that may write the PC: by their destination, by their register list, or always. */
  predicate MayWritePc(insn: Insn) {
    match insn.opcode
    case OtherOpcode => false
    case LDM(_, _) => LoadOperands(insn).None? || Bit(LoadOperands(insn).value.1, 15)
    case POP => LoadOperands(insn).None? || Bit(LoadOperands(insn).value.1, 15)
    case B => true
    case BL => true
    case BX => true
    case BXJ => true
    case BLX => true
    case CBZ => true
    case CBNZ => true
    case TBB => true
    case TBH => true
    case _ => insn.op0 == Reg(15)
  }

  /** An instruction whose condition fails, or that does not write the PC, is passed over by its own length. */
  lemma FallsThrough(at: u32, insn: Insn, regs: RegContext, mem: Memory, decode: Decoder)
    requires regs.pc == PcRead(at, Thumb(regs))
    requires Fetches(regs, mem, decode, insn) && (!EvalCond(insn.condition, regs) || !MayWritePc(insn))
    ensures NextPcOf(regs, mem, decode)
            == Next(Target((at + InsnLength(insn.thumb, insn.wide)) % TWO_TO_THE_32, insn.thumb))
  {
    FetchesAtInstruction(at, regs);
    if EvalCond(insn.condition, regs) {
      PassedOver(insn, at, regs, mem);
    }
  }

  lemma PassedOver(insn: Insn, at: u32, regs: RegContext, mem: Memory)
    requires EvalCond(insn.condition, regs) && !MayWritePc(insn)
    ensures Execute(insn, at, regs, mem)
            == Next(Target((at + InsnLength(insn.thumb, insn.wide)) % TWO_TO_THE_32, insn.thumb))
  {
  }

  // ---- Operands next_pc knows

  /** Operands with a value. */
  predicate HasValue(operand: Operand) {
    operand.Reg? || operand.Imm12? || operand.Imm32?
  }

  predicate IsDeref(operand: Operand) {
    operand.RegDeref? || operand.RegDerefPreindexOffset? || operand.RegDerefPostindexOffset?
  }

  predicate IsOffset(operand: Operand) {
    operand.BranchOffset? || operand.BranchThumbOffset?
  }

  /** The operand shapes for which next_pc has an answer. */
  predicate Known(insn: Insn) {
    match insn.opcode
    case OtherOpcode => true
    case B => IsOffset(insn.op0)
    case BL => IsOffset(insn.op0)
    case BLX => IsOffset(insn.op0) || insn.op0.Reg?
    case BX => insn.op0.Reg?
    case BXJ => insn.op0.Reg?
    case CBZ => insn.op0.Reg? && insn.op1.Imm32?
    case CBNZ => insn.op0.Reg? && insn.op1.Imm32?
    case LDR => insn.op0 == Reg(15) ==> IsDeref(insn.op1)
    case LDRT => insn.op0 == Reg(15) ==> IsDeref(insn.op1)
    case LDM(_, _) => insn.op1.RegList? && (insn.op0.Reg? || insn.op0.RegWBack?)
    case POP => insn.op1.RegList?
    case TBB => TableShape(insn)
    case TBH => TableShape(insn)
    case _ =>
      insn.op0 == Reg(15) ==>
        HasValue(insn.op1) && (insn.opcode in {MOV, ADR, MVN, RRX} || HasValue(insn.op2))
  }

  predicate TableShape(insn: Insn) {
    (insn.op0.Reg? && insn.op1.Reg?) || (insn.op0.RegDerefPreindexReg? && insn.op1.Nothing?)
  }

  /** next_pc panics exactly on an instruction whose condition holds and whose operands it does not know. */
  lemma UnreachableExactly(insn: Insn, at: u32, regs: RegContext, mem: Memory)
    ensures Execute(insn, at, regs, mem).Unreachable? <==> EvalCond(insn.condition, regs) && !Known(insn)
  {
    if EvalCond(insn.condition, regs) {
      if IsAlu(insn.opcode) {
        AluUnreachable(insn, regs);
      } else {
        OthersUnreachable(insn, at, regs, mem);
      }
    }
  }

  lemma AluUnreachable(insn: Insn, regs: RegContext)
    requires IsAlu(insn.opcode)
    ensures insn.op0 == Reg(15) ==> (EvalAlu(insn, regs).None? <==> !Known(insn))
  {
  }

  lemma OthersUnreachable(insn: Insn, at: u32, regs: RegContext, mem: Memory)
    requires EvalCond(insn.condition, regs) && !IsAlu(insn.opcode)
    ensures Execute(insn, at, regs, mem).Unreachable? <==> !Known(insn)
  {
  }

  // ---- Load multiple

  /** The bits below n + 1 are the bits below n, and bit n. */
  lemma {:induction false} CountBelow(x: nat, n: nat)
    ensures BitCount(x % Pow2(n + 1)) == BitCount(x % Pow2(n)) + if Bit(x, n) then 1 else 0
    decreases n
  {
    if n == 0 {
      assert Pow2(1) == 2 && Pow2(0) == 1;
      assert x % 2 == 1 ==> BitCount(1) == 1 + BitCount(0);
    } else {
      CountBelow(x / 2, n - 1);
      HalfMod(x, Pow2(n));
      HalfMod(x, Pow2(n - 1));
      HalfDiv(x, Pow2(n - 1));
      CountHalf(x % Pow2(n + 1));
      CountHalf(x % Pow2(n));
    }
  }

  lemma CountHalf(x: nat)
    ensures BitCount(x) == x % 2 + BitCount(x / 2)
  {
  }

  /** How many of the first n registers are in the list. */
  function CountTo(list: nat, n: nat): nat {
    if n == 0 then 0 else CountTo(list, n - 1) + if Bit(list, n - 1) then 1 else 0
  }

  lemma {:induction false} CountToIs(list: nat, n: nat)
    ensures CountTo(list, n) == BitCount(list % Pow2(n))
    decreases n
  {
    if n == 0 {
      assert list % Pow2(0) == 0;
    } else {
      CountToIs(list, n - 1);
      CountBelow(list, n - 1);
    }
  }

  /** The loop has advanced by one word for each register it has passed. */
  lemma {:induction false} AddressAdvances(list: nat, n: nat, start: u32)
    ensures AddressOf(list, n, start) == WrappingAdd(start, CountTo(list, n) * 4)
    decreases n
  {
    if n == 0 {
      WrapOf(start);
    } else {
      AddressAdvances(list, n - 1, start);
      OneWordOn(start, CountTo(list, n - 1));
    }
  }

  lemma OneWordOn(start: u32, count: nat)
    ensures WrappingAdd(WrappingAdd(start, count * 4), 4) == WrappingAdd(start, (count + 1) * 4)
  {
    WrapsOnce(start + count * 4, 4);
  }

  function ModeOf(op: Opcode): (m: Option<Mode>) {
    match op
    case POP => Some(IncrementAfter)
    case LDM(true, false) => Some(IncrementAfter)
    case LDM(true, true) => Some(IncrementBefore)
    case LDM(false, false) => Some(DecrementAfter)
    case LDM(false, true) => Some(DecrementBefore)
    case _ => None
  }

  /** For every addressing mode, base and list, the closed form is the address at which the
      manual's register-by-register loop arrives at R15. */
  lemma PcAddressIsLoopAddress(op: Opcode, base: u32, list: nat)
    requires ModeOf(op).Some?
    ensures PcAddress(op, base, list) == Some(AddressOf(list, 15, StartAddress(ModeOf(op).value, base, list)))
  {
    CountBeforePc(list);
    LoopReaches(ModeOf(op).value, base, list, 15);
    ClosedForm(op, base, CountTo(list, 15), BitCount(list));
  }

  lemma LoopReaches(mode: Mode, base: u32, list: nat, n: nat)
    ensures AddressOf(list, n, StartAddress(mode, base, list))
            == WordsPast(mode, base, BitCount(list), CountTo(list, n))
  {
    AddressAdvances(list, n, StartAddress(mode, base, list));
    StartPlus(mode, base, list, CountTo(list, n));
  }

  lemma ClosedForm(op: Opcode, base: u32, before: nat, total: nat)
    requires ModeOf(op).Some?
    ensures PcSlot(op, base, before, total) == Some(WordsPast(ModeOf(op).value, base, total, before))
  {
  }

  lemma CountBeforePc(list: nat)
    ensures BitCount(list % 0x8000) == CountTo(list, 15)
  {
    WordSize();
    CountToIs(list, 15);
  }

  /** n words past the start of each mode, for a list of `total` registers. */
  function WordsPast(mode: Mode, base: u32, total: nat, n: nat): u32 {
    match mode
    case IncrementAfter => WrappingAdd(base, n * 4)
    case IncrementBefore => WrappingAdd(base, (n + 1) * 4)
    case DecrementAfter => WrappingSub(base, (total - 1 - n) * 4)
    case DecrementBefore => WrappingSub(base, (total - n) * 4)
  }

  lemma StartPlus(mode: Mode, base: u32, list: nat, n: nat)
    ensures WrappingAdd(StartAddress(mode, base, list), n * 4) == WordsPast(mode, base, BitCount(list), n)
  {
    match mode {
      case IncrementAfter =>
      case IncrementBefore => OneWordIn(base, n);
      case DecrementAfter => WordsAfter(base, BitCount(list), n);
      case DecrementBefore => WordsBefore(base, BitCount(list), n);
    }
  }

  lemma OneWordIn(base: u32, n: nat)
    ensures WrappingAdd((base + 4) % TWO_TO_THE_32, n * 4) == WrappingAdd(base, (n + 1) * 4)
  {
    WrapsOnce(base + 4, n * 4);
  }

  lemma WordsAfter(base: u32, total: nat, n: nat)
    ensures WrappingAdd((base - 4 * total + 4) % TWO_TO_THE_32, n * 4) == WrappingSub(base, (total - 1 - n) * 4)
  {
    WrapsOnce(base - 4 * total + 4, n * 4);
  }

  lemma WordsBefore(base: u32, total: nat, n: nat)
    ensures WrappingAdd((base - 4 * total) % TWO_TO_THE_32, n * 4) == WrappingSub(base, (total - n) * 4)
  {
    WrapsOnce(base - 4 * total, n * 4);
  }

  lemma {:induction false} LoopLoadsPc(
    mem: Memory, list: nat, n: nat, start: u32, regs: map<nat, u32>, loaded: map<nat, u32>)
    requires n <= 15 && Bit(list, 15)
    requires LoadFrom(mem, list, n, AddressOf(list, n, start), regs) == Some(loaded)
    ensures 15 in loaded && MemU32(mem, AddressOf(list, 15, start)) == Some(loaded[15])
    decreases 15 - n
  {
    var addr := AddressOf(list, n, start);
    if n < 15 {
      var next := if Bit(list, n) then regs[n := MemU32(mem, addr).value] else regs;
      LoopLoadsPc(mem, list, n + 1, start, next, loaded);
    }
  }

  lemma ReadsLittleEndian(mem: Memory, addr: u32)
    ensures ReadU32(mem, addr) == MemU32(mem, addr)
  {
    var a1, a2, a3 := WrappingAdd(addr, 1), WrappingAdd(addr, 2), WrappingAdd(addr, 3);
    assert WrappingAdd(a1, 1) == a2 && WrappingAdd(a2, 1) == a3;
    assert ReadBytes(mem, WrappingAdd(a3, 1), 0) == Some([]);
    var r3, r2, r1 := ReadBytes(mem, a3, 1), ReadBytes(mem, a2, 2), ReadBytes(mem, a1, 3);
    var r0 := ReadBytes(mem, addr, 4);
    if r0.Some? {
      FourBytes(r0.value);
    }
  }

  /** Whenever the manual's loop can load every register of the list, next_pc goes where the loaded R15 leads
      by BXWritePC, whatever the addressing mode. */
  lemma LoadMultipleGoesWhereR15Leads(
    insn: Insn, regs: RegContext, mem: Memory, decode: Decoder, base: RegNo, list: nat, loaded: map<nat, u32>)
    requires Fetches(regs, mem, decode, insn) && EvalCond(insn.condition, regs)
    requires ModeOf(insn.opcode).Some? && LoadOperands(insn) == Some((base, list))
    requires Bit(list, 15)
    requires LoadFrom(mem, list, 0, StartAddress(ModeOf(insn.opcode).value, RegValue(regs, base), list), map[])
             == Some(loaded)
    ensures 15 in loaded
    ensures BXWritePC(loaded[15]).Some? ==> NextPcOf(regs, mem, decode) == Next(BXWritePC(loaded[15]).value)
  {
    var start := StartAddress(ModeOf(insn.opcode).value, RegValue(regs, base), list);
    LoopLoadsPc(mem, list, 0, start, map[], loaded);
    PcAddressIsLoopAddress(insn.opcode, RegValue(regs, base), list);
    ReadsLittleEndian(mem, AddressOf(list, 15, start));
    LoadMultipleTaken(insn, regs, mem, decode, base, list, AddressOf(list, 15, start));
  }

  lemma LoadMultipleTaken(
    insn: Insn, regs: RegContext, mem: Memory, decode: Decoder, base: RegNo, list: nat, from: u32)
    requires Fetches(regs, mem, decode, insn) && EvalCond(insn.condition, regs)
    requires LoadOperands(insn) == Some((base, list)) && Bit(list, 15)
    requires ModeOf(insn.opcode).Some? && PcAddress(insn.opcode, RegValue(regs, base), list) == Some(from)
    ensures NextPcOf(regs, mem, decode) == Load(mem, from)
  {
  }

  // ---- Loads and branches to a register

  /** A load into the PC goes where the loaded word leads by BXWritePC. */
  lemma LoadedPcIsBXWritePC(insn: Insn, regs: RegContext, mem: Memory, decode: Decoder, from: u32)
    requires Fetches(regs, mem, decode, insn) && EvalCond(insn.condition, regs)
    requires insn.opcode in {LDR, LDRT} && insn.op0 == Reg(15) && EffectiveAddress(insn.op1, regs) == Some(from)
    ensures MemU32(mem, from).None? ==> NextPcOf(regs, mem, decode) == MemoryRead
    ensures MemU32(mem, from).Some? && BXWritePC(MemU32(mem, from).value).Some? ==>
              NextPcOf(regs, mem, decode) == Next(BXWritePC(MemU32(mem, from).value).value)
  {
    ReadsLittleEndian(mem, from);
  }

  lemma RegisterBranchIsBXWritePC(insn: Insn, regs: RegContext, mem: Memory, decode: Decoder)
    requires Fetches(regs, mem, decode, insn) && EvalCond(insn.condition, regs)
    requires insn.opcode in {BX, BXJ, BLX} && insn.op0.Reg? && BXWritePC(RegValue(regs, insn.op0.n)).Some?
    ensures NextPcOf(regs, mem, decode) == Next(BXWritePC(RegValue(regs, insn.op0.n)).value)
  {
  }

  /** CBZ and CBNZ branch exactly when the register is, or is not, zero, and pass on otherwise. Taken, they stay
      in Thumb state exactly when their immediate is odd. */
  lemma CompareBranchExactly(at: u32, insn: Insn, regs: RegContext, mem: Memory, decode: Decoder)
    requires regs.pc == PcRead(at, Thumb(regs)) && Fetches(regs, mem, decode, insn)
    requires EvalCond(insn.condition, regs) && insn.opcode in {CBZ, CBNZ} && insn.op0.Reg? && insn.op1.Imm32?
    ensures var zero, imm := RegValue(regs, insn.op0.n) == 0, insn.op1.word;
            NextPcOf(regs, mem, decode)
            == Next(if zero == (insn.opcode == CBZ) then Target(imm - imm % 2, imm % 2 == 1)
                    else Target((at + InsnLength(insn.thumb, insn.wide)) % TWO_TO_THE_32, insn.thumb))
  {
    FetchesAtInstruction(at, regs);
  }

  /** The entry read is the one the manual names: always for TBB, and for TBH exactly when doubling the index
      once more changes nothing. */
  lemma TableEntryExactly(op: Opcode, base: u32, index: u32)
    requires op == TBB || op == TBH
    ensures EntryAddress(op, base, index) == TableEntry(op == TBH, base, index)
            <==> op == TBB || index == 0 || index == 0x8000_0000
  {
    if op == TBH {
      WrapsOnce(index * 4, base);
      SameRemainder(base + index * 2, index * 2);
      assert index * 2 == TWO_TO_THE_32 <==> index == 0x8000_0000;
      WrapOf(index * 2);
    }
  }

  /** Adding d changes nothing modulo 2^32 exactly when d is a multiple of 2^32. */
  lemma SameRemainder(x: int, d: int)
    ensures (x + d) % TWO_TO_THE_32 == x % TWO_TO_THE_32 <==> d % TWO_TO_THE_32 == 0
  {
    var q, r := x / TWO_TO_THE_32, x % TWO_TO_THE_32;
    if d % TWO_TO_THE_32 == 0 {
      DivMod(x + d, TWO_TO_THE_32, q + d / TWO_TO_THE_32, r);
    } else if (x + d) % TWO_TO_THE_32 == r {
      DivMod(d, TWO_TO_THE_32, (x + d) / TWO_TO_THE_32 - q, 0);
    }
  }

  /** A table branch goes to the entry doubled, past the PC. */
  lemma TableBranchIsBranchWritePC(insn: Insn, regs: RegContext, mem: Memory, decode: Decoder, b: RegNo, i: RegNo)
    requires Fetches(regs, mem, decode, insn) && EvalCond(insn.condition, regs)
    requires insn.thumb && regs.pc % 2 == 0
    requires insn.opcode in {TBB, TBH} && TableOperands(insn) == Some((b, i))
    ensures var from := EntryAddress(insn.opcode, RegValue(regs, b), RegValue(regs, i));
            var entry := ReadBytes(mem, from, if insn.opcode == TBB then 1 else 2);
            NextPcOf(regs, mem, decode)
            == if entry.None? then MemoryRead
               else Next(BranchWritePC(WrappingAdd(regs.pc, FromLe(entry.value) * 2), true))
  {
    var from := EntryAddress(insn.opcode, RegValue(regs, b), RegValue(regs, i));
    var entry := ReadBytes(mem, from, if insn.opcode == TBB then 1 else 2);
    TableBranchTaken(insn, regs, mem, decode, b, i);
    if entry.Some? {
      BranchToEven(regs.pc, FromLe(entry.value));
    }
  }

  lemma TableBranchTaken(insn: Insn, regs: RegContext, mem: Memory, decode: Decoder, b: RegNo, i: RegNo)
    requires Fetches(regs, mem, decode, insn) && EvalCond(insn.condition, regs)
    requires insn.opcode in {TBB, TBH} && TableOperands(insn) == Some((b, i))
    ensures var from := EntryAddress(insn.opcode, RegValue(regs, b), RegValue(regs, i));
            var entry := ReadBytes(mem, from, if insn.opcode == TBB then 1 else 2);
            NextPcOf(regs, mem, decode)
            == if entry.None? then MemoryRead
               else Next(Target(WrappingAdd(regs.pc, FromLe(entry.value) * 2), insn.thumb))
  {
  }

  /** From an even PC the branch has no bit to clear. */
  lemma BranchToEven(pc: u32, n: nat)
    requires pc % 2 == 0
    ensures BranchWritePC(WrappingAdd(pc, n * 2), true) == Target(WrappingAdd(pc, n * 2), true)
  {
    var x := pc + 2 * n;
    var q, r := x / TWO_TO_THE_32, x % TWO_TO_THE_32;
    assert r == 2 * (pc / 2 + n - 0x8000_0000 * q);
  }

  // ---- Where an instruction leads

  /** A word that BX, LDR or LDM take to t. */
  predicate Selects(word: u32, t: Target) {
    t.addr % 2 == 0 && word == t.addr + if t.thumb then 1 else 0
  }

  function Following(insn: Insn, at: u32): Target {
    Target((at + InsnLength(insn.thumb, insn.wide)) % TWO_TO_THE_32, insn.thumb)
  }

  /** What must hold of registers and memory for the instruction at `at` to lead to t. */
  predicate LeadsTo(insn: Insn, at: u32, regs: RegContext, mem: Memory, t: Target) {
    if !EvalCond(insn.condition, regs) || !MayWritePc(insn) then t == Following(insn, at)
    else if IsBranch(insn.opcode) then BranchLeadsTo(insn, at, regs, t)
    else if IsAlu(insn.opcode) then AluLeadsTo(insn, regs, t)
    else if insn.opcode == TBB || insn.opcode == TBH then EntryLeadsTo(insn, regs, mem, t)
    else if insn.opcode == LDR || insn.opcode == LDRT then WordLeadsTo(mem, EffectiveAddress(insn.op1, regs), t)
    else WordLeadsTo(mem, SlotOfPc(insn, regs), t)
  }

  predicate IsBranch(op: Opcode) {
    op in {B, BL, BX, BXJ, BLX, CBZ, CBNZ}
  }

  predicate BranchLeadsTo(insn: Insn, at: u32, regs: RegContext, t: Target) {
    match insn.opcode
    case B => OffsetLeadsTo(insn, regs, t)
    case BL => OffsetLeadsTo(insn, regs, t)
    case CBZ => CompareLeadsTo(insn, at, regs, t)
    case CBNZ => CompareLeadsTo(insn, at, regs, t)
    case BLX => RegLeadsTo(insn, regs, t) || ExchangeLeadsTo(insn, regs, t)
    case _ => RegLeadsTo(insn, regs, t)
  }

  predicate RegLeadsTo(insn: Insn, regs: RegContext, t: Target) {
    insn.op0.Reg? && Selects(RegValue(regs, insn.op0.n), t)
  }

  predicate ExchangeLeadsTo(insn: Insn, regs: RegContext, t: Target) {
    || (insn.op0.BranchOffset? && t == Target((regs.pc + insn.op0.offset * 4) % TWO_TO_THE_32, true))
    || (insn.op0.BranchThumbOffset? && t == Target((regs.pc + insn.op0.offset * 2) % TWO_TO_THE_32, false))
  }

  predicate AluLeadsTo(insn: Insn, regs: RegContext, t: Target) {
    var result := EvalAlu(insn, regs);
    result.Some? && t == Target(result.value - result.value % 4, insn.thumb)
  }

  predicate OffsetLeadsTo(insn: Insn, regs: RegContext, t: Target) {
    || (insn.op0.BranchOffset? && t == Target((regs.pc + (insn.op0.offset - 2) * 4) % TWO_TO_THE_32, false))
    || (insn.op0.BranchThumbOffset? && t == Target(ThumbBranchTarget(insn.condition, insn.op0.offset, regs), true))
  }

  predicate CompareLeadsTo(insn: Insn, at: u32, regs: RegContext, t: Target) {
    && insn.op0.Reg? && insn.op1.Imm32?
    && if (RegValue(regs, insn.op0.n) == 0) == (insn.opcode == CBZ) then Selects(insn.op1.word, t)
       else t == Following(insn, at)
  }

  predicate WordLeadsTo(mem: Memory, from: Option<u32>, t: Target) {
    from.Some? && MemU32(mem, from.value).Some? && Selects(MemU32(mem, from.value).value, t)
  }

  /** Where the manual's loop finds the PC of a load-multiple. */
  function SlotOfPc(insn: Insn, regs: RegContext): Option<u32> {
    match LoadOperands(insn)
    case None => None
    case Some((b, list)) =>
      if ModeOf(insn.opcode).None? then None
      else Some(AddressOf(list, 15, StartAddress(ModeOf(insn.opcode).value, RegValue(regs, b), list)))
  }

  predicate EntryLeadsTo(insn: Insn, regs: RegContext, mem: Memory, t: Target) {
    TableOperands(insn).Some? &&
    var (b, i) := TableOperands(insn).value;
    var from := EntryAddress(insn.opcode, RegValue(regs, b), RegValue(regs, i));
    var entry := ReadBytes(mem, from, if insn.opcode == TBB then 1 else 2);
    entry.Some? && t == Target((regs.pc + FromLe(entry.value) * 2) % TWO_TO_THE_32, insn.thumb)
  }

  lemma InterworkSelects(word: u32, t: Target)
    ensures Interwork(word) == Next(t) <==> Selects(word, t)
  {
  }

  lemma LoadLeads(mem: Memory, from: u32, t: Target)
    ensures Load(mem, from) == Next(t) <==> WordLeadsTo(mem, Some(from), t)
  {
    ReadsLittleEndian(mem, from);
    if MemU32(mem, from).Some? {
      InterworkSelects(MemU32(mem, from).value, t);
    }
  }

  lemma MultipleLeads(insn: Insn, fallthrough: Target, regs: RegContext, mem: Memory, t: Target)
    requires MayWritePc(insn) && (insn.opcode.LDM? || insn.opcode.POP?)
    ensures LoadMultiple(insn, fallthrough, regs, mem) == Next(t) <==> WordLeadsTo(mem, SlotOfPc(insn, regs), t)
  {
    if LoadOperands(insn).Some? {
      var (b, list) := LoadOperands(insn).value;
      PcAddressIsLoopAddress(insn.opcode, RegValue(regs, b), list);
      LoadLeads(mem, PcAddress(insn.opcode, RegValue(regs, b), list).value, t);
    }
  }

  lemma LoadLeadsTo(insn: Insn, at: u32, regs: RegContext, mem: Memory, t: Target)
    requires EvalCond(insn.condition, regs) && insn.op0 == Reg(15) && insn.opcode in {LDR, LDRT}
    ensures Execute(insn, at, regs, mem) == Next(t) <==> LeadsTo(insn, at, regs, mem, t)
  {
    if EffectiveAddress(insn.op1, regs).Some? {
      LoadLeads(mem, EffectiveAddress(insn.op1, regs).value, t);
    }
  }

  lemma MultipleLeadsTo(insn: Insn, at: u32, regs: RegContext, mem: Memory, t: Target)
    requires EvalCond(insn.condition, regs) && MayWritePc(insn) && (insn.opcode.LDM? || insn.opcode.POP?)
    ensures Execute(insn, at, regs, mem) == Next(t) <==> LeadsTo(insn, at, regs, mem, t)
  {
    var fallthrough := Target(WrappingAdd(at, if insn.thumb && !insn.wide then 2 else 4), insn.thumb);
    MultipleLeads(insn, fallthrough, regs, mem, t);
  }

  lemma RegBranchLeads(insn: Insn, regs: RegContext, t: Target)
    ensures RegBranch(insn, regs) == Next(t) <==> RegLeadsTo(insn, regs, t)
  {
    if insn.op0.Reg? {
      InterworkSelects(RegValue(regs, insn.op0.n), t);
    }
  }

  lemma CompareLeads(insn: Insn, at: u32, regs: RegContext, t: Target)
    ensures CompareBranch(insn, Following(insn, at), regs) == Next(t) <==> CompareLeadsTo(insn, at, regs, t)
  {
    if insn.op1.Imm32? {
      InterworkSelects(insn.op1.word, t);
    }
  }

  lemma BranchesLead(insn: Insn, at: u32, regs: RegContext, mem: Memory, t: Target)
    requires EvalCond(insn.condition, regs) && IsBranch(insn.opcode)
    ensures Execute(insn, at, regs, mem) == Next(t) <==> BranchLeadsTo(insn, at, regs, t)
  {
    RegBranchLeads(insn, regs, t);
    CompareLeads(insn, at, regs, t);
  }

  /** next_pc leads to t exactly when registers and memory say so. */
  lemma LeadsToExactly(insn: Insn, at: u32, regs: RegContext, mem: Memory, t: Target)
    ensures Execute(insn, at, regs, mem) == Next(t) <==> LeadsTo(insn, at, regs, mem, t)
  {
    if !EvalCond(insn.condition, regs) || !MayWritePc(insn) {
      if EvalCond(insn.condition, regs) {
        PassedOver(insn, at, regs, mem);
      }
    } else if IsBranch(insn.opcode) {
      BranchesLead(insn, at, regs, mem, t);
    } else if insn.opcode.LDR? || insn.opcode.LDRT? {
      LoadLeadsTo(insn, at, regs, mem, t);
    } else if insn.opcode.LDM? || insn.opcode.POP? {
      MultipleLeadsTo(insn, at, regs, mem, t);
    } else if IsAlu(insn.opcode) {
      AluLeads(insn, at, regs, mem, t);
    } else {
      TableLeads(insn, at, regs, mem, t);
    }
  }

  lemma AluLeads(insn: Insn, at: u32, regs: RegContext, mem: Memory, t: Target)
    requires EvalCond(insn.condition, regs) && insn.op0 == Reg(15) && IsAlu(insn.opcode)
    ensures Execute(insn, at, regs, mem) == Next(t) <==> AluLeadsTo(insn, regs, t)
  {
  }

  lemma TableLeads(insn: Insn, at: u32, regs: RegContext, mem: Memory, t: Target)
    requires EvalCond(insn.condition, regs) && insn.opcode in {TBB, TBH}
    ensures Execute(insn, at, regs, mem) == Next(t) <==> EntryLeadsTo(insn, regs, mem, t)
  {
  }

  // ---- Conditions

  /** What each condition code says about the two numbers just compared. */
  predicate Ordered(cond: ConditionCode, a: u32, b: u32) {
    match cond
    case EQ => a == b
    case NE => a != b
    case HS => a >= b
    case LO => a < b
    case HI => a > b
    case LS => a <= b
    case GE => SInt(a) >= SInt(b)
    case LT => SInt(a) < SInt(b)
    case GT => SInt(a) > SInt(b)
    case LE => SInt(a) <= SInt(b)
    case MI => (SInt(a) - SInt(b)) % TWO_TO_THE_32 >= 0x8000_0000
    case PL => (SInt(a) - SInt(b)) % TWO_TO_THE_32 < 0x8000_0000
    case VS => !(-0x8000_0000 <= SInt(a) - SInt(b) < 0x8000_0000)
    case VC => -0x8000_0000 <= SInt(a) - SInt(b) < 0x8000_0000
    case AL => true
  }

  /** The flags of a comparison, in terms of the difference. */
  lemma CompareFlags(a: u32, b: u32)
    ensures var f := Compare(a, b);
            && (f.z <==> a == b)
            && (f.c <==> a >= b)
            && (f.n <==> (SInt(a) - SInt(b)) % TWO_TO_THE_32 >= 0x8000_0000)
            && (f.v <==> !(-0x8000_0000 <= SInt(a) - SInt(b) < 0x8000_0000))
  {
    WrapOf(a - b + TWO_TO_THE_32);
    WrapOf(SInt(a) - SInt(b));
  }

  lemma SignedOrder(a: u32, b: u32)
    ensures var f := Compare(a, b);
            (f.n == f.v <==> SInt(a) >= SInt(b))
  {
    CompareFlags(a, b);
    WrapOf(SInt(a) - SInt(b));
  }

  /** After a comparison every condition code decides the order it names, for all pairs of words. */
  lemma ConditionsDecideOrder(cond: ConditionCode, a: u32, b: u32, regs: RegContext)
    requires CondFlags(regs) == Compare(a, b)
    ensures EvalCond(cond, regs) <==> Ordered(cond, a, b)
  {
    CompareFlags(a, b);
    SignedOrder(a, b);
  }

  /** The flags are the top four bits of the CPSR, whatever the others are. */
  lemma FlagsAreTopBits(regs: RegContext, f: Flags, rest: nat)
    requires rest < 0x1000_0000
    requires regs.cpsr == (if f.n then 0x8000_0000 else 0) + (if f.z then 0x4000_0000 else 0)
                          + (if f.c then 0x2000_0000 else 0) + (if f.v then 0x1000_0000 else 0) + rest
    ensures CondFlags(regs) == f
  {
  }

  // ---- Writing the PC

  lemma WriteMask(result: u32, thumb: bool)
    requires ALUWritePC(result, thumb).Some?
    ensures ALUWritePC(result, thumb) == Some(Target(result - result % 4, thumb))
            <==> if thumb then result % 4 < 2 else result % 4 == 0
  {
    var q, m := result / 4, result % 4;
    DivMod(result, 2, 2 * q + m / 2, m % 2);
  }

  /** An arithmetic instruction that writes the PC goes where the manual sends it exactly when its result is a
      multiple of four in ARM state, or has bit 1 clear in Thumb state: the source clears two bits and never
      changes the instruction set. */
  lemma AluPcExactly(insn: Insn, regs: RegContext, mem: Memory, decode: Decoder, result: u32)
    requires Fetches(regs, mem, decode, insn) && EvalCond(insn.condition, regs)
    requires IsAlu(insn.opcode) && insn.op0 == Reg(15)
    requires EvalAlu(insn, regs) == Some(result) && ALUWritePC(result, insn.thumb).Some?
    ensures NextPcOf(regs, mem, decode) == Next(ALUWritePC(result, insn.thumb).value)
            <==> if insn.thumb then result % 4 < 2 else result % 4 == 0
  {
    WriteMask(result, insn.thumb);
  }
}
