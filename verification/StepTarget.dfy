/** Where resume sends a thread it steps: next_pc on the registers and the memory of the stopped process
    (vita-gdb/src/gdb/multi_thread.rs:309-329), and what the breakpoints patched into that memory do to it. */
module StepTarget {
  import opened Words
  import opened SlotTable
  import opened SwBreakpoints
  import opened SwOverlay
  import M = ArmManual
  import A = ArmNextPc
  import P = ArmProofs
  import V = ArmEval

  /** Resume goes on with a target, returns an error, or panics. */
  datatype Outcome = Goes(addr: u32, thumb: bool) | Fails | Panics

  function ByteAt(mem: Memory, a: u32): Option<byte> {
    if a in mem then Some(mem[a]) else None
  }

  /** The process memory as next_pc reads it. */
  function Readable(mem: Memory): M.Memory {
    (a: u32) => ByteAt(mem, a)
  }

  /** The registers as next_pc expects them: the source adds 4 or 8 to the PC. */
  function Advanced(regs: A.RegContext): A.RegContext {
    regs.(pc := A.WrappingAdd(regs.pc, if A.Thumb(regs) then 4 else 8))
  }

  /** `regs` are the stepped thread's registers, None when they cannot be read. The instruction is read once
      before next_pc, and that read is unwrapped. */
  function TargetOf(mem: Memory, regs: Option<A.RegContext>, decode: A.Decoder): Outcome
  {
    if regs.None? then Fails
    else if A.ReadBytes(Readable(mem), regs.value.pc, 4).None? then Panics
    else
      match A.NextPcOf(Advanced(regs.value), Readable(mem), decode)
      case Next(target) => Goes(target.addr, target.thumb)
      case Unreachable => Panics
      case _ => Fails
  }

  lemma AdvancedLooksAtPc(regs: A.RegContext)
    ensures A.InsnAddress(Advanced(regs)) == regs.pc
    ensures A.Thumb(Advanced(regs)) == A.Thumb(regs)
  {
    P.FetchesAtInstruction(regs.pc, Advanced(regs));
  }

  /** The state of the thread is bit 5 of its CPSR: for the PC that next_pc is given, for the address it fetches
      from, and for the decoder. */
  lemma StateIsBit5(mem: Memory, regs: A.RegContext, decode: A.Decoder, insn: A.Insn)
    ensures Advanced(regs).pc == (regs.pc + if M.Bit(regs.cpsr, 5) then 4 else 8) % TWO_TO_THE_32
    ensures A.Fetches(Advanced(regs), Readable(mem), decode, insn)
            <==> var bytes := A.ReadBytes(Readable(mem), regs.pc, 4);
                 bytes.Some? && decode(bytes.value, M.Bit(regs.cpsr, 5)) == Some(insn)
  {
    V.ThumbIsBit(regs);
    AdvancedLooksAtPc(regs);
  }

  /** A step fails with an error, and does not panic, exactly when the registers cannot be read, the instruction
      does not decode, or the data its target comes from cannot be read. */
  lemma StepFailsExactly(mem: Memory, regs: A.RegContext, decode: A.Decoder)
    requires A.ReadBytes(Readable(mem), regs.pc, 4).Some?
    ensures TargetOf(mem, None, decode) == Fails
    ensures TargetOf(mem, Some(regs), decode) == Fails
            <==> (forall insn :: !A.Fetches(Advanced(regs), Readable(mem), decode, insn))
                 || exists insn :: A.Fetches(Advanced(regs), Readable(mem), decode, insn)
                                   && NeedsData(insn, Advanced(regs)) && P.Known(insn)
                                   && var (from, n) := DataRead(insn, Advanced(regs)).value;
                                      A.ReadBytes(Readable(mem), from, n).None?
  {
    var r := Advanced(regs);
    AdvancedLooksAtPc(regs);
    var insn := decode(A.ReadBytes(Readable(mem), regs.pc, 4).value, A.Thumb(r));
    if insn.Some? {
      assert A.Fetches(r, Readable(mem), decode, insn.value);
      UnreadableExactly(insn.value, regs.pc, r, Readable(mem));
      NoDecodeError(insn.value, regs.pc, r, Readable(mem));
    }
  }

  lemma UnreadableExactly(insn: A.Insn, at: u32, regs: A.RegContext, mem: M.Memory)
    ensures A.Execute(insn, at, regs, mem).MemoryRead?
            <==> NeedsData(insn, regs) && P.Known(insn)
                 && var (from, n) := DataRead(insn, regs).value; A.ReadBytes(mem, from, n).None?
  {
    if A.EvalCond(insn.condition, regs) && !P.MayWritePc(insn) {
      P.PassedOver(insn, at, regs, mem);
    }
  }

  /** A step panics exactly when a byte of the four at the PC cannot be read, or the condition of the
      instruction there holds and next_pc does not know its operands. */
  lemma StepPanicsExactly(mem: Memory, regs: A.RegContext, decode: A.Decoder)
    ensures TargetOf(mem, Some(regs), decode).Panics?
            <==> (exists k :: 0 <= k < 4 && A.WrappingAdd(regs.pc, k) !in mem)
                 || (exists insn :: A.Fetches(Advanced(regs), Readable(mem), decode, insn)
                                    && A.EvalCond(insn.condition, regs) && !P.Known(insn))
  {
    var r := Advanced(regs);
    AdvancedLooksAtPc(regs);
    ReadsExactly(mem, regs.pc, 4);
    var bytes := A.ReadBytes(Readable(mem), regs.pc, 4);
    if bytes.Some? && decode(bytes.value, A.Thumb(r)).Some? {
      var insn := decode(bytes.value, A.Thumb(r)).value;
      assert A.Fetches(r, Readable(mem), decode, insn);
      P.UnreachableExactly(insn, regs.pc, r, Readable(mem));
      assert A.EvalCond(insn.condition, r) == A.EvalCond(insn.condition, regs);
    }
  }

  /** The jump table `add pc, pc, r0, lsl #2` is an instruction next_pc does not know: with any registers and
      memory, when it can be read and decodes so, stepping it panics. */
  lemma JumpTablePanics(mem: Memory, regs: A.RegContext, decode: A.Decoder, jump: A.Insn)
    requires A.ReadBytes(Readable(mem), regs.pc, 4).Some?
    requires jump == A.Insn(A.AL, A.ADD, A.Reg(15), A.Reg(15), A.OtherOperand, false, true)
    requires A.Fetches(Advanced(regs), Readable(mem), decode, jump)
    ensures TargetOf(mem, Some(regs), decode).Panics?
  {
    StepPanicsExactly(mem, regs, decode);
    assert A.EvalCond(jump.condition, regs) && !P.Known(jump);
  }

  lemma {:induction false} ReadsExactly(mem: Memory, addr: u32, n: nat)
    ensures A.ReadBytes(Readable(mem), addr, n).None?
            <==> exists k :: 0 <= k < n && A.WrappingAdd(addr, k) !in mem
    decreases n
  {
    if n > 0 {
      var next := A.WrappingAdd(addr, 1);
      ReadsExactly(mem, next, n - 1);
      FirstByte(addr);
      if exists k :: 0 <= k < n && A.WrappingAdd(addr, k) !in mem {
        var k :| 0 <= k < n && A.WrappingAdd(addr, k) !in mem;
        if k > 0 {
          OneFurther(addr, k - 1);
          assert A.WrappingAdd(next, k - 1) !in mem;
        }
      }
      if exists k :: 0 <= k < n - 1 && A.WrappingAdd(next, k) !in mem {
        var k :| 0 <= k < n - 1 && A.WrappingAdd(next, k) !in mem;
        OneFurther(addr, k);
        assert A.WrappingAdd(addr, k + 1) !in mem;
      }
    }
  }

  lemma OneFurther(addr: u32, k: nat)
    ensures A.WrappingAdd(A.WrappingAdd(addr, 1), k) == A.WrappingAdd(addr, k + 1)
  {
    WrapsOnce(addr + 1, k);
  }

  lemma FirstByte(addr: u32)
    ensures A.WrappingAdd(addr, 0) == addr
  {
    WrapOf(addr);
  }

  // ---- Patched memory

  /** What next_pc reads beyond the instruction: an address and a number of bytes. */
  function DataRead(insn: A.Insn, regs: A.RegContext): Option<(u32, nat)>
  {
    match insn.opcode
    case LDR => LoadRead(insn, regs)
    case LDRT => LoadRead(insn, regs)
    case LDM(_, _) => ListRead(insn, regs)
    case POP => ListRead(insn, regs)
    case TBB => TableRead(insn, regs, 1)
    case TBH => TableRead(insn, regs, 2)
    case _ => None
  }

  function LoadRead(insn: A.Insn, regs: A.RegContext): Option<(u32, nat)>
  {
    var addr := A.EffectiveAddress(insn.op1, regs);
    if addr.None? then None else Some((addr.value, 4))
  }

  function ListRead(insn: A.Insn, regs: A.RegContext): Option<(u32, nat)>
  {
    match A.LoadOperands(insn)
    case None => None
    case Some((b, list)) =>
      var addr := A.PcAddress(insn.opcode, A.RegValue(regs, b), list);
      if addr.None? then None else Some((addr.value, 4))
  }

  function TableRead(insn: A.Insn, regs: A.RegContext, n: nat): Option<(u32, nat)>
  {
    match A.TableOperands(insn)
    case None => None
    case Some((b, i)) => Some((A.EntryAddress(insn.opcode, A.RegValue(regs, b), A.RegValue(regs, i)), n))
  }

  /** An instruction that reads no data goes to the same place in every memory. */
  lemma NoDataNoMatter(insn: A.Insn, addr: u32, regs: A.RegContext, m1: M.Memory, m2: M.Memory)
    requires DataRead(insn, regs).None?
    ensures A.Execute(insn, addr, regs, m1) == A.Execute(insn, addr, regs, m2)
  {
  }

  /** No breakpoint covers any of the n bytes from addr on. */
  predicate Unpatched(table: Table, addr: u32, n: nat) {
    forall k :: 0 <= k < n ==> RangeFree(table, A.WrappingAdd(addr, k), 1)
  }

  lemma UnpatchedByte(w: World, clean: Memory, addr: u32)
    requires Overlaid(w, clean) && RangeFree(w.table, addr, 1)
    ensures ByteAt(w.mem, addr) == ByteAt(clean, addr)
  {
    assert w.mem.Keys == clean.Keys;
    if addr in w.mem {
      UncoveredByte(w, clean, addr);
    }
  }

  lemma {:induction false} UnpatchedReads(w: World, clean: Memory, addr: u32, n: nat)
    requires Overlaid(w, clean) && Unpatched(w.table, addr, n)
    ensures A.ReadBytes(Readable(w.mem), addr, n) == A.ReadBytes(Readable(clean), addr, n)
    decreases n
  {
    if n > 0 {
      var next := A.WrappingAdd(addr, 1);
      forall k | 0 <= k < n - 1 ensures RangeFree(w.table, A.WrappingAdd(next, k), 1) {
        OneFurther(addr, k);
        assert RangeFree(w.table, A.WrappingAdd(addr, k + 1), 1);
      }
      UnpatchedReads(w, clean, next, n - 1);
      FirstByte(addr);
      assert RangeFree(w.table, A.WrappingAdd(addr, 0), 1);
      UnpatchedByte(w, clean, addr);
      FirstRead(Readable(w.mem), addr, n);
      FirstRead(Readable(clean), addr, n);
    }
  }

  /** The same instruction is found in both memories, and it is read without a breakpoint when none covers the
      four bytes at the PC. */
  lemma SameInsnFound(w: World, clean: Memory, regs: A.RegContext, decode: A.Decoder, insn: A.Insn)
    requires Overlaid(w, clean) && Unpatched(w.table, regs.pc, 4)
    ensures A.Fetches(Advanced(regs), Readable(w.mem), decode, insn)
            <==> A.Fetches(Advanced(regs), Readable(clean), decode, insn)
  {
    AdvancedLooksAtPc(regs);
    UnpatchedReads(w, clean, regs.pc, 4);
  }

  predicate IsNarrow(insn: A.Insn) {
    M.InsnLength(insn.thumb, insn.wide) == 2
  }

  /** A decoder that does not look past a 16-bit instruction. */
  ghost predicate OwnBytes(decode: A.Decoder) {
    forall b: seq<byte>, c: seq<byte>, insn ::
      |b| == |c| == 4 && b[..2] == c[..2] && decode(b, true) == Some(insn) && IsNarrow(insn) ==>
        decode(c, true) == Some(insn)
  }

  /** A breakpoint just after a 16-bit instruction does not hide it. */
  lemma NarrowInsnFound(w: World, clean: Memory, regs: A.RegContext, decode: A.Decoder, insn: A.Insn)
    requires Overlaid(w, clean) && Unpatched(w.table, regs.pc, 2) && A.Thumb(regs) && OwnBytes(decode)
    requires A.Fetches(Advanced(regs), Readable(clean), decode, insn) && IsNarrow(insn)
    ensures A.Fetches(Advanced(regs), Readable(w.mem), decode, insn)
  {
    AdvancedLooksAtPc(regs);
    UnpatchedReads(w, clean, regs.pc, 2);
    SameReadable(w, clean, regs.pc, 4);
    ReadsInParts(Readable(w.mem), regs.pc);
    ReadsInParts(Readable(clean), regs.pc);
    var b, c := A.ReadBytes(Readable(clean), regs.pc, 4).value, A.ReadBytes(Readable(w.mem), regs.pc, 4).value;
    assert b[..2] == c[..2];
  }

  lemma ReadsInParts(mem: M.Memory, addr: u32)
    requires A.ReadBytes(mem, addr, 4).Some?
    ensures A.ReadBytes(mem, addr, 2) == Some(A.ReadBytes(mem, addr, 4).value[..2])
  {
    var next := A.WrappingAdd(addr, 1);
    FirstRead(mem, addr, 4);
    FirstRead(mem, next, 3);
    FirstRead(mem, addr, 2);
    FirstRead(mem, next, 1);
    assert A.ReadBytes(mem, A.WrappingAdd(next, 1), 0) == Some([]);
    var x, y := mem(addr).value, mem(next).value;
    assert [x] + ([y] + []) == [x, y] == A.ReadBytes(mem, addr, 4).value[..2];
  }

  lemma FirstRead(mem: M.Memory, addr: u32, n: nat)
    requires n > 0
    ensures var rest := A.ReadBytes(mem, A.WrappingAdd(addr, 1), n - 1);
            A.ReadBytes(mem, addr, n)
            == if mem(addr).None? || rest.None? then None else Some([mem(addr).value] + rest.value)
  {
  }

  lemma {:induction false} SameReadable(w: World, clean: Memory, addr: u32, n: nat)
    requires Overlaid(w, clean)
    ensures A.ReadBytes(Readable(w.mem), addr, n).Some? <==> A.ReadBytes(Readable(clean), addr, n).Some?
    decreases n
  {
    if n > 0 {
      SameReadable(w, clean, A.WrappingAdd(addr, 1), n - 1);
      assert w.mem.Keys == clean.Keys;
    }
  }

  /** The step depends on the data only when the instruction is executed and may write the PC. */
  predicate NeedsData(insn: A.Insn, regs: A.RegContext) {
    A.EvalCond(insn.condition, regs) && P.MayWritePc(insn) && DataRead(insn, regs).Some?
  }

  predicate SameData(insn: A.Insn, regs: A.RegContext, m1: M.Memory, m2: M.Memory) {
    NeedsData(insn, regs) ==>
      var (from, n) := DataRead(insn, regs).value;
      A.ReadBytes(m1, from, n) == A.ReadBytes(m2, from, n)
  }

  lemma WordsTell(m1: M.Memory, m2: M.Memory, from: u32)
    ensures A.Load(m1, from) == A.Load(m2, from) <==> A.ReadBytes(m1, from, 4) == A.ReadBytes(m2, from, 4)
  {
    var b, c := A.ReadBytes(m1, from, 4), A.ReadBytes(m2, from, 4);
    if b.Some? && c.Some? {
      var x := WordLoaded(m1, from, b.value);
      var y := WordLoaded(m2, from, c.value);
      InterworkTells(x, y);
      SameWord(b.value, c.value);
    }
  }

  lemma WordLoaded(mem: M.Memory, from: u32, b: seq<byte>) returns (x: u32)
    requires A.ReadBytes(mem, from, 4) == Some(b)
    ensures x == FromLe(b) && A.Load(mem, from) == A.Interwork(x)
  {
    x := A.ReadU32(mem, from).value;
  }

  lemma InterworkTells(x: u32, y: u32)
    ensures A.Interwork(x) == A.Interwork(y) <==> x == y
  {
  }

  lemma SameWord(b: seq<byte>, c: seq<byte>)
    requires |b| == |c|
    ensures FromLe(b) == FromLe(c) <==> b == c
  {
    ToLeFromLe(b);
    ToLeFromLe(c);
  }

  lemma EntriesTell(pc: u32, b: seq<byte>, c: seq<byte>)
    requires |b| == |c| <= 2
    ensures A.WrappingAdd(pc, FromLe(b) * 2) == A.WrappingAdd(pc, FromLe(c) * 2) <==> b == c
  {
    ToLeFromLe(b);
    ToLeFromLe(c);
    SmallEntry(b);
    SmallEntry(c);
    SmallDistance(pc, FromLe(b), FromLe(c));
  }

  lemma SmallEntry(b: seq<byte>)
    requires |b| <= 2
    ensures FromLe(b) < 0x1_0000
  {
    FromLeBound(b);
    assert Span(|b|) <= 0x1_0000;
  }

  lemma SmallDistance(pc: u32, x: nat, y: nat)
    requires x < 0x1_0000 && y < 0x1_0000
    ensures A.WrappingAdd(pc, x * 2) == A.WrappingAdd(pc, y * 2) <==> x == y
  {
    WrapOf(pc + x * 2);
    WrapOf(pc + y * 2);
  }

  lemma TablesTell(insn: A.Insn, regs: A.RegContext, m1: M.Memory, m2: M.Memory)
    requires insn.opcode == A.TBB || insn.opcode == A.TBH
    ensures A.TableBranch(insn, regs, m1) == A.TableBranch(insn, regs, m2)
            <==> DataRead(insn, regs).Some? ==>
              var (from, n) := DataRead(insn, regs).value;
              A.ReadBytes(m1, from, n) == A.ReadBytes(m2, from, n)
  {
    if A.TableOperands(insn).Some? {
      var (from, n) := DataRead(insn, regs).value;
      var b, c := A.ReadBytes(m1, from, n), A.ReadBytes(m2, from, n);
      if b.Some? && c.Some? {
        EntriesTell(regs.pc, b.value, c.value);
      }
    }
  }

  /** The target tells the data it comes from. */
  lemma DataDecides(insn: A.Insn, addr: u32, regs: A.RegContext, m1: M.Memory, m2: M.Memory)
    ensures A.Execute(insn, addr, regs, m1) == A.Execute(insn, addr, regs, m2) <==> SameData(insn, regs, m1, m2)
  {
    if !A.EvalCond(insn.condition, regs) {
    } else if !P.MayWritePc(insn) {
      P.PassedOver(insn, addr, regs, m1);
      P.PassedOver(insn, addr, regs, m2);
    } else if NeedsData(insn, regs) {
      NeededDataDecides(insn, addr, regs, m1, m2);
    } else {
      NoDataNoMatter(insn, addr, regs, m1, m2);
    }
  }

  lemma NeededDataDecides(insn: A.Insn, addr: u32, regs: A.RegContext, m1: M.Memory, m2: M.Memory)
    requires NeedsData(insn, regs)
    ensures A.Execute(insn, addr, regs, m1) == A.Execute(insn, addr, regs, m2) <==> SameData(insn, regs, m1, m2)
  {
    var (from, n) := DataRead(insn, regs).value;
    if insn.opcode == A.TBB || insn.opcode == A.TBH {
      TablesTell(insn, regs, m1, m2);
    } else {
      WordsTell(m1, m2, from);
    }
  }

  lemma OutcomesTell(mem: Memory, clean: Memory, regs: A.RegContext, decode: A.Decoder, insn: A.Insn)
    requires A.Fetches(Advanced(regs), Readable(mem), decode, insn)
    requires A.Fetches(Advanced(regs), Readable(clean), decode, insn)
    requires forall a: u32 :: a in mem <==> a in clean
    ensures TargetOf(mem, Some(regs), decode) == TargetOf(clean, Some(regs), decode)
            <==> A.Execute(insn, regs.pc, Advanced(regs), Readable(mem))
                 == A.Execute(insn, regs.pc, Advanced(regs), Readable(clean))
  {
    AdvancedLooksAtPc(regs);
    NoDecodeError(insn, regs.pc, Advanced(regs), Readable(mem));
    NoDecodeError(insn, regs.pc, Advanced(regs), Readable(clean));
  }

  lemma NoDecodeError(insn: A.Insn, at: u32, regs: A.RegContext, mem: M.Memory)
    ensures !A.Execute(insn, at, regs, mem).DecodeError?
  {
  }

  /** Although next_pc reads the patched memory: when it finds the program's own instruction, the step goes where
      the unpatched program would go exactly when the data its target comes from reads the same. */
  lemma StepFollowsExactly(w: World, clean: Memory, regs: A.RegContext, decode: A.Decoder, insn: A.Insn)
    requires Overlaid(w, clean)
    requires A.Fetches(Advanced(regs), Readable(w.mem), decode, insn)
    requires A.Fetches(Advanced(regs), Readable(clean), decode, insn)
    ensures TargetOf(w.mem, Some(regs), decode) == TargetOf(clean, Some(regs), decode)
            <==> SameData(insn, Advanced(regs), Readable(w.mem), Readable(clean))
  {
    assert w.mem.Keys == clean.Keys;
    OutcomesTell(w.mem, clean, regs, decode, insn);
    DataDecides(insn, regs.pc, Advanced(regs), Readable(w.mem), Readable(clean));
  }

  /** So it does when no breakpoint covers the four bytes at the PC or that data. */
  lemma StepFollowsUnpatchedProgram(w: World, clean: Memory, regs: A.RegContext, decode: A.Decoder)
    requires Overlaid(w, clean) && Unpatched(w.table, regs.pc, 4)
    requires forall insn :: A.Fetches(Advanced(regs), Readable(clean), decode, insn) ==>
               var d := DataRead(insn, Advanced(regs)); d.Some? ==> Unpatched(w.table, d.value.0, d.value.1)
    ensures TargetOf(w.mem, Some(regs), decode) == TargetOf(clean, Some(regs), decode)
  {
    var r := Advanced(regs);
    AdvancedLooksAtPc(regs);
    UnpatchedReads(w, clean, regs.pc, 4);
    var bytes := A.ReadBytes(Readable(clean), regs.pc, 4);
    if bytes.Some? && decode(bytes.value, A.Thumb(r)).Some? {
      var insn := decode(bytes.value, A.Thumb(r)).value;
      assert A.Fetches(r, Readable(clean), decode, insn);
      var d := DataRead(insn, r);
      if d.Some? {
        UnpatchedReads(w, clean, d.value.0, d.value.1);
      }
      StepFollowsExactly(w, clean, regs, decode, insn);
    }
  }

  // ---- Stepping at a breakpoint

  /** A decoder that takes the planted bytes for instructions of their own length that do not write the PC. */
  ghost predicate TakesBkpt(decode: A.Decoder) {
    forall b: seq<byte>, thumb | |b| == 4 && b[..PatchLen(BkptKind(thumb))] == Patch(PatchLen(BkptKind(thumb))) ::
      var insn := decode(b, thumb);
      insn.Some? && insn.value.opcode == A.OtherOpcode && insn.value.thumb == thumb && !insn.value.wide
  }

  function BkptKind(thumb: bool): Kind {
    if thumb then Thumb16 else Arm32
  }

  /** Past a breakpoint instruction of the state the thread is in. */
  function PastBkpt(regs: A.RegContext): M.Target {
    M.Target(A.WrappingAdd(regs.pc, PatchLen(BkptKind(A.Thumb(regs)))), A.Thumb(regs))
  }

  predicate BkptAt(table: Table, i: nat, regs: A.RegContext) {
    && i < |table| && table[i].Some? && table[i].value.addr == regs.pc
    && table[i].value.patchLen == PatchLen(BkptKind(A.Thumb(regs)))
  }

  lemma FourReadable(mem: Memory, pc: u32)
    requires Mapped(mem, pc, 4) && pc <= 0xFFFF_FFFC
    ensures A.ReadBytes(Readable(mem), pc, 4) == Some([mem[pc], mem[pc + 1], mem[pc + 2], mem[pc + 3]])
  {
    WrapOf(pc + 1);
    WrapOf(pc + 2);
    WrapOf(pc + 3);
    var m := Readable(mem);
    assert m(pc) == Some(mem[pc]) && m(pc + 1) == Some(mem[pc + 1]);
    assert m(pc + 2) == Some(mem[pc + 2]) && m(pc + 3) == Some(mem[pc + 3]);
    assert A.ReadBytes(m, A.WrappingAdd(pc + 3, 1), 0) == Some([]);
    FirstRead(m, pc + 3, 1);
    FirstRead(m, pc + 2, 2);
    FirstRead(m, pc + 1, 3);
    FirstRead(m, pc, 4);
    Joined(mem[pc], mem[pc + 1], mem[pc + 2], mem[pc + 3]);
  }

  lemma Joined(a: byte, b: byte, c: byte, d: byte)
    ensures [a] + ([b] + ([c] + ([d] + []))) == [a, b, c, d]
  {
  }

  /** With a breakpoint at the PC, next_pc finds the breakpoint instruction and passes over it. */
  lemma StepsPastBkpt(w: World, clean: Memory, regs: A.RegContext, decode: A.Decoder, i: nat)
    requires Overlaid(w, clean) && BkptAt(w.table, i, regs) && TakesBkpt(decode)
    requires Mapped(w.mem, regs.pc, 4) && regs.pc <= 0xFFFF_FFFC
    ensures TargetOf(w.mem, Some(regs), decode) == Goes(PastBkpt(regs).addr, PastBkpt(regs).thumb)
  {
    var b := PatchedBytes(w, clean, regs.pc, i);
    var insn := decode(b, A.Thumb(regs)).value;
    BkptPassedOver(insn, regs.pc, Advanced(regs), Readable(w.mem));
    GoesWhereExecuteLeads(w.mem, regs, decode, b, insn, PastBkpt(regs));
  }

  lemma PatchedBytes(w: World, clean: Memory, pc: u32, i: nat) returns (b: seq<byte>)
    requires Overlaid(w, clean) && i < |w.table| && w.table[i].Some? && w.table[i].value.addr == pc
    requires Mapped(w.mem, pc, 4) && pc <= 0xFFFF_FFFC
    ensures A.ReadBytes(Readable(w.mem), pc, 4) == Some(b) && |b| == 4
    ensures b[..w.table[i].value.patchLen] == Patch(w.table[i].value.patchLen)
  {
    FourReadable(w.mem, pc);
    b := [w.mem[pc], w.mem[pc + 1], w.mem[pc + 2], w.mem[pc + 3]];
    SlotShowsPatch(w, clean, i);
    assert SlotFormed(w.table[i].value);
    ShownFirst(w.mem, pc, w.table[i].value.patchLen, b);
  }

  lemma GoesWhereExecuteLeads(
    mem: Memory, regs: A.RegContext, decode: A.Decoder, b: seq<byte>, insn: A.Insn, t: M.Target)
    requires A.ReadBytes(Readable(mem), regs.pc, 4) == Some(b) && decode(b, A.Thumb(regs)) == Some(insn)
    requires A.Execute(insn, regs.pc, Advanced(regs), Readable(mem)) == A.Next(t)
    ensures TargetOf(mem, Some(regs), decode) == Goes(t.addr, t.thumb)
  {
    AdvancedLooksAtPc(regs);
  }

  lemma ShownFirst(mem: Memory, pc: u32, n: nat, b: seq<byte>)
    requires n in {2, 4} && Mapped(mem, pc, 4) && b == [mem[pc], mem[pc + 1], mem[pc + 2], mem[pc + 3]]
    requires Shows(mem, pc, Patch(n))
    ensures b[..n] == Patch(n)
  {
    forall k | 0 <= k < n ensures b[k] == Patch(n)[k] {
      assert mem[pc + k] == Patch(n)[pc + k - pc];
    }
  }

  lemma BkptPassedOver(insn: A.Insn, at: u32, regs: A.RegContext, mem: M.Memory)
    requires insn.opcode == A.OtherOpcode && !insn.wide
    ensures A.Execute(insn, at, regs, mem)
            == A.Next(M.Target(A.WrappingAdd(at, PatchLen(BkptKind(insn.thumb))), insn.thumb))
  {
  }

  /** Stepping a thread that stands at a breakpoint: the step goes where the unpatched program would go exactly
      when the instruction underneath leads just past the breakpoint instruction, in the same state. */
  lemma StepAtBreakpointExactly(
    w: World, clean: Memory, regs: A.RegContext, decode: A.Decoder, i: nat, insn: A.Insn)
    requires Overlaid(w, clean) && BkptAt(w.table, i, regs) && TakesBkpt(decode)
    requires Mapped(w.mem, regs.pc, 4) && regs.pc <= 0xFFFF_FFFC
    requires A.Fetches(Advanced(regs), Readable(clean), decode, insn)
    ensures TargetOf(w.mem, Some(regs), decode) == TargetOf(clean, Some(regs), decode)
            <==> P.LeadsTo(insn, regs.pc, Advanced(regs), Readable(clean), PastBkpt(regs))
  {
    StepsPastBkpt(w, clean, regs, decode, i);
    AdvancedLooksAtPc(regs);
    P.LeadsToExactly(insn, regs.pc, Advanced(regs), Readable(clean), PastBkpt(regs));
  }

  function BxLr(): A.Insn {
    A.Insn(A.AL, A.BX, A.Reg(14), A.Nothing, A.Nothing, true, false)
  }

  /** Takes 0x4770 in Thumb state for BX LR, and anything else for an instruction that falls through. */
  function SomeDecoder(): A.Decoder {
    (bytes, thumb) =>
      if thumb && |bytes| == 4 && bytes[0] == 0x70 && bytes[1] == 0x47 then Some(BxLr())
      else Some(A.Insn(A.AL, A.OtherOpcode, A.Nothing, A.Nothing, A.Nothing, thumb, false))
  }

  /** A `bx lr` at 0x81000000, and a `nop` after it. */
  function ReturnCode(): Memory {
    map[0x8100_0000 := 0x70, 0x8100_0001 := 0x47, 0x8100_0002 := 0x00, 0x8100_0003 := 0xBF]
  }

  lemma ReturnCodeReads()
    ensures Mapped(ReturnCode(), 0x8100_0000, 4)
    ensures A.ReadBytes(Readable(ReturnCode()), 0x8100_0000, 4) == Some([0x70, 0x47, 0x00, 0xBF])
  {
    FourReadable(ReturnCode(), 0x8100_0000);
  }

  /** A return under a breakpoint: the step of `bx lr` does not go to the caller. */
  lemma StepGoesAstray(regs: A.RegContext) returns (w: World)
    requires A.Thumb(regs) && regs.pc == 0x8100_0000 && regs.lr == 0x8200_0001
    ensures Overlaid(w, ReturnCode())
    ensures TargetOf(ReturnCode(), Some(regs), SomeDecoder()) == Goes(0x8200_0000, true)
    ensures TargetOf(w.mem, Some(regs), SomeDecoder()) == Goes(0x8100_0002, true)
  {
    var i: nat;
    ReturnCodeReads();
    w, i := PlantedAlone(ReturnCode(), 0x8100_0000);
    Planted(w, ReturnCode(), regs, i);
    BxGoes(ReturnCode(), regs);
  }

  lemma Planted(w: World, clean: Memory, regs: A.RegContext, i: nat)
    requires Overlaid(w, clean) && BkptAt(w.table, i, regs) && A.Thumb(regs)
    requires regs.pc == 0x8100_0000 && Mapped(w.mem, regs.pc, 4)
    ensures TargetOf(w.mem, Some(regs), SomeDecoder()) == Goes(0x8100_0002, true)
  {
    DecoderTakesBkpt();
    StepsPastBkpt(w, clean, regs, SomeDecoder(), i);
    WrapOf(0x8100_0002);
  }

  lemma DecoderTakesBkpt()
    ensures TakesBkpt(SomeDecoder())
  {
    forall b: seq<byte>, thumb
      | |b| == 4 && b[..PatchLen(BkptKind(thumb))] == Patch(PatchLen(BkptKind(thumb)))
      ensures SomeDecoder()(b, thumb)
              == Some(A.Insn(A.AL, A.OtherOpcode, A.Nothing, A.Nothing, A.Nothing, thumb, false))
    {
      if thumb {
        assert b[0] == b[..2][0] == 0x00;
      }
    }
  }

  /** A 16-bit breakpoint set in a memory without any. */
  lemma PlantedAlone(clean: Memory, pc: u32) returns (w: World, i: nat)
    requires Mapped(clean, pc, 2) && !IsSharedAddress(pc)
    ensures Overlaid(w, clean) && w.mem.Keys == clean.Keys
    ensures i < |w.table| && w.table[i].Some? && w.table[i].value.addr == pc && w.table[i].value.patchLen == 2
  {
    var empty, io := World(clean, seq(SLOTS, _ => None)), Io(true, true);
    EmptyIsOverlaid(clean);
    assert Find(empty.table, pc).None? && FirstFree(empty.table).Some?;
    SetKeepsOverlay(empty, clean, pc, Thumb16, io);
    w := SetSw(empty, pc, Thumb16, io).0;
    i := SetPlants(empty, pc, Thumb16, io);
  }

  lemma BxGoes(clean: Memory, regs: A.RegContext)
    requires regs.lr == 0x8200_0001 && A.Thumb(regs)
    requires A.ReadBytes(Readable(clean), regs.pc, 4) == Some([0x70, 0x47, 0x00, 0xBF])
    ensures TargetOf(clean, Some(regs), SomeDecoder()) == Goes(0x8200_0000, true)
  {
    GoesWhereExecuteLeads(
      clean, regs, SomeDecoder(), [0x70, 0x47, 0x00, 0xBF], BxLr(), M.Target(0x8200_0000, true));
  }
}
