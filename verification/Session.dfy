/** One session's breakpoints, step record and pending exceptions: the step half of resume
    (vita-gdb/src/gdb/multi_thread.rs), handle_break and is_bkpt (vita-gdb/src/gdb/handlers.rs), and the
    step functions of vita-gdb/src/gdb/sessions.rs. */
module Session {
  import opened Words
  import opened Events
  import opened SwBreakpoints
  import opened SwOverlay

  datatype Sess = Sess(w: World, step: Option<(int, u32)>, stepResult: Option<int>, ring: seq<ExceptionEvent>)

  /** The masks and patterns of the source as the fields they select: in Thumb state the high byte of the low
      halfword (0xff00) is 0xbe; in ARM state bits 20 to 27 (0x0ff0_0000) are 0x12 and bits 4 to 7 (0xf0) are 7. */
  predicate IsBkpt(insn: seq<byte>, thumb: bool)
    requires |insn| == 4
  {
    var word := FromLe(insn);
    if thumb then word % 0x1_0000 / 0x100 == 0xbe
    else word / 0x10_0000 % 0x100 == 0x12 && word / 0x10 % 0x10 == 0x7
  }

  /** resume, once next_pc has said where the thread goes: plant a temporary breakpoint there, whose outcome
      is not looked at, and record the step. */
  function BeginStep(s: Sess, tid: int, addr: u32, thumb: bool, io: Io): Sess {
    s.(w := SetSw(s.w, addr, if thumb then Thumb16 else Arm32, io).0, step := Some((tid, addr)))
  }

  predicate IsStep(s: Sess, addr: u32) {
    s.step.Some? && s.step.value.1 == addr
  }

  function StepFinished(s: Sess, writeOk: bool): Sess
    requires Formed(s.w.table)
  {
    if s.step.None? then s
    else s.(w := ClearSw(s.w, s.step.value.1, writeOk).0, step := None, stepResult := Some(s.step.value.0))
  }

  /** Without a pid no breakpoint can be cleared. */
  function StepFinishedUnattached(s: Sess): Sess {
    if s.step.None? then s else s.(step := None, stepResult := Some(s.step.value.0))
  }

  function PushExcp(s: Sess, ev: ExceptionEvent): Sess {
    if |s.ring| < RING_ROOM then s.(ring := s.ring + [ev]) else s
  }

  /** What a break at `addr` by thread `tid` does; `handled` is false when the faulting instruction cannot be
      read. */
  function HandleBreak(s: Sess, addr: u32, tid: int, thumb: bool, io: Io): (r: (Sess, bool))
    requires Formed(s.w.table)
  {
    if !io.readOk || !Mapped(s.w.mem, addr, 4) then (s, false)
    else if IsStep(s, addr) then (StepFinished(s, io.writeOk), true)
    else (PushExcp(s, if IsBkpt(BytesAt(s.w.mem, addr, 4), thumb) then SwBreak(tid) else HwBreak(tid)), true)
  }

  function PopStepFinished(s: Sess): (Sess, Option<int>) {
    (s.(stepResult := None), s.stepResult)
  }

  // ---- What is a breakpoint instruction

  /** BKPT in ARM state, by its encoding (section A8.8.24 of ARM DDI 0406C), whatever its condition field. */
  predicate ArmBkpt(word: nat, cond: nat, imm12: nat, imm4: nat) {
    cond < 0x10 && imm12 < 0x1000 && imm4 < 0x10
    && word == cond * 0x1000_0000 + 0x120_0000 + imm12 * 0x100 + 0x70 + imm4
  }

  predicate ThumbBkpt(halfword: nat, imm8: nat) {
    imm8 < 0x100 && halfword == 0xBE00 + imm8
  }

  ghost predicate IsBkptEncoding(word: nat, thumb: bool) {
    if thumb then exists imm8 :: ThumbBkpt(word % 0x1_0000, imm8)
    else exists cond, imm12, imm4 :: ArmBkpt(word, cond, imm12, imm4)
  }

  lemma ArmBkptFields(word: nat, cond: nat, imm12: nat, imm4: nat)
    requires ArmBkpt(word, cond, imm12, imm4)
    ensures word / 0x10_0000 % 0x100 == 0x12 && word / 0x10 % 0x10 == 0x7
  {
    DivMod(word, 0x10_0000, cond * 0x100 + 0x12, imm12 * 0x100 + 0x70 + imm4);
    DivMod(cond * 0x100 + 0x12, 0x100, cond, 0x12);
    DivMod(word, 0x10, cond * 0x100_0000 + 0x12_0000 + imm12 * 0x10 + 7, imm4);
    DivMod(cond * 0x100_0000 + 0x12_0000 + imm12 * 0x10 + 7, 0x10, cond * 0x10_0000 + 0x1_2000 + imm12, 7);
  }

  lemma FieldsAreArmBkpt(word: nat)
    requires word < 0x1_0000_0000 && word / 0x10_0000 % 0x100 == 0x12 && word / 0x10 % 0x10 == 0x7
    ensures ArmBkpt(word, word / 0x1000_0000, word % 0x10_0000 / 0x100, word % 0x10)
  {
    var top, rest := word / 0x10_0000, word % 0x10_0000;
    DivMod(word, 0x1000_0000, top / 0x100, 0x12 * 0x10_0000 + rest);
    LowFields(top, rest);
  }

  lemma LowFields(top: nat, rest: nat)
    requires rest < 0x10_0000 && (top * 0x10_0000 + rest) / 0x10 % 0x10 == 0x7
    ensures rest == rest / 0x100 * 0x100 + 0x70 + (top * 0x10_0000 + rest) % 0x10
  {
    var nibble := rest / 0x10;
    DivMod(top * 0x10_0000 + rest, 0x10, top * 0x1_0000 + nibble, rest % 0x10);
    DivMod(top * 0x1_0000 + nibble, 0x10, top * 0x1000 + nibble / 0x10, nibble % 0x10);
    DivMod(rest, 0x100, nibble / 0x10, nibble % 0x10 * 0x10 + rest % 0x10);
  }

  lemma ThumbBkptFields(half: nat)
    requires half < 0x1_0000
    ensures half / 0x100 == 0xbe <==> exists imm8 :: ThumbBkpt(half, imm8)
  {
    if half / 0x100 == 0xbe {
      assert ThumbBkpt(half, half % 0x100);
    }
  }

  /** is_bkpt knows exactly the encodings of BKPT. */
  lemma IsBkptExactly(insn: seq<byte>, thumb: bool)
    requires |insn| == 4
    ensures IsBkpt(insn, thumb) <==> IsBkptEncoding(FromLe(insn), thumb)
  {
    var word := FromLe(insn);
    FromLeBound(insn);
    assert Span(4) == 0x1_0000_0000;
    if thumb {
      ThumbBkptFields(word % 0x1_0000);
    } else {
      ArmWordExactly(word);
    }
  }

  lemma ArmWordExactly(word: nat)
    requires word < 0x1_0000_0000
    ensures word / 0x10_0000 % 0x100 == 0x12 && word / 0x10 % 0x10 == 0x7 <==> IsBkptEncoding(word, false)
  {
    if word / 0x10_0000 % 0x100 == 0x12 && word / 0x10 % 0x10 == 0x7 {
      FieldsAreArmBkpt(word);
    }
    if IsBkptEncoding(word, false) {
      var cond, imm12, imm4 :| ArmBkpt(word, cond, imm12, imm4);
      ArmBkptFields(word, cond, imm12, imm4);
    }
  }

  /** The word in memory at addr. */
  function WordAt(mem: Memory, addr: int): nat
    requires Mapped(mem, addr, 4)
  {
    mem[addr] as int + mem[addr + 1] as int * 0x100
    + mem[addr + 2] as int * 0x1_0000 + mem[addr + 3] as int * 0x100_0000
  }

  /** A break away from the step joins the ring when there is room: as a software break exactly when memory there
      holds a breakpoint instruction of the thread's state, and as a hardware break otherwise. Nothing else
      changes. */
  lemma BreakReportsExactly(s: Sess, addr: u32, tid: int, thumb: bool, io: Io)
    requires Formed(s.w.table) && io.readOk && Mapped(s.w.mem, addr, 4) && !IsStep(s, addr)
    ensures var ev := if IsBkptEncoding(WordAt(s.w.mem, addr), thumb) then SwBreak(tid) else HwBreak(tid);
            HandleBreak(s, addr, tid, thumb, io)
            == (s.(ring := if |s.ring| < 7 then s.ring + [ev] else s.ring), true)
  {
    var insn := BytesAt(s.w.mem, addr, 4);
    FourBytes(insn);
    assert forall k :: 0 <= k < 4 ==> insn[k] == s.w.mem[addr + k];
    IsBkptExactly(insn, thumb);
  }

  /** A break is taken up exactly when its instruction can be read, and otherwise changes nothing; it ends the step
      exactly when it is at the step's address. */
  lemma BreakHandledExactly(s: Sess, addr: u32, tid: int, thumb: bool, io: Io)
    requires Formed(s.w.table)
    ensures var (t, handled) := HandleBreak(s, addr, tid, thumb, io);
            && (handled <==> io.readOk && Mapped(s.w.mem, addr, 4))
            && (!handled ==> t == s)
            && (handled && s.step.Some? && s.step.value.1 == addr ==> t == StepFinished(s, io.writeOk))
            && (handled && (s.step.None? || s.step.value.1 != addr) ==> t.w == s.w && t.step == s.step)
  {
  }

  /** The end of a step turns its record into the result and removes the breakpoint at its address, and no other;
      the ring stays. Without a pid the breakpoint stays too. */
  lemma StepEndsExactly(s: Sess, clean: Memory, tid: int, addr: u32, writeOk: bool)
    requires Overlaid(s.w, clean) && s.step == Some((tid, addr))
    ensures var t := StepFinished(s, writeOk);
            && t == Sess(t.w, None, Some(tid), s.ring)
            && |t.w.table| == |s.w.table| && !HasAddress(t.w.table, addr)
            && (forall j :: 0 <= j < |s.w.table| && s.w.table[j].Some? && s.w.table[j].value.addr != addr ==>
                 t.w.table[j] == s.w.table[j])
            && (writeOk ==> Overlaid(t.w, clean))
    ensures StepFinishedUnattached(s) == Sess(s.w, None, Some(tid), s.ring)
  {
    ClearAnswersExactly(s.w, clean, addr, writeOk);
  }

  /** The planted patches are BKPT #0 with the condition `always`, as the manual demands, in either state. */
  lemma PatchesAreBkpt()
    ensures |Patch(4)| == 4 && ArmBkpt(FromLe(Patch(4)), 0xE, 0, 0)
    ensures |Patch(2)| == 2 && ThumbBkpt(FromLe(Patch(2)), 0)
  {
    FourBytes(Patch(4));
    assert Patch(2)[1..] == [0xbe] && Patch(2)[1..][1..] == [];
    assert FromLe([0xbe]) == 0xbe;
  }

  /** A break at a planted breakpoint, in the instruction set it was planted for, is reported as a software
      break. A Thumb32 breakpoint is planted as an ARM instruction, which Thumb state does not recognise. */
  lemma PlantedBreakIsRecognised(s: Sess, clean: Memory, i: nat, kind: Kind, tid: int, io: Io)
    requires Overlaid(s.w, clean) && i < |s.w.table| && s.w.table[i].Some?
    requires s.w.table[i].value.patchLen == PatchLen(kind)
    requires io.readOk && Mapped(s.w.mem, s.w.table[i].value.addr, 4) && !IsStep(s, s.w.table[i].value.addr)
    ensures HandleBreak(s, s.w.table[i].value.addr, tid, kind != Arm32, io)
            == (PushExcp(s, if kind == Thumb32 then HwBreak(tid) else SwBreak(tid)), true)
  {
    var addr := s.w.table[i].value.addr;
    SlotShowsPatch(s.w, clean, i);
    var insn := BytesAt(s.w.mem, addr, 4);
    forall k | 0 <= k < PatchLen(kind) ensures insn[k] == Patch(PatchLen(kind))[k] {
      assert insn[addr + k - addr] == s.w.mem[addr + k] == Patch(PatchLen(kind))[addr + k - addr];
    }
    if kind == Thumb16 {
      ThumbWord(insn);
    } else {
      assert insn == [0x70, 0x00, 0x20, 0xE1];
      ArmWord();
    }
  }

  lemma ThumbWord(insn: seq<byte>)
    requires |insn| == 4 && insn[0] == 0x00 && insn[1] == 0xbe
    ensures IsBkpt(insn, true)
  {
    FourBytes(insn);
  }

  lemma ArmWord()
    ensures IsBkpt([0x70, 0x00, 0x20, 0xE1], false) && !IsBkpt([0x70, 0x00, 0x20, 0xE1], true)
  {
    FourBytes([0x70, 0x00, 0x20, 0xE1]);
  }
}
