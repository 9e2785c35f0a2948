/** One failing input for each promise that the code keeps only under a condition and that is not refuted beside
    its condition. */
module FailingInputs {
  import opened Words
  import opened SlotTable
  import opened SwBreakpoints
  import opened SwOverlay
  import opened HwBreakpoints
  import opened HwWatchpoints
  import E = Events
  import S = Session
  import St = Stepping
  import T = StepTarget
  import M = ArmManual
  import A = ArmNextPc
  import P = ArmProofs

  const CODE: u32 := 0x8100_0000

  /** A few zero bytes of code. */
  function Code(): Memory {
    Zeros(CODE - 8, 16)
  }

  function Zeros(addr: int, n: nat): (mem: Memory)
    ensures forall a :: a in mem <==> addr <= a < addr + n
    ensures forall a :: a in mem ==> mem[a] == 0
    decreases n
  {
    if n == 0 then map[] else Zeros(addr + 1, n - 1)[addr := 0]
  }

  function EmptyTable(): Table {
    seq(SLOTS, _ => None)
  }

  const OK := Io(true, true)

  function OneBreakpoint(): World {
    SetSw(World(Code(), EmptyTable()), CODE, Thumb16, OK).0
  }

  lemma OneBreakpointIs() returns (i: nat)
    ensures Overlaid(OneBreakpoint(), Code()) && OneBreakpoint().mem.Keys == Code().Keys
    ensures i < SLOTS && Find(OneBreakpoint().table, CODE) == Some(i)
    ensures OneBreakpoint().table == EmptyTable()[i := Some(NewSlot(Code(), CODE, Thumb16))]
  {
    var empty := World(Code(), EmptyTable());
    EmptyIsOverlaid(Code());
    SetKeepsOverlay(empty, Code(), CODE, Thumb16, OK);
    PlantsInEmpty(empty);
    i := SetPlants(empty, CODE, Thumb16, OK);
    FoundWhereSet(empty.table, OneBreakpoint().table, CODE, i);
  }

  lemma PlantsInEmpty(empty: World)
    requires empty == World(Code(), EmptyTable())
    ensures Find(empty.table, CODE).None? && SetSw(empty, CODE, Thumb16, OK).1
    ensures SetSw(empty, CODE, Thumb16, OK).0.mem.Keys == Code().Keys
    ensures RangeFree(empty.table, CODE, 2)
  {
    assert empty.table[0] == None;
    assert Find(empty.table, CODE).None? && FirstFree(empty.table).Some?;
  }

  /** A 32-bit Thumb breakpoint whose second half is a 16-bit one. */
  lemma OverlappingSetBreaks()
    ensures !Overlaid(SetSw(OneBreakpoint(), CODE - 2, Thumb32, OK).0, Code())
  {
    var i := OneBreakpointIs();
    var w := OneBreakpoint();
    NotRefused(w, i);
    SetKeepsOverlay(w, Code(), CODE - 2, Thumb32, OK);
  }

  lemma NotRefused(w: World, i: nat)
    requires i < SLOTS && w.mem.Keys == Code().Keys
    requires w.table == EmptyTable()[i := Some(NewSlot(Code(), CODE, Thumb16))]
    ensures !Refuses(w, CODE - 2, Thumb32, OK) && !RangeFree(w.table, CODE - 2, 4)
  {
    var j := if i == 0 then 1 else 0;
    assert w.table[j] == None;
    assert forall k :: 0 <= k < |w.table| && w.table[k].Some? ==> k == i;
    assert w.table[i].Some? && !Apart(w.table[i].value, CODE - 2, 4);
  }

  /** A clear whose restoring write fails. */
  lemma FailedRestoreBreaks()
    ensures !Overlaid(ClearSw(OneBreakpoint(), CODE, false).0, Code())
  {
    var i := OneBreakpointIs();
    RestoreKeepsOverlay(OneBreakpoint(), Code(), i, false);
    var b := OneBreakpoint().table[i].value;
    assert b.orig[..b.patchLen][1] == 0 && Patch(b.patchLen)[1] == 0xbe;
  }

  /** A step onto a user's breakpoint removes it. */
  lemma StepRemovesBreakpoint(tid: int)
    ensures var s := S.Sess(OneBreakpoint(), None, None, []);
            var p := S.BeginStep(s, tid, CODE, true, OK);
            && CODE in St.Slots(s.w.table) && Formed(p.w.table)
            && St.Slots(S.HandleBreak(p, CODE, tid, true, OK).0.w.table) != St.Slots(s.w.table)
  {
    var i := OneBreakpointIs();
    var s := S.Sess(OneBreakpoint(), None, None, []);
    assert forall k :: 0 <= k < |s.w.table| && s.w.table[k].Some? ==> k == i;
    St.FindInSlots(s.w.table, CODE);
    assert Mapped(s.w.mem, CODE, 4);
    assert S.BeginStep(s, tid, CODE, true, OK).w == s.w;
    St.StepTraceExactly(s, tid, CODE, true, OK, tid, OK);
  }

  // ---- next_pc

  /** MOV PC, R0 in Thumb state, to an address that is not a multiple of four. */
  lemma ThumbMovIsMasked(regs: A.RegContext, mem: M.Memory)
    requires regs.r[0] == CODE + 2
    ensures var insn := A.Insn(A.AL, A.MOV, A.Reg(15), A.Reg(0), A.Nothing, true, false);
            && A.EvalAlu(insn, regs) == Some(CODE + 2)
            && M.ALUWritePC(CODE + 2, true) == Some(M.Target(CODE + 2, true))
            && A.Execute(insn, CODE, regs, mem) == A.Next(M.Target(CODE, true))
  {
  }

  /** TBH reads entry 1 of a table at 0 from address 4, where the manual reads it from 2. */
  lemma SecondEntryMisread()
    ensures A.EntryAddress(A.TBH, 0, 1) == 4 && M.TableEntry(true, 0, 1) == 2
  {
  }

  // ---- Debug registers

  function SixArmed(): Hw {
    Hw([Register(1, BP_CONTROL), Register(2, BP_CONTROL), Register(3, BP_CONTROL), Register(4, BP_CONTROL),
        Register(5, BP_CONTROL), Register(6, BP_CONTROL)],
       [Some(1), Some(2), Some(3), Some(4), Some(5), Some(6)])
  }

  /** Six breakpoints, and a seventh that is reported as inserted. */
  lemma SeventhBreakpointClaimed()
    ensures Mirrors(SixArmed())
    ensures AddHw(SixArmed(), true, 7, true).1 && !Armed(AddHw(SixArmed(), true, 7, true).0, 7)
  {
    SixMirror();
    AddOverclaimsExactly(SixArmed(), true, 7, true);
  }

  lemma SixMirror()
    ensures Mirrors(SixArmed())
  {
    var h := SixArmed();
    assert |h.regs| == |h.table| == HW_SLOTS;
    assert forall i :: 0 <= i < HW_SLOTS ==> h.table[i] == Some(i + 1) && h.regs[i] == Register(i + 1, BP_CONTROL);
  }

  function OneArmed(): Hw {
    Hw([Register(4, BP_CONTROL), CLEARED, CLEARED, CLEARED, CLEARED, CLEARED], [Some(4), None, None, None, None, None])
  }

  /** clear_all with a failing call leaves a register armed that no slot knows of. */
  lemma FailedClearLeavesRegister()
    ensures Mirrors(OneArmed()) && !Mirrors(ClearAllHw(OneArmed(), [false, true, true, true, true, true]))
  {
    var calls := [false, true, true, true, true, true];
    HwStepKeepsMirror(OneArmed(), ClearAllOp(calls));
    assert OneArmed().table[0].Some? && !calls[0];
  }

  function OneWatch(): WatchUnit {
    WatchUnit([Register(8, WpControl(E.Write)), CLEARED, CLEARED], [Some(HwWatchpoint(8, E.Write)), None, None])
  }

  /** A second watchpoint of the same kind is reported as set, and watches nothing. */
  lemma SecondWatchClaimed()
    ensures WatchMirrors(OneWatch())
    ensures var (t, r) := SetWatch(OneWatch(), true, 12, E.Write, true);
            r == Ok(true) && !Watches(t, 12, E.Write)
  {
    FirstIsTaken();
    WatchOverclaimsExactly(OneWatch(), true, 12, E.Write, true);
  }

  /** One of another kind takes the register of the first away. */
  lemma SecondWatchTakesRegister()
    ensures !WatchMirrors(SetWatch(OneWatch(), true, 12, E.Read, true).0)
  {
    FirstIsTaken();
    SetWatchKeepsMirrorExactly(OneWatch(), true, 12, E.Read, true);
  }

  /** clear_all clears the register and keeps the slot. */
  lemma ClearAllKeepsWatchSlot()
    ensures !WatchMirrors(ClearAllWatch(OneWatch(), [true, true, true]))
  {
    FirstIsTaken();
    ClearAllWatchKeepsMirrorExactly(OneWatch(), [true, true, true]);
    assert OneWatch().table[0].Some?;
  }

  lemma FirstIsTaken()
    ensures WatchMirrors(OneWatch()) && FirstTaken(OneWatch().table) == Some(0)
  {
    assert OneWatch().table[0].Some?;
  }
}
