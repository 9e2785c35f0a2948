/** Hardware breakpoints: the six-slot table and the debug registers it stands for
    (set_hw_breakpoint, clear_hw_breakpoint and the first loop of clear_all in vita-gdb/src/gdb/sessions.rs).
    Each kernel call takes its outcome as a parameter; a failed call leaves its register as it was. */
module HwBreakpoints {
  import opened Words
  import opened SlotTable

  const HW_SLOTS := 6

  /** The word bp_control builds. */
  const BP_CONTROL: bv32 := (1 << 0) | (3 << 1) | (0xF << 5) | (1 << 14)

  datatype Register = Register(value: u32, control: bv32)

  const CLEARED := Register(0, 0)

  type HwTable = seq<Option<u32>>

  datatype Hw = Hw(regs: seq<Register>, table: HwTable)

  datatype HwResult = Ok(found: bool) | Err

  function FindHw(table: HwTable, addr: u32): (r: Option<nat>)
    ensures r.Some? ==> r.value < |table| && table[r.value] == Some(addr)
    ensures r.Some? ==> forall j :: 0 <= j < r.value ==> table[j] != Some(addr)
    ensures r.None? ==> forall j :: 0 <= j < |table| ==> table[j] != Some(addr)
  {
    if table == [] then None
    else if table[0] == Some(addr) then Some(0)
    else Later(table, FindHw(table[1..], addr))
  }

  function SetHw(h: Hw, debug: bool, addr: u32, callOk: bool): (Hw, HwResult)
    requires |h.regs| == |h.table|
  {
    if !debug then (h, Ok(false))
    else if FindHw(h.table, addr).Some? then (h, Ok(true))
    else
      var free := FirstFree(h.table);
      if free.None? then (h, Ok(false))
      else if !callOk then (h, Err)
      else
        (Hw(h.regs[free.value := Register(addr, BP_CONTROL)], h.table[free.value := Some(addr)]), Ok(true))
  }

  function ClearHw(h: Hw, debug: bool, addr: u32, callOk: bool): (Hw, HwResult)
    requires |h.regs| == |h.table|
  {
    if !debug then (h, Ok(false))
    else
      var found := FindHw(h.table, addr);
      if found.None? then (h, Ok(false))
      else if !callOk then (h, Err)
      else (Hw(h.regs[found.value := CLEARED], h.table[found.value := None]), Ok(true))
  }

  /** clear_all's loop: a failed call is ignored and the slot is emptied all the same. */
  function ClearAllHw(h: Hw, calls: seq<bool>): Hw
    requires |h.regs| == |h.table| == |calls|
  {
    Hw(seq(|h.regs|, i requires 0 <= i < |h.regs| => if h.table[i].Some? && calls[i] then CLEARED else h.regs[i]),
       seq(|h.table|, i => None))
  }

  /** add_hw_breakpoint's answer to the debugger: anything but an error is success
      (vita-gdb/src/gdb/target.rs). */
  function AddHw(h: Hw, debug: bool, addr: u32, callOk: bool): (Hw, bool)
    requires |h.regs| == |h.table|
  {
    var (t, r) := SetHw(h, debug, addr, callOk);
    (t, r.Ok?)
  }

  predicate Armed(h: Hw, addr: u32) {
    FindHw(h.table, addr).Some?
  }

  /** Register i holds (address, control) when slot i is occupied and (0, 0) otherwise, and no address is
      armed twice. */
  predicate Mirrors(h: Hw) {
    && |h.regs| == |h.table| == HW_SLOTS
    && (forall i :: 0 <= i < |h.table| ==>
         h.regs[i] == if h.table[i].Some? then Register(h.table[i].value, BP_CONTROL) else CLEARED)
    && (forall i, j :: 0 <= i < j < |h.table| && h.table[i].Some? ==> h.table[i] != h.table[j])
  }

  datatype HwOp =
    | SetOp(debug: bool, addr: u32, callOk: bool)
    | ClearOp(debug: bool, addr: u32, callOk: bool)
    | ClearAllOp(calls: seq<bool>)

  function ApplyHw(h: Hw, op: HwOp): Hw
    requires |h.regs| == |h.table| && (op.ClearAllOp? ==> |op.calls| == |h.table|)
  {
    match op
    case SetOp(debug, addr, callOk) => SetHw(h, debug, addr, callOk).0
    case ClearOp(debug, addr, callOk) => ClearHw(h, debug, addr, callOk).0
    case ClearAllOp(calls) => ClearAllHw(h, calls)
  }

  /** Set and clear keep registers and table together whether or not their kernel calls fail. clear_all does
      exactly when no call that had a register to clear fails. */
  lemma HwStepKeepsMirror(h: Hw, op: HwOp)
    requires Mirrors(h) && (op.ClearAllOp? ==> |op.calls| == HW_SLOTS)
    ensures Mirrors(ApplyHw(h, op))
            <==> op.ClearAllOp? ==> forall i :: 0 <= i < HW_SLOTS && h.table[i].Some? ==> op.calls[i]
  {
    var t := ApplyHw(h, op);
    if op.ClearAllOp? && exists i :: 0 <= i < HW_SLOTS && h.table[i].Some? && !op.calls[i] {
      var i :| 0 <= i < HW_SLOTS && h.table[i].Some? && !op.calls[i];
      assert t.regs[i] == h.regs[i] && t.table[i] == None;
      assert BP_CONTROL != 0;
    }
  }

  ghost predicate HwRun(h: Hw, ops: seq<HwOp>, t: Hw)
    decreases |ops|
  {
    if ops == [] then t == h
    else
      && |h.regs| == |h.table| && (ops[0].ClearAllOp? ==> |ops[0].calls| == |h.table|)
      && HwRun(ApplyHw(h, ops[0]), ops[1..], t)
  }

  lemma {:induction false} HwRunKeepsMirror(h: Hw, ops: seq<HwOp>, t: Hw)
    requires Mirrors(h) && HwRun(h, ops, t)
    requires forall k :: 0 <= k < |ops| ==>
      ops[k].ClearAllOp? ==> forall i :: 0 <= i < |ops[k].calls| ==> ops[k].calls[i]
    ensures Mirrors(t)
    decreases |ops|
  {
    if ops != [] {
      HwStepKeepsMirror(h, ops[0]);
      HwRunKeepsMirror(ApplyHw(h, ops[0]), ops[1..], t);
    }
  }

  /** With debug enabled and a kernel call that succeeds, a set answers false exactly when the address is
      absent and every slot is taken; otherwise the address is armed. */
  lemma SetRefusedExactly(h: Hw, addr: u32, callOk: bool)
    requires Mirrors(h)
    ensures callOk ==> (SetHw(h, true, addr, callOk).1 == Ok(false)
            <==> !Armed(h, addr) && forall i :: 0 <= i < HW_SLOTS ==> h.table[i].Some?)
    ensures SetHw(h, true, addr, callOk).1 == Ok(true) ==> Armed(SetHw(h, true, addr, callOk).0, addr)
    ensures SetHw(h, true, addr, callOk).1 == Ok(false) ==> !Armed(SetHw(h, true, addr, callOk).0, addr)
  {
    var t := SetHw(h, true, addr, callOk).0;
    if t != h {
      assert t.table[FirstFree(h.table).value] == Some(addr);
    }
  }

  /** The debugger is told that a breakpoint was inserted although none was, exactly when debug is off or
      the table is full without it. */
  lemma AddOverclaimsExactly(h: Hw, debug: bool, addr: u32, callOk: bool)
    requires Mirrors(h)
    ensures var (t, told) := AddHw(h, debug, addr, callOk);
            told && !Armed(t, addr)
            <==> !Armed(h, addr) && (!debug || forall i :: 0 <= i < HW_SLOTS ==> h.table[i].Some?)
  {
    var (t, told) := AddHw(h, debug, addr, callOk);
    if t != h {
      assert t.table[FirstFree(h.table).value] == Some(addr);
    }
  }

  // ---- What each call does, slot by slot

  /** Slot i is the one for addr. */
  predicate IsFor(h: Hw, i: nat, addr: u32) {
    i < |h.table| && h.table[i] == Some(addr)
  }

  /** A clear whose call succeeds clears register and slot of the address, and only those, and answers true; it
      answers false, and an error, when there is nothing to clear, and when the call fails, and then changes
      nothing. */
  lemma ClearHwExactly(h: Hw, debug: bool, addr: u32, callOk: bool)
    requires Mirrors(h)
    ensures var (t, r) := ClearHw(h, debug, addr, callOk);
            && (r == Ok(true) <==> debug && callOk && Armed(h, addr))
            && (r == Err <==> debug && !callOk && Armed(h, addr))
            && (r != Ok(true) ==> t == h)
            && |t.regs| == |t.table| == HW_SLOTS && (r == Ok(true) ==> !Armed(t, addr))
            && forall i: nat :: i < HW_SLOTS ==>
                 if IsFor(h, i, addr) && r == Ok(true) then t.regs[i] == Register(0, 0) && t.table[i] == None
                 else t.regs[i] == h.regs[i] && t.table[i] == h.table[i]
  {
    var (t, r) := ClearHw(h, debug, addr, callOk);
    if r == Ok(true) {
      var found := FindHw(h.table, addr).value;
      forall j | 0 <= j < HW_SLOTS ensures t.table[j] != Some(addr) {
        assert j != found && h.table[j].Some? ==> h.table[j] != h.table[found];
      }
    }
  }

  /** A set arms one slot that was free, and its register, and only those; an address that is armed already, a
      full table, a failed call and debug being off change nothing. */
  lemma SetHwExactly(h: Hw, debug: bool, addr: u32, callOk: bool)
    requires Mirrors(h)
    ensures var (t, r) := SetHw(h, debug, addr, callOk);
            var full := forall i :: 0 <= i < HW_SLOTS ==> h.table[i].Some?;
            && (r == Ok(true) <==> debug && (Armed(h, addr) || (!full && callOk)))
            && (r == Err <==> debug && !Armed(h, addr) && !full && !callOk)
            && (t == h <==> !debug || Armed(h, addr) || full || !callOk)
            && (t != h ==> exists i: nat :: i < HW_SLOTS && h.table[i] == None
                             && t == Hw(h.regs[i := Register(addr, BP_CONTROL)], h.table[i := Some(addr)]))
  {
    var t := SetHw(h, debug, addr, callOk).0;
    var free := FirstFree(h.table);
    if debug && !Armed(h, addr) && free.Some? && callOk {
      assert t.table[free.value] == Some(addr);
    }
  }

  lemma ClearHwUndoesSet(h: Hw, addr: u32)
    requires Mirrors(h) && !Armed(h, addr) && exists i :: 0 <= i < HW_SLOTS && h.table[i] == None
    ensures ClearHw(SetHw(h, true, addr, true).0, true, addr, true) == (h, Ok(true))
  {
    var t, i := SetHw(h, true, addr, true).0, FirstFree(h.table).value;
    assert t.table[i] == Some(addr) && forall j :: 0 <= j < HW_SLOTS && j != i ==> t.table[j] == h.table[j];
    assert FindHw(t.table, addr) == Some(i);
    assert t.regs[i := CLEARED] == h.regs && t.table[i := None] == h.table;
  }

  /** The control word by its fields in DBGBCR (chapter C11 of ARM DDI 0406C): enabled (bit 0), PMC 3 (bits 1 and
      2), all four bytes of the word (BAS, bits 5 to 8), SSC 1 (bits 14 and 15), and nothing else. */
  lemma ControlFields()
    ensures BP_CONTROL & 1 == 1 && (BP_CONTROL >> 1) & 3 == 3 && (BP_CONTROL >> 5) & 0xF == 0xF
    ensures (BP_CONTROL >> 14) & 3 == 1 && BP_CONTROL & 0xFFFF_3E18 == 0
  {
  }
}
