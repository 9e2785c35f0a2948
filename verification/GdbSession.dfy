/** The session object itself: slot arrays searched and updated in place, the step record, the exit mark and
    the exception ring (GdbSessionInner and clear_all in vita-gdb/src/gdb/sessions.rs, handle_break in
    vita-gdb/src/gdb/handlers.rs). Each method is tied to the function that specifies it.

    `mem` and `hwRegs` are the process's memory and debug registers, which the kernel calls act on. */
module GdbSession {
  import opened Words
  import opened Events
  import opened MpscRing
  import opened SlotTable
  import opened SwBreakpoints
  import opened HwBreakpoints
  import opened HwWatchpoints
  import S = Session

  /** Whether clear_all's calls succeed, register by register and software slot by software slot. */
  datatype ClearOutcomes = ClearOutcomes(bps: seq<bool>, wps: seq<bool>, sws: seq<bool>)

  predicate Sized(o: ClearOutcomes) {
    |o.bps| == HW_SLOTS && |o.wps| == WATCH_SLOTS && |o.sws| == SLOTS
  }

  /** The EV_WAKE_WORKER bit of a worker's event flag. */
  class EventFlag {
    var wakeWorker: bool

    method Set()
      modifies this
      ensures wakeWorker
    {
      wakeWorker := true;
    }
  }

  class GdbSessionInner {
    var pid: Option<int>
    var evflag: Option<EventFlag>
    const hwBreakpoints: array<Option<u32>>
    const hwWatchpoints: array<Option<HwWatchpoint>>
    const swBreakpoints: array<Option<SwBreakpoint>>
    var step: Option<(int, u32)>
    var stepResult: Option<int>
    var exited: bool
    const exceptions: MpscRing<ExceptionEvent>
    var mem: Memory
    var hwRegs: seq<Register>
    var wpRegs: seq<Register>

    ghost predicate Valid()
      reads this, hwBreakpoints, swBreakpoints, exceptions, exceptions.buf
    {
      && hwBreakpoints.Length == |hwRegs| == HW_SLOTS && swBreakpoints.Length == SLOTS
      && hwWatchpoints.Length == |wpRegs| == WATCH_SLOTS
      && exceptions.Valid() && exceptions.buf.Length == RING_ROOM + 1
      && Formed(swBreakpoints[..])
    }

    ghost function World(): World
      reads this, swBreakpoints
    {
      SwBreakpoints.World(mem, swBreakpoints[..])
    }

    ghost function Hardware(): Hw
      reads this, hwBreakpoints
    {
      Hw(hwRegs, hwBreakpoints[..])
    }

    ghost function Watchpoints(): WatchUnit
      reads this, hwWatchpoints
    {
      WatchUnit(wpRegs, hwWatchpoints[..])
    }

    ghost function View(): S.Sess
      reads this, hwBreakpoints, swBreakpoints, exceptions, exceptions.buf
      requires Valid()
    {
      S.Sess(World(), step, stepResult, exceptions.Contents())
    }

    constructor (mem: Memory, hwRegs: seq<Register>, wpRegs: seq<Register>)
      requires |hwRegs| == HW_SLOTS && |wpRegs| == WATCH_SLOTS
      ensures Valid() && pid == None && evflag == None && !exited && this.mem == mem
      ensures this.hwRegs == hwRegs && this.wpRegs == wpRegs
      ensures View() == S.Sess(SwBreakpoints.World(mem, seq(SLOTS, _ => None)), None, None, [])
      ensures forall i :: 0 <= i < HW_SLOTS ==> hwBreakpoints[i] == None
      ensures forall i :: 0 <= i < WATCH_SLOTS ==> hwWatchpoints[i] == None
    {
      pid, evflag, step, stepResult, exited := None, None, None, None, false;
      hwBreakpoints := new Option<u32>[HW_SLOTS](_ => None);
      hwWatchpoints := new Option<HwWatchpoint>[WATCH_SLOTS](_ => None);
      swBreakpoints := new Option<SwBreakpoint>[SLOTS](_ => None);
      exceptions := new MpscRing<ExceptionEvent>(8);
      this.mem := mem;
      this.hwRegs := hwRegs;
      this.wpRegs := wpRegs;
    }

    // ---- Software breakpoints

    method SetSwBreakpoint(addr: u32, kind: Kind, io: Io) returns (ok: bool)
      requires Valid()
      modifies this`mem, swBreakpoints
      ensures Valid()
      ensures pid.None? ==> !ok && World() == old(World())
      ensures pid.Some? ==> (World(), ok) == SetSw(old(World()), addr, kind, io)
    {
      if pid.None? || IsSharedAddress(addr) {
        return false;
      }
      var patchLen := if kind == Thumb16 then 2 else 4;
      if !io.readOk || !Mapped(mem, addr, patchLen) {
        return false;
      }
      var orig := BytesAt(mem, addr, patchLen);
      if patchLen == 2 {
        orig := orig + [0, 0];
      }

      var i := 0;
      while i < swBreakpoints.Length
        invariant 0 <= i <= swBreakpoints.Length
        invariant forall j :: 0 <= j < i && swBreakpoints[j].Some? ==> swBreakpoints[j].value.addr != addr
      {
        if swBreakpoints[i].Some? && swBreakpoints[i].value.addr == addr {
          return true;
        }
        i := i + 1;
      }

      i := 0;
      while i < swBreakpoints.Length && swBreakpoints[i].Some?
        invariant 0 <= i <= swBreakpoints.Length
        invariant forall j :: 0 <= j < i ==> swBreakpoints[j].Some?
      {
        i := i + 1;
      }
      if i == swBreakpoints.Length {
        return false;
      }
      assert FirstFree(swBreakpoints[..]) == Some(i);
      swBreakpoints[i] := Some(SwBreakpoint(addr, orig, patchLen));

      if io.writeOk {
        mem := WriteBytes(mem, addr, Patch(patchLen));
        assert World().table == old(World()).table[i := Some(NewSlot(old(mem), addr, kind))];
        return true;
      }
      swBreakpoints[i] := None;
      assert swBreakpoints[..] == old(swBreakpoints[..]);
      return false;
    }

    method RestoreSwSlot(i: nat, writeOk: bool) returns (ok: bool)
      requires Valid() && i < swBreakpoints.Length
      modifies this`mem, swBreakpoints
      ensures Valid()
      ensures old(swBreakpoints[i]).None? ==> ok && World() == old(World())
      ensures old(swBreakpoints[i]).Some? ==> (World(), ok) == RestoreSlot(old(World()), i, writeOk)
    {
      if swBreakpoints[i].None? {
        return true;
      }
      var slot := swBreakpoints[i].value;
      assert SlotFormed(swBreakpoints[..][i].value);
      swBreakpoints[i] := None;
      assert swBreakpoints[..] == old(swBreakpoints[..])[i := None];
      ok := writeOk && Mapped(mem, slot.addr, slot.patchLen);
      if ok {
        mem := WriteBytes(mem, slot.addr, slot.orig[..slot.patchLen]);
      }
    }

    method ClearSwBreakpoint(addr: u32, writeOk: bool) returns (ok: bool)
      requires Valid()
      modifies this`mem, swBreakpoints
      ensures Valid()
      ensures pid.None? ==> !ok && World() == old(World())
      ensures pid.Some? ==> (World(), ok) == ClearSw(old(World()), addr, writeOk)
    {
      if pid.None? {
        return false;
      }
      var i := 0;
      while i < swBreakpoints.Length
        invariant 0 <= i <= swBreakpoints.Length
        invariant forall j :: 0 <= j < i && swBreakpoints[j].Some? ==> swBreakpoints[j].value.addr != addr
        invariant Valid() && World() == old(World())
      {
        if swBreakpoints[i].Some? && swBreakpoints[i].value.addr == addr {
          assert Find(swBreakpoints[..], addr) == Some(i);
          ok := RestoreSwSlot(i, writeOk);
          return ok;
        }
        i := i + 1;
      }
      return false;
    }

    // ---- Hardware breakpoints

    method SetHwBreakpoint(debug: bool, addr: u32, callOk: bool) returns (r: HwResult)
      requires Valid() && (debug ==> pid.Some?)
      modifies this`hwRegs, hwBreakpoints
      ensures Valid() && (Hardware(), r) == SetHw(old(Hardware()), debug, addr, callOk)
    {
      if !debug {
        return Ok(false);
      }
      var i := 0;
      while i < hwBreakpoints.Length
        invariant 0 <= i <= hwBreakpoints.Length
        invariant forall j :: 0 <= j < i ==> hwBreakpoints[j] != Some(addr)
      {
        if hwBreakpoints[i] == Some(addr) {
          return Ok(true);
        }
        i := i + 1;
      }
      i := 0;
      while i < hwBreakpoints.Length
        invariant 0 <= i <= hwBreakpoints.Length
        invariant forall j :: 0 <= j < i ==> hwBreakpoints[j].Some?
      {
        if hwBreakpoints[i] == None {
          assert FirstFree(hwBreakpoints[..]) == Some(i);
          if !callOk {
            return Err;
          }
          hwRegs := hwRegs[i := Register(addr, BP_CONTROL)];
          hwBreakpoints[i] := Some(addr);
          assert hwBreakpoints[..] == old(hwBreakpoints[..])[i := Some(addr)];
          return Ok(true);
        }
        i := i + 1;
      }
      return Ok(false);
    }

    method ClearHwBreakpoint(debug: bool, addr: u32, callOk: bool) returns (r: HwResult)
      requires Valid() && (debug ==> pid.Some?)
      modifies this`hwRegs, hwBreakpoints
      ensures Valid() && (Hardware(), r) == ClearHw(old(Hardware()), debug, addr, callOk)
    {
      if !debug {
        return Ok(false);
      }
      var i := 0;
      while i < hwBreakpoints.Length
        invariant 0 <= i <= hwBreakpoints.Length
        invariant forall j :: 0 <= j < i ==> hwBreakpoints[j] != Some(addr)
      {
        if hwBreakpoints[i] == Some(addr) {
          assert FindHw(hwBreakpoints[..], addr) == Some(i);
          if !callOk {
            return Err;
          }
          hwRegs := hwRegs[i := CLEARED];
          hwBreakpoints[i] := None;
          assert hwBreakpoints[..] == old(hwBreakpoints[..])[i := None];
          return Ok(true);
        }
        i := i + 1;
      }
      return Ok(false);
    }

    // ---- Hardware watchpoints

    method SetHwWatchpoint(debug: bool, addr: u32, kind: WatchKind, callOk: bool) returns (r: HwResult)
      requires Valid() && (debug ==> pid.Some?)
      modifies this`wpRegs, hwWatchpoints
      ensures Valid() && (Watchpoints(), r) == SetWatch(old(Watchpoints()), debug, addr, kind, callOk)
    {
      if !debug {
        return Ok(false);
      }
      var i := 0;
      while i < hwWatchpoints.Length
        invariant 0 <= i <= hwWatchpoints.Length
        invariant forall j :: 0 <= j < i ==> hwWatchpoints[j] == None
      {
        if hwWatchpoints[i].Some? {
          assert FirstTaken(hwWatchpoints[..]) == Some(i);
          r := RekindWatchpoint(i, addr, kind, callOk);
          return;
        }
        i := i + 1;
      }
      assert FirstTaken(hwWatchpoints[..]) == None;
      r := TakeFreeWatchpoint(addr, kind, callOk);
    }

    /** The second scan of a set. */
    method TakeFreeWatchpoint(addr: u32, kind: WatchKind, callOk: bool) returns (r: HwResult)
      requires Valid()
      modifies this`wpRegs, hwWatchpoints
      ensures Valid()
      ensures var free := FirstFree(old(hwWatchpoints[..]));
              if free.None? then r == Ok(false) && Watchpoints() == old(Watchpoints())
              else if !callOk then r == Err && Watchpoints() == old(Watchpoints())
              else
                r == Ok(true)
                && Watchpoints() == WatchUnit(old(wpRegs)[free.value := Register(addr, WpControl(kind))],
                                              old(hwWatchpoints[..])[free.value := Some(HwWatchpoint(addr, kind))])
    {
      var i := 0;
      while i < hwWatchpoints.Length
        invariant 0 <= i <= hwWatchpoints.Length
        invariant forall j :: 0 <= j < i ==> hwWatchpoints[j].Some?
      {
        if hwWatchpoints[i] == None {
          assert FirstFree(hwWatchpoints[..]) == Some(i);
          if !callOk {
            return Err;
          }
          wpRegs := wpRegs[i := Register(addr, WpControl(kind))];
          hwWatchpoints[i] := Some(HwWatchpoint(addr, kind));
          return Ok(true);
        }
        i := i + 1;
      }
      return Ok(false);
    }

    /** What a set does with the slot its first scan stops at. */
    method RekindWatchpoint(i: nat, addr: u32, kind: WatchKind, callOk: bool) returns (r: HwResult)
      requires Valid() && i < hwWatchpoints.Length && hwWatchpoints[i].Some?
      modifies this`wpRegs, hwWatchpoints
      ensures Valid()
      ensures old(hwWatchpoints[i]).value.kind == kind ==> r == Ok(true) && Watchpoints() == old(Watchpoints())
      ensures old(hwWatchpoints[i]).value.kind != kind && !callOk ==> r == Err && Watchpoints() == old(Watchpoints())
      ensures old(hwWatchpoints[i]).value.kind != kind && callOk ==>
                r == Ok(true) && wpRegs == old(wpRegs)[i := Register(addr, WpControl(kind))]
                && hwWatchpoints[..] == old(hwWatchpoints[..])[i := Some(old(hwWatchpoints[i]).value.(kind := kind))]
    {
      var slot := hwWatchpoints[i].value;
      if slot.kind != kind {
        if !callOk {
          return Err;
        }
        wpRegs := wpRegs[i := Register(addr, WpControl(kind))];
        hwWatchpoints[i] := Some(slot.(kind := kind));
      }
      return Ok(true);
    }

    method ClearHwWatchpoint(debug: bool, addr: u32, callOk: bool) returns (r: HwResult)
      requires Valid() && (debug ==> pid.Some?)
      modifies this`wpRegs, hwWatchpoints
      ensures Valid() && (Watchpoints(), r) == ClearWatch(old(Watchpoints()), debug, addr, callOk)
    {
      if !debug {
        return Ok(false);
      }
      var i := 0;
      while i < hwWatchpoints.Length
        invariant 0 <= i <= hwWatchpoints.Length
        invariant forall j :: 0 <= j < i && hwWatchpoints[j].Some? ==> hwWatchpoints[j].value.addr != addr
      {
        if hwWatchpoints[i].Some? && hwWatchpoints[i].value.addr == addr {
          assert FindWatch(hwWatchpoints[..], addr) == Some(i);
          if !callOk {
            return Err;
          }
          wpRegs := wpRegs[i := CLEARED];
          hwWatchpoints[i] := None;
          assert hwWatchpoints[..] == old(hwWatchpoints[..])[i := None];
          return Ok(true);
        }
        i := i + 1;
      }
      return Ok(false);
    }

    // ---- Clearing everything

    /** The hardware breakpoints, the watchpoints, which keep their slots, and the software breakpoints. */
    method ClearAll(outcomes: ClearOutcomes)
      requires Valid() && Sized(outcomes)
      modifies this`hwRegs, hwBreakpoints, this`wpRegs, this`mem, swBreakpoints
      ensures Valid()
      ensures Hardware() == ClearAllHw(old(Hardware()), outcomes.bps)
      ensures Watchpoints() == ClearAllWatch(old(Watchpoints()), outcomes.wps)
      ensures World() == ClearFrom(old(World()), 0, outcomes.sws)
    {
      ClearHwSlots(outcomes.bps);
      ClearWatchRegs(outcomes.wps);
      assert World() == old(World());
      ClearSlots(outcomes.sws);
    }

    /** The first loop of clear_all. */
    method ClearHwSlots(calls: seq<bool>)
      requires Valid() && |calls| == HW_SLOTS
      modifies this`hwRegs, hwBreakpoints
      ensures Valid() && Hardware() == ClearAllHw(old(Hardware()), calls)
    {
      var i := 0;
      while i < hwBreakpoints.Length
        invariant 0 <= i <= hwBreakpoints.Length == |hwRegs|
        invariant forall j :: 0 <= j < |hwRegs| ==>
          hwRegs[j] == if j < i && old(hwBreakpoints[j]).Some? && calls[j] then CLEARED else old(hwRegs)[j]
        invariant forall j :: 0 <= j < |hwRegs| ==> hwBreakpoints[j] == if j < i then None else old(hwBreakpoints[j])
        modifies this`hwRegs, hwBreakpoints
      {
        if hwBreakpoints[i].Some? {
          if calls[i] {
            hwRegs := hwRegs[i := CLEARED];
          }
          hwBreakpoints[i] := None;
        }
        i := i + 1;
      }
      assert hwRegs == ClearAllHw(old(Hardware()), calls).regs;
      assert hwBreakpoints[..] == ClearAllHw(old(Hardware()), calls).table;
    }

    /** The second loop of clear_all. */
    method ClearWatchRegs(calls: seq<bool>)
      requires Valid() && |calls| == WATCH_SLOTS
      modifies this`wpRegs
      ensures Valid() && Watchpoints() == ClearAllWatch(old(Watchpoints()), calls)
    {
      var i := 0;
      while i < hwWatchpoints.Length
        invariant 0 <= i <= hwWatchpoints.Length == |wpRegs|
        invariant forall j :: 0 <= j < |wpRegs| ==>
          wpRegs[j] == if j < i && hwWatchpoints[j].Some? && calls[j] then CLEARED else old(wpRegs)[j]
        modifies this`wpRegs
      {
        if hwWatchpoints[i].Some? && calls[i] {
          wpRegs := wpRegs[i := CLEARED];
        }
        i := i + 1;
      }
      assert wpRegs == ClearAllWatch(old(Watchpoints()), calls).regs;
    }

    /** The third loop of clear_all. */
    method ClearSlots(writes: seq<bool>)
      requires Valid() && |writes| == SLOTS
      modifies this`mem, swBreakpoints
      ensures Valid()
      ensures World() == ClearFrom(old(World()), 0, writes)
    {
      var i := 0;
      while i < swBreakpoints.Length
        invariant 0 <= i <= swBreakpoints.Length
        invariant Valid()
        invariant ClearFrom(World(), i, writes) == ClearFrom(old(World()), 0, writes)
        modifies this`mem, swBreakpoints
      {
        if swBreakpoints[i].Some? {
          var _ := RestoreSwSlot(i, writes[i]);
        }
        i := i + 1;
      }
    }

    // ---- Events

    method PushExcp(event: ExceptionEvent)
      requires Valid()
      modifies exceptions.buf, exceptions`head, if evflag.Some? then {evflag.value} else {}
      ensures Valid()
      ensures evflag.None? ==> View() == old(View())
      ensures evflag.Some? ==> evflag.value.wakeWorker && View() == S.PushExcp(old(View()), event)
    {
      if evflag.None? {
        return;
      }
      var _ := exceptions.Push(event);
      evflag.value.Set();
    }

    method PopExcp() returns (event: Option<ExceptionEvent>)
      requires Valid()
      modifies exceptions`tail
      ensures Valid()
      ensures event == if old(View()).ring == [] then None else Some(old(View()).ring[0])
      ensures View() == old(View()).(ring := if old(View()).ring == [] then [] else old(View()).ring[1..])
    {
      event := exceptions.Pop();
    }

    method HasExcp() returns (pending: bool)
      requires Valid()
      ensures pending <==> View().ring != []
    {
      var n := exceptions.Len();
      pending := n > 0;
    }

    method PushExited()
      requires Valid()
      modifies this`exited, if evflag.Some? then {evflag.value} else {}
      ensures Valid() && View() == old(View())
      ensures exited == (old(exited) || evflag.Some?)
      ensures evflag.Some? ==> evflag.value.wakeWorker
    {
      if evflag.None? {
        return;
      }
      exited := true;
      evflag.value.Set();
    }

    method PopExited() returns (was: bool)
      requires Valid()
      modifies this`exited
      ensures Valid() && View() == old(View()) && was == old(exited) && !exited
    {
      was, exited := exited, false;
    }

    // ---- Stepping

    method SetStep(tid: int, addr: u32)
      requires Valid()
      modifies this`step
      ensures Valid() && View() == old(View()).(step := Some((tid, addr)))
    {
      step := Some((tid, addr));
    }

    method IsStep(addr: u32) returns (yes: bool)
      requires Valid()
      ensures yes == S.IsStep(View(), addr)
    {
      yes := step.Some? && step.value.1 == addr;
    }

    /** The source unwraps the event flag once there was a step to finish: it panics exactly when there was one
        and no event flag. */
    method StepFinished(writeOk: bool) returns (panicked: bool)
      requires Valid()
      modifies this`step, this`stepResult, this`mem, swBreakpoints, if evflag.Some? then {evflag.value} else {}
      ensures Valid()
      ensures View() == if pid.Some? then S.StepFinished(old(View()), writeOk)
                        else S.StepFinishedUnattached(old(View()))
      ensures panicked <==> old(step).Some? && evflag.None?
      ensures old(step).Some? && evflag.Some? ==> evflag.value.wakeWorker
    {
      if step.None? {
        return false;
      }
      var (tid, addr) := step.value;
      step := None;
      var _ := ClearSwBreakpoint(addr, writeOk);
      stepResult := Some(tid);
      if evflag.None? {
        return true;
      }
      evflag.value.Set();
      return false;
    }

    method PopStepFinished() returns (tid: Option<int>)
      requires Valid()
      modifies this`stepResult
      ensures Valid() && (View(), tid) == S.PopStepFinished(old(View()))
    {
      tid, stepResult := stepResult, None;
    }

    /** handle_break, once the session has been found by its pid. */
    method HandleBreak(addr: u32, tid: int, thumb: bool, io: Io) returns (handled: bool, panicked: bool)
      requires Valid() && pid.Some?
      modifies this`step, this`stepResult, this`mem, swBreakpoints, exceptions.buf, exceptions`head
      modifies if evflag.Some? then {evflag.value} else {}
      ensures Valid() && handled == S.HandleBreak(old(View()), addr, tid, thumb, io).1
      // an event without an event flag is dropped, and the end of a step panics
      ensures panicked <==> handled && S.IsStep(old(View()), addr) && evflag.None?
      ensures View() == if handled && evflag.None? && !S.IsStep(old(View()), addr) then old(View())
                        else S.HandleBreak(old(View()), addr, tid, thumb, io).0
      ensures handled && evflag.Some? ==> evflag.value.wakeWorker
    {
      panicked := false;
      if !io.readOk || !Mapped(mem, addr, 4) {
        return false, false;
      }
      var insn := BytesAt(mem, addr, 4);
      var isStep := IsStep(addr);
      if isStep {
        panicked := StepFinished(io.writeOk);
      } else if S.IsBkpt(insn, thumb) {
        PushExcp(SwBreak(tid));
      } else {
        PushExcp(HwBreak(tid));
      }
      handled := true;
    }

    // ---- Reset

    /** Everything but the step result, the process memory and the debug registers is cleared. */
    method Reset()
      requires Valid()
      modifies this`pid, this`evflag, this`step, this`exited, hwBreakpoints, hwWatchpoints, swBreakpoints,
               exceptions`tail
      modifies if evflag.Some? then {evflag.value} else {}
      ensures Valid() && pid == None && evflag == None && !exited
      ensures View() == S.Sess(SwBreakpoints.World(old(mem), seq(SLOTS, _ => None)), None, old(stepResult), [])
      ensures Hardware() == Hw(old(hwRegs), seq(HW_SLOTS, _ => None))
      ensures Watchpoints() == WatchUnit(old(wpRegs), seq(WATCH_SLOTS, _ => None))
      ensures old(evflag).Some? ==> !old(evflag).value.wakeWorker
    {
      if evflag.Some? {
        evflag.value.wakeWorker := false;
        evflag := None;
      }
      FillTables();
      step := None;
      exited := false;
      var _ := exceptions.Clear();
      pid := None;
    }

    /** Every slot of the three tables is emptied. */
    method FillTables()
      requires Valid()
      modifies hwBreakpoints, hwWatchpoints, swBreakpoints
      ensures Valid() && exceptions.Contents() == old(exceptions.Contents())
      ensures swBreakpoints[..] == seq(SLOTS, _ => None)
      ensures hwBreakpoints[..] == seq(HW_SLOTS, _ => None)
      ensures hwWatchpoints[..] == seq(WATCH_SLOTS, _ => None)
    {
      forall i | 0 <= i < hwBreakpoints.Length {
        hwBreakpoints[i] := None;
      }
      forall i | 0 <= i < hwWatchpoints.Length {
        hwWatchpoints[i] := None;
      }
      forall i | 0 <= i < swBreakpoints.Length {
        swBreakpoints[i] := None;
      }
    }
  }
}
