/** The debug target: resume actions, resume and its single step, and detaching from a process
    (vita-gdb/src/gdb/target.rs, vita-gdb/src/gdb/multi_thread.rs). */
module Target {
  import opened Words
  import opened Events
  import opened SwBreakpoints
  import opened SwOverlay
  import opened HwBreakpoints
  import opened HwWatchpoints
  import opened GdbSession
  import S = Session
  import A = ArmNextPc
  import T = StepTarget

  const MAX_ACTIONS := 64

  datatype Status = Suspend | Run

  /** One call that changes a thread's suspend status. */
  datatype StatusCall = StatusCall(tid: int, status: Status)

  datatype ResumeResult = Done | Failed | Panicked

  /** Without the scheduler lock every thread runs; with it only the stepped and the continued ones. */
  function StatusOf(tid: int, step: Option<int>, continued: seq<int>, lock: bool): Status {
    if !lock || step == Some(tid) || tid in continued then Run else Suspend
  }

  function StatusCalls(threads: seq<int>, step: Option<int>, continued: seq<int>, lock: bool): seq<StatusCall> {
    seq(|threads|, i requires 0 <= i < |threads| => StatusCall(threads[i], StatusOf(threads[i], step, continued, lock)))
  }

  /** Call k is for thread k, and lets it run exactly when the scheduler lock is off or the debugger asked for
      this thread to step or to continue. */
  predicate RunsExactly(threads: seq<int>, calls: seq<StatusCall>, step: Option<int>, continued: seq<int>, lock: bool) {
    && |calls| <= |threads|
    && forall k :: 0 <= k < |calls| ==>
         && calls[k].tid == threads[k]
         && (calls[k].status == Run <==> !lock || step == Some(threads[k]) || threads[k] in continued)
  }

  predicate Distinct(threads: seq<int>) {
    forall i, j :: 0 <= i < j < |threads| ==> threads[i] != threads[j]
  }

  predicate AllTrue(calls: seq<bool>) {
    forall k :: 0 <= k < |calls| ==> calls[k]
  }

  lemma NotBefore(threads: seq<int>, i: nat)
    requires Distinct(threads) && i < |threads|
    ensures threads[i] !in threads[..i]
    ensures threads[..i + 1] == threads[..i] + [threads[i]]
  {
  }

  class VitaTarget {
    var session: Option<GdbSessionInner>
    var detached: bool
    var stepAction: Option<int>
    var continueActions: seq<int>
    var schedulerLock: bool

    constructor ()
      ensures session == None && !detached && stepAction == None && continueActions == [] && !schedulerLock
    {
      session, detached, stepAction, continueActions, schedulerLock := None, false, None, [], false;
    }

    method ClearResumeActions()
      modifies this`stepAction, this`continueActions, this`schedulerLock
      ensures stepAction == None && continueActions == [] && !schedulerLock
    {
      stepAction, continueActions, schedulerLock := None, [], false;
    }

    method SetResumeActionContinue(tid: int, signal: bool) returns (ok: bool)
      modifies this`continueActions
      ensures ok <==> !signal && |old(continueActions)| < MAX_ACTIONS
      ensures continueActions == if ok then old(continueActions) + [tid] else old(continueActions)
    {
      if signal || |continueActions| >= MAX_ACTIONS {
        return false;
      }
      continueActions := continueActions + [tid];
      return true;
    }

    method SetResumeActionStep(tid: int, signal: bool) returns (ok: bool)
      modifies this`stepAction
      ensures ok <==> !signal
      ensures stepAction == if ok then Some(tid) else old(stepAction)
    {
      if signal {
        return false;
      }
      stepAction := Some(tid);
      return true;
    }

    /** `threads` is the process's thread list, `regs` the registers of the thread to step (None when they
        cannot be read), `io` the outcome of planting its breakpoint. `calls` are the status changes made; the
        process is resumed exactly when the result is Done. */
    method Resume(suspended: bool, threads: seq<int>, regs: Option<A.RegContext>, decode: A.Decoder, io: Io)
      returns (result: ResumeResult, calls: seq<StatusCall>, resumed: bool)
      requires session.Some? ==> session.value.Valid()
      requires Distinct(threads)
      modifies this`stepAction
      modifies if session.Some?
               then {session.value, session.value.swBreakpoints, session.value.exceptions, session.value.exceptions.buf}
               else {}
      ensures session.Some? ==> session.value.Valid()
      // a process that is gone, or runs already, or has an exception waiting to be reported, is left alone
      ensures old(session.None? || session.value.pid.None? || !suspended
                  || (session.value.View().ring != [] && stepAction.None?)) ==>
        result == Done && !resumed && calls == [] && stepAction == old(stepAction)
        && (session.Some? ==> session.value.View() == old(session.value.View()))
      // otherwise every thread gets its status, and a step plants its breakpoint where next_pc says
      ensures old(session.Some? && session.value.pid.Some? && suspended
                  && (session.value.View().ring == [] || stepAction.Some?)) ==>
        var stepped := old(stepAction).Some? && old(stepAction).value in threads;
        var target := T.TargetOf(old(session.value.View()).w.mem, regs, decode);
        var all := StatusCalls(threads, old(stepAction), continueActions, schedulerLock);
        && resumed == (result == Done)
        && result == (if stepped && target.Fails? then Failed else if stepped && target.Panics? then Panicked else Done)
        && stepAction == (if stepped then None else old(stepAction))
        && (if resumed then calls == all
            else calls < all && |calls| < |threads| && threads[|calls|] == old(stepAction).value)
        && RunsExactly(threads, calls, old(stepAction), continueActions, schedulerLock)
        && session.value.View()
           == (if stepped && target.Goes?
               then S.BeginStep(old(session.value.View()), old(stepAction).value, target.addr, target.thumb, io)
               else old(session.value.View()))
    {
      if session.None? || session.value.pid.None? || !suspended {
        return Done, [], false;
      }
      var inner := session.value;
      var pending := inner.HasExcp();
      if pending && stepAction.None? {
        return Done, [], false;
      }
      result, calls := SetStatuses(inner, threads, mem => T.TargetOf(mem, regs, decode), io);
      resumed := result == Done;
    }

    /** The loop of resume over the threads of the process. `next` says where the stepped thread goes from
        the memory it finds. */
    method SetStatuses(inner: GdbSessionInner, threads: seq<int>, next: Memory -> T.Outcome, io: Io)
      returns (result: ResumeResult, calls: seq<StatusCall>)
      requires inner.Valid() && inner.pid.Some? && Distinct(threads)
      modifies this`stepAction, inner, inner.swBreakpoints
      ensures inner.Valid()
      ensures
        var stepped := old(stepAction).Some? && old(stepAction).value in threads;
        var target := next(old(inner.mem));
        var all := StatusCalls(threads, old(stepAction), continueActions, schedulerLock);
        && result == (if stepped && target.Fails? then Failed else if stepped && target.Panics? then Panicked else Done)
        && stepAction == (if stepped then None else old(stepAction))
        && (if result == Done then calls == all
            else calls < all && |calls| < |threads| && threads[|calls|] == old(stepAction).value)
        && inner.View()
           == (if stepped && target.Goes?
               then S.BeginStep(old(inner.View()), old(stepAction).value, target.addr, target.thumb, io)
               else old(inner.View()))
    {
      calls := [];
      ghost var all := StatusCalls(threads, stepAction, continueActions, schedulerLock);
      ghost var before, stepped := inner.View(), false;
      ghost var where := next(inner.mem);
      for i := 0 to |threads|
        invariant calls == all[..i]
        invariant inner.Valid() && inner.pid.Some?
        invariant stepped <==> old(stepAction).Some? && old(stepAction).value in threads[..i]
        invariant stepped ==>
          stepAction == None && where.Goes?
          && inner.View() == S.BeginStep(before, old(stepAction).value, where.addr, where.thumb, io)
        invariant !stepped ==> stepAction == old(stepAction) && inner.View() == before
      {
        var tid := threads[i];
        NotBefore(threads, i);
        var status := if schedulerLock then Suspend else Run;
        if stepAction == Some(tid) {
          stepAction := None;
          status := Run;
          stepped := true;
          var target := StepThread(inner, tid, next, io);
          if !target.Goes? {
            return if target.Fails? then Failed else Panicked, calls;
          }
        }
        if tid in continueActions {
          status := Run;
        }
        assert all[i] == StatusCall(tid, status);
        calls := calls + [StatusCall(tid, status)];
      }
      assert threads[..|threads|] == threads && all[..|threads|] == all;
      return Done, calls;
    }

    /** The step of one thread: find its target in the memory as it is, and plant the breakpoint there. */
    static method StepThread(inner: GdbSessionInner, tid: int, next: Memory -> T.Outcome, io: Io)
      returns (target: T.Outcome)
      requires inner.Valid() && inner.pid.Some?
      modifies inner`mem, inner`step, inner.swBreakpoints
      ensures inner.Valid() && target == next(old(inner.mem))
      ensures inner.View()
              == if target.Goes? then S.BeginStep(old(inner.View()), tid, target.addr, target.thumb, io)
                 else old(inner.View())
    {
      target := next(inner.mem);
      if target.Goes? {
        PlantStep(inner, tid, target.addr, target.thumb, io);
      }
    }

    static method PlantStep(inner: GdbSessionInner, tid: int, addr: u32, thumb: bool, io: Io)
      requires inner.Valid() && inner.pid.Some?
      modifies inner`mem, inner`step, inner.swBreakpoints
      ensures inner.Valid() && inner.View() == S.BeginStep(old(inner.View()), tid, addr, thumb, io)
    {
      var _ := inner.SetSwBreakpoint(addr, if thumb then Thumb16 else Arm32, io);
      inner.SetStep(tid, addr);
    }

    /** Detaching clears everything, resumes the process, and drops the session, which clears and resets it
        again. `meanwhile` is what the process makes of its memory once it runs; `atResume` is the memory it
        is resumed with. A session without a pid has no process to resume, and without a session nothing
        happens. */
    method Detach(first: ClearOutcomes, meanwhile: Memory, second: ClearOutcomes, ghost clean: Memory)
      returns (atResume: Option<Memory>)
      requires session.Some? ==> session.value.Valid()
      requires Sized(first) && Sized(second)
      modifies this
      modifies if session.Some?
               then {session.value, session.value.hwBreakpoints, session.value.hwWatchpoints,
                     session.value.swBreakpoints, session.value.exceptions}
               else {}
      modifies if session.Some? && session.value.evflag.Some? then {session.value.evflag.value} else {}
      ensures session == None && detached == (old(detached) || old(session).Some?)
      ensures atResume.Some? <==> old(session).Some?
      ensures old(session).Some? ==>
        var inner := old(session).value;
        && inner.Valid() && inner.pid == None && inner.evflag == None
        && inner.mem == (if old(session.value.pid).Some? then meanwhile else atResume.value)
        && (old(Overlaid(inner.World(), clean)) && AllTrue(first.sws) ==> atResume == Some(clean))
        && (old(Mirrors(inner.Hardware())) && AllTrue(first.bps) ==> inner.hwRegs == seq(HW_SLOTS, _ => CLEARED))
        && (old(WatchMirrors(inner.Watchpoints())) && AllTrue(first.wps) ==>
              inner.wpRegs == seq(WATCH_SLOTS, _ => CLEARED))
    {
      if session.None? {
        return None;
      }
      var inner := session.value;
      session := None;
      var mem := Leave(inner, first, meanwhile, second, clean);
      detached := true;
      return Some(mem);
    }

    /** clear_all, resume, and the drop of the session. */
    static method Leave(
      inner: GdbSessionInner, first: ClearOutcomes, meanwhile: Memory, second: ClearOutcomes, ghost clean: Memory)
      returns (atResume: Memory)
      requires inner.Valid() && Sized(first) && Sized(second)
      modifies inner, inner.hwBreakpoints, inner.hwWatchpoints, inner.swBreakpoints, inner.exceptions
      modifies if inner.evflag.Some? then {inner.evflag.value} else {}
      ensures inner.Valid() && inner.pid == None && inner.evflag == None
      ensures inner.mem == if old(inner.pid).Some? then meanwhile else atResume
      ensures Overlaid(old(inner.World()), clean) && AllTrue(first.sws) ==> atResume == clean
      ensures Mirrors(old(inner.Hardware())) && AllTrue(first.bps) ==> inner.hwRegs == seq(HW_SLOTS, _ => CLEARED)
      ensures WatchMirrors(old(inner.Watchpoints())) && AllTrue(first.wps) ==>
                inner.wpRegs == seq(WATCH_SLOTS, _ => CLEARED)
    {
      atResume := Stop(inner, first, clean);
      if inner.pid.Some? {
        inner.mem := meanwhile;
      }
      Drop(inner, second);
    }

    /** detach's own clear_all. */
    static method Stop(inner: GdbSessionInner, outcomes: ClearOutcomes, ghost clean: Memory)
      returns (atResume: Memory)
      requires inner.Valid() && Sized(outcomes)
      modifies inner`hwRegs, inner.hwBreakpoints, inner`wpRegs, inner`mem, inner.swBreakpoints
      ensures inner.Valid() && atResume == inner.mem
      ensures forall k :: 0 <= k < SLOTS ==> inner.swBreakpoints[k] == None
      ensures forall k :: 0 <= k < HW_SLOTS ==> inner.hwBreakpoints[k] == None
      ensures Overlaid(old(inner.World()), clean) && AllTrue(outcomes.sws) ==> atResume == clean
      ensures Mirrors(old(inner.Hardware())) && AllTrue(outcomes.bps) ==> inner.hwRegs == seq(HW_SLOTS, _ => CLEARED)
      ensures WatchMirrors(old(inner.Watchpoints())) && AllTrue(outcomes.wps) ==>
                inner.wpRegs == seq(WATCH_SLOTS, _ => CLEARED)
    {
      ghost var was, hw, watch := inner.World(), inner.Hardware(), inner.Watchpoints();
      inner.ClearAll(outcomes);
      atResume := inner.mem;
      if Overlaid(was, clean) {
        ClearAllRestores(was, clean, outcomes.sws);
      }
      ClearAllEmpties(was, 0, outcomes.sws);
      assert inner.World().table == inner.swBreakpoints[..];
      assert inner.Hardware().table == inner.hwBreakpoints[..];
      if Mirrors(hw) && AllTrue(outcomes.bps) {
        AllCleared(hw, outcomes.bps);
      }
      if WatchMirrors(watch) {
        ClearAllWatchKeepsMirrorExactly(watch, outcomes.wps);
      }
    }

    static lemma AllCleared(h: Hw, calls: seq<bool>)
      requires Mirrors(h) && |calls| == HW_SLOTS && AllTrue(calls)
      ensures ClearAllHw(h, calls).regs == seq(HW_SLOTS, _ => CLEARED)
    {
    }

    /** Dropping the session: clear_all once more, which now writes no memory and no breakpoint register and can
        only clear watchpoint registers, and reset. */
    static method Drop(inner: GdbSessionInner, outcomes: ClearOutcomes)
      requires inner.Valid() && Sized(outcomes)
      requires forall k :: 0 <= k < SLOTS ==> inner.swBreakpoints[k] == None
      requires forall k :: 0 <= k < HW_SLOTS ==> inner.hwBreakpoints[k] == None
      modifies inner, inner.hwBreakpoints, inner.hwWatchpoints, inner.swBreakpoints, inner.exceptions
      modifies if inner.evflag.Some? then {inner.evflag.value} else {}
      ensures inner.Valid() && inner.pid == None && inner.evflag == None
      ensures inner.mem == old(inner.mem) && inner.hwRegs == old(inner.hwRegs)
      ensures forall k :: 0 <= k < WATCH_SLOTS ==> inner.wpRegs[k] == old(inner.wpRegs)[k] || inner.wpRegs[k] == CLEARED
    {
      SecondClearAllWritesNothing(inner.World(), 0, outcomes.sws);
      inner.ClearAll(outcomes);
      assert inner.hwRegs == old(inner.hwRegs);
      inner.Reset();
    }
  }
}
