# vita-gdb: a verified model

vita-gdb is a GDB stub that runs as a PS Vita kernel module. This project models the parts of it whose
correctness is hard to see by reading, and proves what they promise.

| part | files |
|---|---|
| Software breakpoints patched into a process memory; single steps | `SlotTable`, `SwBreakpoints`, `SwOverlay`, `SetRace`, `Session`, `Stepping`, `StepTarget`, `GdbSession`, `Target` |
| Hardware breakpoints and watchpoints mirrored in debug registers | `HwBreakpoints`, `HwWatchpoints`, `GdbSession` |
| The hand-off between receive thread, worker and exception callbacks | `HandOff`, `HandOffSafety`, `HandOffReports`, `HandOffTheorems`, `Events` |
| The exception ring, as one call and load by load | `MpscRing`, `RingSteps` |
| The pools of sessions and of connections | `SessionPool`, `ConnPool` |
| The connection's output buffer and `read` | `TcpConn` |
| Where a stepped ARM instruction goes | `WordBits`, `ArmManual`, `ArmNextPc`, `ArmProofs`, `ArmAlu`, `ArmEval` |
| Register packets | `Armv7Regs`, `Words` |
| Chunked text transfers | `StreamWriter`, `Libraries`, `LibraryTransfer` |
| Inputs at which a promise fails | `FailingInputs` |

`dafny verify dfyconfig.toml` checks everything.

## How it is modelled

* Objects the source updates in place are classes (`GdbSessionInner`, `MpscRing`, `TcpConn`, `VitaTarget`,
  `Armv7Regs`, `StreamWriter`). Each method states its whole new state by a function of the old one, and the
  lemmas are about those functions and about every run of them.
* Concurrent code is a state machine. An action is one load, store, wait or set of the source; a run is any
  sequence of enabled actions. Steps are sequentially consistent. `HandOff.ReadStepsCompose` and
  `TcpConn.TcpConn.Read` tie the steps of `read` to `read` as one call.
* Kernel calls, the network and what the process does are parameters: whether a read or write of process
  memory succeeds (`Io`), how many bytes a send takes (`Network`), what a receive returns, the outcome of each
  debug register call. A write to process memory that fails is taken to have changed nothing, and the set of
  mapped addresses is fixed.
* Words are integers with wrap-around written out; the shift, rotate and bitwise instructions work on the 32
  bits themselves. The ARM side is measured against an independent rendering of ARM DDI 0406C in `ArmManual`.

Where the code does not keep a promise, an if-and-only-if lemma says when it does, and a lemma gives an input or a
run at which it fails:

* Overlapping breakpoints (`StepKeepsOverlay`, `OverlappingSetBreaks`) and a restoring write that fails
  (`RestoreKeepsOverlay`, `FailedRestoreBreaks`) break the agreement between slot table and memory. A failed
  restore loses the slot, because it is emptied before the write.
* `set_sw_breakpoint` reads the original bytes before it locks the table and writes the patch after it has let go.
  When `step_finished` clears the same address in between, BKPT bytes are saved as originals
  (`BeforeLockExactly`, `ClearSameBeforeLock`) or left without a slot (`BeforePatchExactly`,
  `ClearSameBeforePatch`).
* Stepping onto an address that has a user breakpoint removes that breakpoint (`StepTraceExactly`,
  `StepRemovesBreakpoint`). A second step before the first has ended leaves the first temporary breakpoint behind
  unless both have one target (`SecondStepStrandsFirst`).
* `resume` panics when the instruction of the thread to step cannot be read, as after a prefetch abort at an
  unmapped PC, or has operands of a shape `next_pc` does not know (`StepPanicsExactly`), as a jump table has
  (`JumpTablePanics`).
* `next_pc` reads the patched memory. Where it finds the program's own instruction the step goes astray exactly
  when a breakpoint has changed the data its target comes from (`StepFollowsExactly`). Where the thread stands at a
  breakpoint it takes the breakpoint instruction for the program's, so that the step goes right only when the
  instruction underneath leads just past it (`StepAtBreakpointExactly`): a `bx lr` does not (`StepGoesAstray`).
* A Thumb32 breakpoint is planted in its ARM encoding, which `is_bkpt` does not recognise in Thumb state
  (`PlantedBreakIsRecognised`).
* A failed receive stores `err` but not `closed`. The worker then sleeps for ever and `read` never returns the
  error (`ReceiveErrorStrandsWorker`, `DeadlockExactly`, `ThreadsStuckExactly`, `EofComesLast`).
* `reset` races with callbacks that are past their check of the event flag: a free slot can be left dirty, and
  `step_finished` can unwrap an event flag that is gone (`DropSafeExactly`, `LateStoreReached`,
  `LateStepReached`). Ownership of the slots survives these races (`OneOwnerAlways`). `reset` does not clear the
  step result, so the next session of the slot inherits it (`ResetFrees`).
* A callback keeps the slot it has found. When the slot is freed and claimed anew before it stores, its event
  reaches another process's session (`StrayExactly`, `StrayEventReached`). One that finds the pid before the event
  flag is stored, or after it is cleared, has halted its process and reports nothing (`UnheardExactly`,
  `UnheardReached`).
* A session for pid -1 leaves its slot looking free (`SharedSlotExactly`, `SharedSlotReached`).
* A connection whose receive thread cannot be started loses its pool entry, and nothing else does
  (`LostExactly`); a join that fails frees an entry whose thread still runs (`ReleaseExactly`, `InOrderExactly`,
  `EarlyJoinReached`).
* `write` can return an error for a byte it has accepted (`WriteFailsExactly`, `AcceptedWithError`).
* `add_hw_breakpoint` reports success when the table is full (`AddOverclaimsExactly`,
  `SeventhBreakpointClaimed`), and `clear_all` leaves an armed register without a slot when its kernel call fails
  (`HwStepKeepsMirror`, `FailedClearLeavesRegister`).
* A watchpoint set stops at the first slot that is taken, whatever it watches: it can succeed without watching
  anything (`WatchOverclaimsExactly`, `SecondWatchClaimed`), rewrite the register of another watchpoint
  (`SetWatchKeepsMirrorExactly`, `SecondWatchTakesRegister`), and never uses more than one of the three slots
  (`OnlyFirstSlotUsed`). `clear_all` clears watchpoint registers and keeps their slots
  (`ClearAllWatchKeepsMirrorExactly`, `ClearAllKeepsWatchSlot`).
* An ALU instruction that writes the PC has its target masked with `!3` and keeps the instruction set, which is
  what the manual says only for some results (`AluPcExactly`, `ThumbMovIsMasked`).
* TBH scales its index by four where the manual scales it by two (`TableEntryExactly`, `SecondEntryMisread`).
* A CBZ or CBNZ that is taken leaves Thumb state when its immediate is even (`CompareBranchExactly`).
* Library paths are not escaped. A path with a quotation mark, `<`, `&`, a tab, a line end or another control
  character is not what a reader of the document finds (`DocumentReadsBackExactly`), and with a quotation mark
  one module can look like two (`QuotedPathLooksLikeTwo`).

## Model

| member | source | states |
|---|---|---|
| SwOverlay.StepKeepsOverlay | vita-gdb/src/gdb/sessions.rs:284-388 | one set, clear or external write keeps memory equal to the unpatched memory overlaid with BKPT bytes at exactly the occupied slots, with true originals saved and disjoint slots, if and only if the set is stopped by one of its guards or its range touches no breakpoint, the restoring write succeeds or has nothing to undo, the external write leaves patched bytes alone |
| SwOverlay.RunKeepsOverlay | vita-gdb/src/gdb/sessions.rs:284-388 | over every run of sets and writes whose ranges are pairwise equal or disjoint, and of clears that succeed, the agreement holds at every point |
| SwOverlay.RunThenClearAllRestores | vita-gdb/src/gdb/sessions.rs:483-508 | from an empty table, after any such run clear_all leaves an empty table and what the same writes make of a memory that was never patched |
| SwOverlay.RangedOpKeeps | vita-gdb/src/gdb/sessions.rs:284-388 | one such operation meets the exact condition and leaves slots only in the given ranges |
| SwOverlay.SetKeepsOverlay | vita-gdb/src/gdb/sessions.rs:284-357 | a set keeps the agreement exactly when the address is shared, unreadable, unmapped or present already, the table is full, the write fails, or the range touches no breakpoint |
| SwOverlay.RefusedExactly | vita-gdb/src/gdb/sessions.rs:284-357 | a set changes nothing exactly under one of those guards |
| SwOverlay.SetAnswersExactly | vita-gdb/src/gdb/sessions.rs:284-357 | a set answers true if and only if the address lies outside 0xE0000000 to 0xEFFFFFFF, its bytes can be read, and it has a breakpoint already or there is a free slot and the write succeeds; the address then has a breakpoint |
| SwOverlay.RestoreKeepsOverlay | vita-gdb/src/gdb/sessions.rs:378-388 | restoring a slot keeps the agreement exactly when the write succeeds or the original was a BKPT anyway |
| SwOverlay.PokeKeepsOverlay | vita-gdb/src/gdb/multi_thread.rs:199-209 | a debugger or process write keeps it exactly when every byte it puts over a breakpoint is the byte already there, in memory and underneath |
| SwOverlay.SetAgainKeepsSlot | vita-gdb/src/gdb/sessions.rs:314-319 | setting an address twice changes nothing, so BKPT bytes are never saved as originals |
| SwOverlay.ClearUndoesSet | vita-gdb/src/gdb/sessions.rs:284-376 | a clear after a set gives back the whole memory and the whole table |
| SwOverlay.ClearAnswersExactly | vita-gdb/src/gdb/sessions.rs:359-388 | a clear answers true if and only if the address has a breakpoint and the write succeeds; afterwards the address has none and every other breakpoint is still there |
| SwOverlay.ClearAllRestores | vita-gdb/src/gdb/sessions.rs:502-507 | clear_all empties the table, and restores the unpatched memory if and only if no restore that mattered failed |
| SwOverlay.ClearAllEmpties | vita-gdb/src/gdb/sessions.rs:502-507 | clear_all empties every slot whatever its writes do |
| SwOverlay.SecondClearAllWritesNothing | vita-gdb/src/gdb/sessions.rs:553-557 | a second clear_all changes nothing, whatever memory has become |
| SetRace.PartsAreSet | vita-gdb/src/gdb/sessions.rs:300-356 | read, claim and write, with nobody in between, are one set |
| SetRace.BeforeLockExactly | vita-gdb/src/gdb/sessions.rs:300-331 | a clear between the read and the lock breaks the agreement if and only if it clears the very breakpoint being set, unless the program has BKPT bytes there itself |
| SetRace.ClearSameBeforeLock | vita-gdb/src/gdb/sessions.rs:300-331 | in that case BKPT bytes become the saved originals |
| SetRace.BeforePatchExactly | vita-gdb/src/gdb/sessions.rs:320-356 | a clear between the claim and the write breaks it if and only if it clears the slot just claimed, with the same exception |
| SetRace.ClearSameBeforePatch | vita-gdb/src/gdb/sessions.rs:320-356 | in that case BKPT bytes are left in memory without a slot |
| Session.PlantedBreakIsRecognised | vita-gdb/src/gdb/handlers.rs:37-44 | a planted breakpoint is reported as a software break in the instruction set it was planted for, except Thumb32, which is reported as a hardware break |
| Session.IsBkptExactly | vita-gdb/src/gdb/handlers.rs:37-44 | is_bkpt knows exactly the encodings of BKPT (section A8.8.24 of ARM DDI 0406C), fields and all, in either instruction set |
| Session.BreakReportsExactly | vita-gdb/src/gdb/handlers.rs:195-231 | a break away from the step joins a ring that is not full, as a software break if and only if memory there holds a BKPT encoding and as a hardware break otherwise; nothing else changes |
| Session.BreakHandledExactly | vita-gdb/src/gdb/handlers.rs:195-231 | a break is handled if and only if its instruction can be read; at the address of the step it ends the step, elsewhere it leaves step and breakpoints alone |
| Session.StepEndsExactly | vita-gdb/src/gdb/sessions.rs:168-176 | the end of a step stores its thread as the result, forgets the record and removes the breakpoint at its address and no other; without a pid the breakpoint stays |
| Session.PatchesAreBkpt | vita-gdb/src/gdb/sessions.rs:336-345 | the two patches are the encodings of BKPT #0, the ARM one with the condition `always` |
| Stepping.StepLeavesNoTrace | vita-gdb/src/gdb/handlers.rs:223-230 | after the break at the step target, by any thread, memory and breakpoints are those of the run without the step, whatever was set, cleared and written beside it meanwhile, and the stepping thread is reported exactly once |
| Stepping.StepTraceExactly | vita-gdb/src/gdb/multi_thread.rs:322-337 | a step keeps the set of breakpoints if and only if its target had none |
| Stepping.SecondStepStrandsFirst | vita-gdb/src/gdb/sessions.rs:157-176 | after a second step and its break the first temporary breakpoint is still planted if and only if the targets differ, and its own break ends no step |
| StepTarget.StepPanicsExactly | vita-gdb/src/gdb/multi_thread.rs:309-329 | a step whose registers can be read panics if and only if one of the four bytes at the PC cannot be read, or the condition of the instruction there holds and its operands are not of a known shape |
| StepTarget.StepFailsExactly | vita-gdb/src/gdb/multi_thread.rs:306-329 | a step fails without a panic if and only if the registers cannot be read, the instruction does not decode, or the data its target comes from cannot be read |
| StepTarget.JumpTablePanics | arm-next-pc/src/lib.rs:264-271 | `add pc, pc, r0, lsl #2` panics, whatever registers and memory are |
| StepTarget.StepFollowsExactly | vita-gdb/src/gdb/multi_thread.rs:309-329 | where next_pc finds the same instruction in patched and unpatched memory, the step goes to the same place if and only if the data it needs reads the same |
| StepTarget.StepFollowsUnpatchedProgram | vita-gdb/src/gdb/multi_thread.rs:309-329 | so it does when no breakpoint covers the four bytes at the PC or that data |
| StepTarget.SameInsnFound | vita-gdb/src/gdb/multi_thread.rs:315-323 | with no breakpoint over the four bytes at the PC the instruction found is the program's |
| StepTarget.NarrowInsnFound | vita-gdb/src/gdb/multi_thread.rs:315-323 | a breakpoint just after a 16-bit instruction does not hide it from a decoder that does not look past it |
| StepTarget.StepAtBreakpointExactly | vita-gdb/src/gdb/multi_thread.rs:309-329 | with a breakpoint at the PC the step goes where the unpatched program goes if and only if the instruction underneath, by its registers and memory, leads just past the breakpoint instruction in the same state |
| StepTarget.StepsPastBkpt | vita-gdb/src/gdb/multi_thread.rs:309-329 | such a step goes two or four bytes on, whatever is underneath |
| StepTarget.StepGoesAstray | vita-gdb/src/gdb/multi_thread.rs:309-329 | a `bx lr` under a breakpoint: the caller on one memory, the next address on the other |
| StepTarget.AdvancedLooksAtPc | vita-gdb/src/gdb/multi_thread.rs:318-321 | adding 4 or 8 to the PC makes next_pc look at the instruction the PC points to |
| StepTarget.StateIsBit5 | vita-gdb/src/gdb/multi_thread.rs:309-329 | the PC handed to next_pc, the address of the fetch and the state of the decoder all follow bit 5 of the CPSR |
| GdbSession.GdbSessionInner.SetSwBreakpoint | vita-gdb/src/gdb/sessions.rs:284-357 | new memory, table and answer are those of SetSw, with the slot claimed before and released after a failed write; nothing without a pid |
| GdbSession.GdbSessionInner.ClearSwBreakpoint | vita-gdb/src/gdb/sessions.rs:359-376 | new memory, table and answer are those of ClearSw |
| GdbSession.GdbSessionInner.RestoreSwSlot | vita-gdb/src/gdb/sessions.rs:378-388 | the slot is emptied whatever the write does; an empty slot is a success |
| GdbSession.GdbSessionInner.SetHwBreakpoint | vita-gdb/src/gdb/sessions.rs:244-265 | registers, table and answer are those of SetHw, errors included |
| GdbSession.GdbSessionInner.ClearHwBreakpoint | vita-gdb/src/gdb/sessions.rs:267-282 | registers, table and answer are those of ClearHw, errors included |
| GdbSession.GdbSessionInner.SetHwWatchpoint | vita-gdb/src/gdb/sessions.rs:194-225 | registers, table and answer are those of SetWatch, errors included |
| GdbSession.GdbSessionInner.RekindWatchpoint | vita-gdb/src/gdb/sessions.rs:206-215 | a slot of the same kind is left alone; otherwise its register takes the new address and kind, and the slot the kind only |
| GdbSession.GdbSessionInner.TakeFreeWatchpoint | vita-gdb/src/gdb/sessions.rs:217-224 | the first free slot and its register are filled, if the call succeeds |
| GdbSession.GdbSessionInner.ClearHwWatchpoint | vita-gdb/src/gdb/sessions.rs:227-242 | registers, table and answer are those of ClearWatch |
| GdbSession.GdbSessionInner.ClearAll | vita-gdb/src/gdb/sessions.rs:483-508 | both breakpoint tables are emptied, watchpoint slots stay, and registers and memory are changed by the calls that succeed |
| GdbSession.GdbSessionInner.ClearHwSlots | vita-gdb/src/gdb/sessions.rs:487-493 | the first loop: registers and table are those of ClearAllHw |
| GdbSession.GdbSessionInner.ClearWatchRegs | vita-gdb/src/gdb/sessions.rs:495-500 | the second loop: the registers are those of ClearAllWatch |
| GdbSession.GdbSessionInner.ClearSlots | vita-gdb/src/gdb/sessions.rs:502-507 | the loop over the software table: memory and table are those of ClearFrom |
| GdbSession.GdbSessionInner.PushExcp | vita-gdb/src/gdb/sessions.rs:127-135 | with an event flag the event joins the ring if there is room and the worker is woken either way; without one nothing happens |
| GdbSession.GdbSessionInner.PopExcp | vita-gdb/src/gdb/sessions.rs:137-139 | the oldest event leaves the ring |
| GdbSession.GdbSessionInner.HasExcp | vita-gdb/src/gdb/sessions.rs:141-143 | true exactly when the ring holds an event, even after its head has wrapped below its tail |
| GdbSession.GdbSessionInner.PushExited | vita-gdb/src/gdb/sessions.rs:145-151 | the exit mark is set and the worker woken exactly when there is an event flag |
| GdbSession.GdbSessionInner.PopExited | vita-gdb/src/gdb/sessions.rs:153-155 | the mark is reported once |
| GdbSession.GdbSessionInner.SetStep | vita-gdb/src/gdb/sessions.rs:157-159 | the step record is replaced, and nothing else |
| GdbSession.GdbSessionInner.IsStep | vita-gdb/src/gdb/sessions.rs:161-166 | true exactly at the target of a recorded step |
| GdbSession.GdbSessionInner.StepFinished | vita-gdb/src/gdb/sessions.rs:168-176 | the record is taken, its breakpoint cleared when there is a pid, its thread stored as the result, the worker woken; it panics exactly when there was a step and no event flag |
| GdbSession.GdbSessionInner.PopStepFinished | vita-gdb/src/gdb/sessions.rs:178-180 | the result is reported once |
| GdbSession.GdbSessionInner.HandleBreak | vita-gdb/src/gdb/handlers.rs:195-231 | an unreadable instruction is not handled; otherwise a break at the step target ends the step and any other joins the ring as a software or hardware break; without an event flag the event is dropped and the end of a step panics |
| GdbSession.GdbSessionInner.Reset | vita-gdb/src/gdb/sessions.rs:106-118 | every field but the step result, watchpoint slots included, is back in its first state; process memory and debug registers are untouched |
| GdbSession.GdbSessionInner.FillTables | vita-gdb/src/gdb/sessions.rs:111-113 | every slot of the three tables is emptied |
| Target.VitaTarget.Resume | vita-gdb/src/gdb/multi_thread.rs:272-358 | a process that is gone, runs already, or has an exception pending with no step requested is left alone; otherwise each thread in turn is let run if and only if the scheduler lock is off or it is to step or to continue, and a requested step is used up: it plants its breakpoint where next_pc leads on the memory as it is, returns an error when registers cannot be read or next_pc fails, or panics, the latter two stopping the loop at that thread |
| Target.VitaTarget.SetStatuses | vita-gdb/src/gdb/multi_thread.rs:299-355 | the loop over the threads: the calls made, the step taken or kept, error, panic and the session afterwards |
| Target.VitaTarget.StepThread | vita-gdb/src/gdb/multi_thread.rs:306-339 | one thread's step: its target is taken from the memory it finds, and planted and recorded when there is one |
| Target.VitaTarget.PlantStep | vita-gdb/src/gdb/multi_thread.rs:330-337 | planting and recording a step leave the session as BeginStep says, whatever planting answers |
| Target.VitaTarget.SetResumeActionContinue | vita-gdb/src/gdb/multi_thread.rs:367-380 | refused exactly with a signal or a full list |
| Target.VitaTarget.SetResumeActionStep | vita-gdb/src/gdb/multi_thread.rs:392-404 | refused exactly with a signal |
| Target.VitaTarget.ClearResumeActions | vita-gdb/src/gdb/multi_thread.rs:360-365 | no step, no continued threads, no scheduler lock |
| Target.VitaTarget.Detach | vita-gdb/src/gdb/target.rs:94-102 | the process is resumed with its unpatched memory and cleared registers, and what it makes of its memory afterwards survives the second clear_all of the drop; a session without a pid is cleared and dropped with nothing resumed, and without a session nothing happens |
| Target.VitaTarget.Leave | vita-gdb/src/gdb/target.rs:95-99 | clear_all, resume and drop of one session |
| Target.VitaTarget.Stop | vita-gdb/src/gdb/target.rs:95-96 | clear_all leaves both tables empty, the unpatched memory when its writes succeed, and clear registers when its calls succeed |
| Target.VitaTarget.Drop | vita-gdb/src/gdb/sessions.rs:553-558 | with empty tables the drop touches neither memory nor registers and frees the session |
| HwBreakpoints.HwStepKeepsMirror | vita-gdb/src/gdb/sessions.rs:244-282 | set and clear keep register i equal to (address, control) or (0, 0) as slot i is occupied or free, with distinct addresses, even when kernel calls fail; clear_all does if and only if no call that mattered fails |
| HwBreakpoints.HwRunKeepsMirror | vita-gdb/src/gdb/sessions.rs:244-282 | the same over every run |
| HwBreakpoints.SetRefusedExactly | vita-gdb/src/gdb/sessions.rs:244-265 | a set whose call succeeds answers false if and only if the address is absent and all six slots are taken |
| HwBreakpoints.SetHwExactly | vita-gdb/src/gdb/sessions.rs:244-265 | a set arms one free slot and its register and nothing else; each answer, and what changes nothing, by debug, the address, the slots and the call |
| HwBreakpoints.ClearHwExactly | vita-gdb/src/gdb/sessions.rs:267-282 | a clear zeroes the register and empties the slot of the address, and only those; each answer by debug, the address and the call |
| HwBreakpoints.ClearHwUndoesSet | vita-gdb/src/gdb/sessions.rs:244-282 | registers and table come back |
| HwBreakpoints.ControlFields | vita-gdb/src/gdb/sessions.rs:401-403 | the control word by the fields of DBGBCR: enabled, any privilege, all four bytes |
| HwBreakpoints.AddOverclaimsExactly | vita-gdb/src/gdb/target.rs:433-446 | the debugger is told of a breakpoint that does not exist if and only if debug is off or the table is full without it |
| HwWatchpoints.SetWatchKeepsMirrorExactly | vita-gdb/src/gdb/sessions.rs:194-225 | a set makes register and slot disagree if and only if the first slot taken is for another address and another kind and the call succeeds |
| HwWatchpoints.ClearWatchKeepsMirror | vita-gdb/src/gdb/sessions.rs:227-242 | a clear keeps registers and slots together, whatever its call does |
| HwWatchpoints.ClearWatchExactly | vita-gdb/src/gdb/sessions.rs:227-242 | a clear zeroes the register and empties one slot of the address, and nothing else; each answer by debug, the address and the call |
| HwWatchpoints.FirstWatchExactly | vita-gdb/src/gdb/sessions.rs:194-225 | with no watchpoint set, a set takes the first slot and register for the address and kind |
| HwWatchpoints.ClearWatchUndoesSet | vita-gdb/src/gdb/sessions.rs:194-242 | with no watchpoint set before, registers and table come back |
| HwWatchpoints.WatchControlFields | vita-gdb/src/gdb/sessions.rs:405-412 | the control word by the fields of DBGWCR: loads are watched exactly for the kinds that read, stores exactly for those that write |
| HwWatchpoints.WatchOverclaimsExactly | vita-gdb/src/gdb/sessions.rs:206-215 | a set answers true with no register watching the address if and only if the first slot taken is of that kind and no slot is for that address and kind |
| HwWatchpoints.OnlyFirstSlotUsed | vita-gdb/src/gdb/sessions.rs:194-242 | over every run only the first of the three slots is ever taken |
| HwWatchpoints.ClearAllWatchKeepsMirrorExactly | vita-gdb/src/gdb/sessions.rs:495-500 | clear_all leaves registers and slots in agreement if and only if it clears the register of no slot that is taken; when all its calls succeed every register is clear |
| HandOff.ReadStepsCompose | vita-gdb/src/gdb/tcpconn.rs:104-123 | the atomic steps of read, run without interference, add up to read as one call |
| HandOff.ReadAnswersExactly | vita-gdb/src/gdb/tcpconn.rs:104-123 | an error if and only if closed with an error, closed if and only if closed without, nothing if and only if open and empty, and else the byte at the read position |
| HandOff.ReadsDrainBuffer | vita-gdb/src/gdb/tcpconn.rs:104-123 | reading on from any position returns the rest of the buffer in order; the buffer goes back to the receive thread with its last byte and not before |
| HandOffSafety.StepKeepsInv | vita-gdb/src/gdb/tcpconn.rs:179-217 | every step of either thread or a callback keeps buffer, stream, end, close, wake-up and event invariants |
| HandOffTheorems.DeliveredInOrder | vita-gdb/src/gdb/tcpconn.rs:104-123 | in every reachable state delivered, then unread, then unpublished bytes are the bytes received |
| HandOffTheorems.BufferHasOneUser | vita-gdb/src/gdb/tcpconn.rs:192-214 | the two threads never use the buffer together, and read stays within what was published |
| HandOffTheorems.EofComesLast | vita-gdb/src/gdb/tcpconn.rs:209-213 | a poll sees `closed` only after the peer's end of stream with every byte delivered, and never sees a receive error |
| HandOffTheorems.WorkerSleepsOnlyOnNothing | vita-gdb/src/gdb/event_loop.rs:79-141 | a worker asleep with its flag clear has no bytes, no end of stream and no event to report, but for what a thread about to set the flag has just stored |
| HandOffTheorems.ReaderSleepsOnlyOnUnreadBytes | vita-gdb/src/gdb/tcpconn.rs:185-189 | a receive thread asleep with its flag clear has unread bytes in the buffer or a worker about to wake it |
| HandOffTheorems.NeverBothAsleep | vita-gdb/src/gdb/tcpconn.rs:185-216 | the threads are never stuck together |
| HandOffTheorems.DeadlockExactly | vita-gdb/src/gdb/tcpconn.rs:200-208 | counting callbacks as progress, a reachable state has no next step if and only if no session is attached, the receive thread has ended, no callback is under way, and the connection was released or a receive error left the worker asleep |
| HandOffTheorems.ThreadsStuckExactly | vita-gdb/src/gdb/tcpconn.rs:179-217 | with the worker asleep and no callback under way, attached or not, the receive thread is neither receiving nor able to step if and only if it has ended after a receive error |
| HandOffTheorems.OnlyEventsWakeWorker | vita-gdb/src/gdb/event_loop.rs:112-116 | a sleeping worker whose receive thread has ended can only be followed by a callback |
| HandOffTheorems.ReceiveErrorStrandsWorker | vita-gdb/src/gdb/tcpconn.rs:202-207 | the second of these deadlocks is reachable |
| HandOffTheorems.ReaderRunsAfterClose | vita-gdb/src/gdb/tcpconn.rs:138-148 | once close is joining, the receive thread has ended, is receiving or can step; join returns exactly when it has ended |
| HandOffTheorems.CloseBoundsReader | vita-gdb/src/gdb/tcpconn.rs:179-216 | from any state in which close has begun the receive thread takes at most five more steps, however the run goes on |
| HandOffTheorems.ClosingStep | vita-gdb/src/gdb/tcpconn.rs:179-216 | once close has begun each step of the receive thread brings its end nearer and no other step moves it |
| HandOffTheorems.ExceptionsReportedInOrder | vita-gdb/src/gdb/event_loop.rs:99-101 | between resets the exceptions reported, then those in the ring, are those accepted, in order |
| HandOffReports.ReportsHaveCauses | vita-gdb/src/gdb/event_loop.rs:79-141 | over every run: a SIGTRAP report carries the thread of the last step finished, since the previous such report; a report of an exit stands for an exit or a detach since the previous one |
| HandOffReports.DueIsKept | vita-gdb/src/gdb/event_loop.rs:79-141 | over every run the session holds exactly the step, exit and detach that have happened and have not been reported; a new session does not inherit the detach of the old one |
| HandOffReports.CallbackWakesWorker | vita-gdb/src/gdb/sessions.rs:127-176 | every callback that stores an event then sets EV_WAKE_WORKER, also when the ring was full |
| HandOffReports.WorkerReportsWhatItFinds | vita-gdb/src/gdb/event_loop.rs:79-117 | each report of a poll is the one for what it has taken: Exited for a detach or an exit, SIGTRAP with its thread for a step, the stop reason of the oldest exception |
| HandOffTheorems.PollingStep | vita-gdb/src/gdb/event_loop.rs:79-102 | with an exception pending, each step of the poll leaves it nearer the ring with the same oldest exception, or reports the detach, exit, step result or exception it found |
| HandOffTheorems.PollReportsOldest | vita-gdb/src/gdb/event_loop.rs:79-117 | with an exception pending a running poll reports within four of its own steps, in every interleaving, and what it found: a detach or an exit as Exited, a step result as SIGTRAP with its thread, or the oldest exception |
| Events.StopReasonsAreDistinct | vita-gdb/src/gdb/event_loop.rs:143-165 | different events give different stop reasons, none of which looks like an exit or the end of a step |
| Events.StopReasonNamesCause | vita-gdb/src/gdb/event_loop.rs:143-165 | each stop reason by name, if and only if its one kind of event |
| MpscRing.MpscRing.Push | vita-gdb/src/kernel/mpsc.rs:21-33 | appends, and fails exactly when CAP - 1 items are in |
| MpscRing.MpscRing.Pop | vita-gdb/src/kernel/mpsc.rs:35-43 | removes the oldest item, or nothing from an empty ring |
| MpscRing.MpscRing.Clear | vita-gdb/src/kernel/mpsc.rs:45-56 | drops exactly the items inside, oldest first |
| MpscRing.MpscRing.Len | vita-gdb/src/kernel/mpsc.rs:58-62 | the wrapping difference is non-zero exactly when the ring is not empty |
| RingSteps.StepRefines | vita-gdb/src/kernel/mpsc.rs:21-62 | each load or store of the two threads does to a FIFO queue of CAP - 1 items what its caller observes; clear takes effect at its load of head |
| RingSteps.RunRefinesQueue | vita-gdb/src/kernel/mpsc.rs:21-62 | every interleaving is a history of that queue |
| RingSteps.NothingLostOrReordered | vita-gdb/src/kernel/mpsc.rs:21-56 | items popped or dropped, then those inside, are the items pushed, in order |
| RingSteps.NoSlotReadWhileWritten | vita-gdb/src/kernel/mpsc.rs:27-40 | the consumer never reads the slot being written, nor one never written |
| SessionPool.OneOwnerAlways | vita-gdb/src/gdb/sessions.rs:423-435 | over every run with real pids, races between resets and callbacks included, a slot has at most one owner, and a slot that is owned is not free for others |
| SessionPool.SlotStaysGood | vita-gdb/src/gdb/sessions.rs:106-151 | over every run in which the event flag of a slot is dropped only when nothing on it needs it, whatever happens to the other slots, the slot is clean whenever unused and no callback on it panics |
| SessionPool.ClaimAlone | vita-gdb/src/gdb/sessions.rs:423-435 | a claim that nobody disturbs takes the first free slot for its pid and event flag, and fails, changing nothing, if and only if there is none |
| SessionPool.CallbackAlone | vita-gdb/src/gdb/sessions.rs:127-180 | a callback that nobody disturbs: an exit is marked, an exception joins the ring unless it is full, a finished step leaves its result in place of its record; without an event flag or a record nothing, or the panic |
| SessionPool.DropSafeExactly | vita-gdb/src/gdb/sessions.rs:106-117 | the first store of a reset is safe if and only if no step is recorded and no callback is committed on the slot; safe means that the slot stays good in every continuation that does not itself drop the slot's flag again while something needs it |
| SessionPool.ResetFrees | vita-gdb/src/gdb/sessions.rs:106-118 | a reset left alone frees the slot, fresh but for the step result |
| SessionPool.LateStoreDirtiesSlot | vita-gdb/src/gdb/sessions.rs:127-151 | from every state with a reset past its first store and a callback past its check, some continuation leaves the slot free and dirty |
| SessionPool.LateStoreReached | vita-gdb/src/gdb/sessions.rs:106-151 | such a slot is reached from the start |
| SessionPool.LateStepPanics | vita-gdb/src/gdb/sessions.rs:168-176 | from every state with the event flag gone and a step recorded or under way, some continuation unwraps the missing flag |
| SessionPool.LateStepReached | vita-gdb/src/gdb/sessions.rs:106-176 | that panic is reached from the start |
| SessionPool.SharedSlotExactly | vita-gdb/src/gdb/sessions.rs:423-435 | two workers after one free slot come to share it if and only if the first claims it for pid -1 |
| SessionPool.SharedSlotReached | vita-gdb/src/gdb/sessions.rs:423-435 | from the start, workers attaching to pid -1 and to any process come to share a slot |
| SessionPool.RunTellsPid | vita-gdb/src/gdb/sessions.rs:106-125 | over every run with real pids a slot is a process's if and only if it was and has not been freed, or has been claimed for it and not freed since |
| SessionPool.StrayExactly | vita-gdb/src/gdb/handlers.rs:206-230 | what a callback under way stores reaches its own process's session no more if and only if the slot it found has been freed since and not claimed for that process again |
| SessionPool.StrayEventReached | vita-gdb/src/gdb/handlers.rs:299-308 | from the start, with every flag dropped only when nothing needs it, one process's exit is stored in another's session |
| SessionPool.UnheardExactly | vita-gdb/src/gdb/sessions.rs:127-151 | a callback that finds an owned session reports nothing if and only if the event flag is not stored yet or already cleared |
| SessionPool.UnheardReached | vita-gdb/src/gdb/sessions.rs:423-435 | from the start, a process that faults between the two stores of a claim is never reported |
| ConnPool.OneReaderPerEntry | vita-gdb/src/gdb/tcpconn.rs:51-67 | over every run in which joins wait, an entry has at most one receive thread, and a free entry has none |
| ConnPool.OneHolderAlways | vita-gdb/src/gdb/tcpconn.rs:51-67 | over every run, early joins included, an entry has at most one holder |
| ConnPool.AcquireAlone | vita-gdb/src/gdb/tcpconn.rs:51-63 | acquire_state that nobody disturbs takes the first free entry, and fails, changing nothing, if and only if there is none |
| ConnPool.ReleaseExactly | vita-gdb/src/gdb/tcpconn.rs:138-148 | a step leaves entries with at most one receive thread, and free ones with none, if and only if it is not a join that lets go of a running thread |
| ConnPool.InOrderExactly | vita-gdb/src/gdb/tcpconn.rs:138-148 | over every run from the start that holds at every point if and only if no join lets go of a running thread |
| ConnPool.EarlyJoinReached | vita-gdb/src/gdb/tcpconn.rs:138-148 | two receive threads on one entry are reached from the start by one join that fails |
| ConnPool.LostExactly | vita-gdb/src/gdb/tcpconn.rs:87-102 | over every run from the start an entry is claimed with no holder if and only if some receive thread could not be started |
| ConnPool.LostForEver | vita-gdb/src/gdb/tcpconn.rs:87-102 | an entry claimed with no holder stays so over every later run |
| TcpConn.FlushConserves | vita-gdb/src/gdb/tcpconn.rs:125-136 | a flush loses and reorders nothing under any partial sends, and never grows the buffer |
| TcpConn.FlushFailsExactly | vita-gdb/src/gdb/tcpconn.rs:125-136 | a flush fails if and only if a send fails before the buffered bytes are out, and otherwise empties the buffer |
| TcpConn.FlushEmpties | vita-gdb/src/gdb/tcpconn.rs:125-136 | when every send takes something, the flush ends with an empty buffer after at most as many sends as there were bytes |
| TcpConn.WriteConserves | vita-gdb/src/gdb/tcpconn.rs:160-170 | a write adds exactly its byte when the buffer has room or no send fails before a full buffer is out, and nothing otherwise; the buffer never exceeds 64 bytes |
| TcpConn.WriteFailsExactly | vita-gdb/src/gdb/tcpconn.rs:160-170 | a write returns an error if and only if the buffer holds 63 or 64 bytes and a send fails before 64 are out; with 63 the byte has been accepted |
| TcpConn.AcceptedWithError | vita-gdb/src/gdb/tcpconn.rs:160-170 | a concrete network and buffer where that happens |
| TcpConn.OutputConserved | vita-gdb/src/gdb/tcpconn.rs:125-174 | over every sequence of writes and flushes, errors ignored, sent then buffered bytes are the accepted ones |
| TcpConn.TcpConn.FlushWriteBuffer | vita-gdb/src/gdb/tcpconn.rs:125-136 | the loop over the array ends and does what the flush function says |
| TcpConn.TcpConn.Write | vita-gdb/src/gdb/tcpconn.rs:160-170 | buffer, socket and answer are those of the write function |
| TcpConn.TcpConn.Read | vita-gdb/src/gdb/tcpconn.rs:104-123 | one read: the next byte, closed, error or nothing, and the wake-up of the reader with the last byte |
| ArmProofs.PcAddressIsLoopAddress | arm-next-pc/src/lib.rs:210-231 | for POP and all four LDM modes, every base and list, the closed form is the address the manual's register-by-register loop has reached at R15 |
| ArmProofs.LoadMultipleGoesWhereR15Leads | arm-next-pc/src/lib.rs:197-234 | when the manual's loop can load the list, next_pc is BXWritePC of the R15 it loads |
| ArmProofs.AddressAdvances | arm-next-pc/src/lib.rs:210-211 | the manual's loop has advanced by one word for each listed register it has passed |
| ArmProofs.FetchesAtInstruction | arm-next-pc/src/lib.rs:90-94 | the address fetched from is the instruction's when the PC is what the manual says it reads |
| ArmProofs.FetchFailsExactly | arm-next-pc/src/lib.rs:90-107 | fetching fails when one of the four bytes cannot be read, or they do not decode, and in no other case |
| ArmProofs.FallsThrough | arm-next-pc/src/lib.rs:108-115 | an instruction whose condition fails, or that does not write the PC, is passed over by its own length |
| ArmProofs.UnreachableExactly | arm-next-pc/src/lib.rs:119-252 | next_pc panics on an instruction if and only if its condition holds and its operands are not of a known shape |
| ArmProofs.LeadsToExactly | arm-next-pc/src/lib.rs:119-252 | next_pc leads to an address and state if and only if the registers, the data in memory and, for load-multiples, the manual's loop say so |
| ArmProofs.CompareBranchExactly | arm-next-pc/src/lib.rs:147-164 | CBZ and CBNZ are taken exactly on zero and non-zero, to the immediate without bit 0, and then stay in Thumb state exactly when it is odd |
| ArmEval.OffsetsCount | arm-next-pc/src/lib.rs:120-133 | what the offsets of B, BL and BLX count, from the address of the instruction itself |
| ArmProofs.ReadsLittleEndian | arm-next-pc/src/lib.rs:26-31 | read_u32 is the little-endian word at the address, and fails when any of its four bytes cannot be read |
| ArmProofs.LoadedPcIsBXWritePC | arm-next-pc/src/lib.rs:189-196 | LDR into the PC goes where BXWritePC sends the word at its address, and fails exactly when the word cannot be read |
| ArmEval.EffectiveAddressIsLoadAddress | arm-next-pc/src/lib.rs:343-356 | the three addressing forms against LDR (section A8.8.63 of ARM DDI 0406C) |
| ArmEval.TableBase | arm-next-pc/src/lib.rs:358-368 | which register is the table and which the index |
| ArmEval.LoadBase | arm-next-pc/src/lib.rs:198-204 | the base register of LDM and POP, SP when POP names none |
| ArmProofs.RegisterBranchIsBXWritePC | arm-next-pc/src/lib.rs:134-146 | BX, BXJ and BLX to a register go where BXWritePC sends them |
| ArmProofs.TableEntryExactly | arm-next-pc/src/lib.rs:235-244 | the entry read is the manual's: always for TBB, for TBH if and only if the index is 0 or 2^31 |
| ArmProofs.TableBranchIsBranchWritePC | arm-next-pc/src/lib.rs:235-246 | a table branch goes to the PC plus twice the entry, by BranchWritePC, and fails exactly when the entry cannot be read |
| ArmProofs.ConditionsDecideOrder | arm-next-pc/src/lib.rs:322-341 | after CMP a, b every condition code decides the signed, unsigned or equality order, sign or overflow of a and b it names, for all words |
| ArmProofs.FlagsAreTopBits | arm-next-pc/src/lib.rs:72-80 | N, Z, C and V are bits 31 to 28 of the CPSR whatever the rest |
| ArmEval.ThumbIsBit5 | arm-next-pc/src/lib.rs:57-59 | the instruction set is bit 5 of the CPSR, whatever the other bits |
| ArmEval.FetchedByBit5 | arm-next-pc/src/lib.rs:89-107 | the address of the fetch and the state of the decoder, by that bit |
| ArmEval.EvalCondIsConditionPassed | arm-next-pc/src/lib.rs:322-341 | every condition code on every setting of the flags is ConditionPassed (section A8.3.1 of ARM DDI 0406C) |
| ArmEval.RegistersByNumber | vita-gdb/src/gdb/multi_thread.rs:261-269 | register n of an instruction is register n of the register packet |
| ArmEval.OperandIsWorth | arm-next-pc/src/lib.rs:264-271 | what each operand is worth, and which have a value |
| ArmProofs.AluPcExactly | arm-next-pc/src/lib.rs:183-187 | an ALU write to the PC goes where the manual sends it if and only if the result is a multiple of four in ARM state, or has bit 1 clear in Thumb state |
| ArmEval.EvalAluMeets | arm-next-pc/src/lib.rs:273-320 | each of the eighteen opcodes on its own two operands and bit 29 of the CPSR: AddWithCarry, multiplication, division and rotation by powers of two, and binary digits |
| ArmEval.AluPcGoesToResult | arm-next-pc/src/lib.rs:183-187 | an ALU write to the PC goes to the result with its low two bits cleared |
| ArmEval.AluPcMeets | arm-next-pc/src/lib.rs:89-187 | next_pc as a whole on an instruction that writes the PC, from its two operands |
| ArmAlu.AdditionIsAddWithCarry | arm-next-pc/src/lib.rs:286-287 | ADD and ADC are AddWithCarry of section A2.2.1 |
| ArmAlu.SubtractionIsAddWithCarry | arm-next-pc/src/lib.rs:288-291 | SUB, SBC, RSB and RSC are AddWithCarry with one operand complemented |
| ArmAlu.LslScales | arm-next-pc/src/lib.rs:296-300 | LSL by 0 to 255, bits moved up, is multiplication by a power of two modulo 2^32 |
| ArmAlu.LsrScales | arm-next-pc/src/lib.rs:301-305 | LSR by 0 to 255, bits moved down, is unsigned floor division by a power of two |
| ArmAlu.AsrScales | arm-next-pc/src/lib.rs:306-311 | ASR by 0 to 255, bits moved down under copies of the sign, is signed floor division by a power of two |
| ArmAlu.RotationIterates | arm-next-pc/src/lib.rs:312-315 | ROR by 0 to 255 is that many one-bit rotations |
| ArmAlu.RrxRotatesThroughCarry | arm-next-pc/src/lib.rs:281 | RRX is one rotation of the word with the carry in bit 0 |
| ArmAlu.BitwiseActsBitByBit | arm-next-pc/src/lib.rs:292-295 | each of the 32 binary digits of an AND, EOR, ORR or BIC result is the operation on the operands' digits |
| ArmAlu.BitwiseAddsUp | arm-next-pc/src/lib.rs:292-295 | as numbers, AND plus ORR and twice AND plus EOR are the sum of the operands, and AND plus BIC is the first |
| ArmAlu.LowMask | arm-next-pc/src/lib.rs:292-295 | AND with the k lowest bits is the remainder by 2^k, BIC with them takes it away |
| ArmAlu.MvnIsNot | arm-next-pc/src/lib.rs:280 | MVN, bit by bit, is the complement to 2^32 - 1 |
| Armv7Regs.Armv7Regs.GdbSerialize | vita-gdb/src/gdb/armv7.rs:147-170 | the bytes are the registers in the order and sizes of from_raw_id, 328 in all |
| Armv7Regs.Armv7Regs.GdbDeserialize | vita-gdb/src/gdb/armv7.rs:172-200 | fails if and only if the length is not 328 and then changes nothing; otherwise the registers become those whose packet the bytes are |
| Armv7Regs.NextU32 | vita-gdb/src/gdb/armv7.rs:203-210 | takes a little-endian word off the slice, or leaves it alone when it is shorter than four bytes |
| Armv7Regs.NextU64 | vita-gdb/src/gdb/armv7.rs:212-219 | the same for eight bytes |
| Armv7Regs.PacketIsInjective | vita-gdb/src/gdb/armv7.rs:147-200 | equal packets come from equal registers: deserialising a serialised file gives it back |
| Armv7Regs.EveryPacketHasRegisters | vita-gdb/src/gdb/armv7.rs:172-200 | every 328 bytes are the packet of some registers |
| Armv7Regs.RegisterAtItsOffset | vita-gdb/src/gdb/armv7.rs:102-119 | each register lies at the sum of the from_raw_id sizes of all lower ids |
| Armv7Regs.RegistersByName | vita-gdb/src/gdb/armv7.rs:147-170 | where r0 to r12, sp, lr, pc, cpsr, d0 to d31 and fpscr are in the packet, by name and byte |
| StreamWriter.StreamWriter.WriteStr | vita-gdb/src/kernel/utils.rs:88-105 | after any texts, errors ignored, the buffer shows exactly the window of all of them from the offset on; an error means exactly that the window ends before the text |
| StreamWriter.StreamWriter.WriteFmt | vita-gdb/src/gdb/target.rs:311-331 | the same for a formatted write that stops at its first failing piece |
| StreamWriter.StreamWriter.IntoCStr | vita-gdb/src/kernel/utils.rs:78-85 | accepts exactly a text that fits with its terminator and has no NUL, and gives all of it |
| Libraries.GetLibraries | vita-gdb/src/gdb/target.rs:292-333 | returns the window of the library document at the offset, the rest of the buffer untouched; 0 when not attached, an error when modules cannot be listed |
| Libraries.WriteDocument | vita-gdb/src/gdb/target.rs:310-331 | the nested loops write the document of the listed modules, skipping those without information or with a path that is not UTF-8, and ending a module's segments at the first of size zero |
| Libraries.WriteLibrary | vita-gdb/src/gdb/target.rs:323-330 | one module's element, whether or not it fits |
| Libraries.WriteSegments | vita-gdb/src/gdb/target.rs:324-329 | the segments up to the first of size zero |
| Libraries.GetExecFile | vita-gdb/src/gdb/target.rs:353-388 | returns the window of the path field at the offset, bounded by length and buffer |
| LibraryTransfer.ChunksReassemble | vita-gdb/src/gdb/target.rs:292-333 | calls with advancing offsets and any buffer sizes return prefixes of the document, and all of it once a call returns nothing, which happens |
| LibraryTransfer.TransferFrom | vita-gdb/src/gdb/target.rs:292-333 | the same for any text below 2^32 bytes, from any offset |
| LibraryTransfer.DocumentFits | vita-gdb/src/gdb/target.rs:310 | no document is longer than a 32-bit offset can say |
| LibraryTransfer.DocumentReadsBackExactly | vita-gdb/src/gdb/target.rs:311-331 | a reader with its own tags, 0x numbers, and the attribute rules of XML 1.0 (sections 2.2, 2.3 and 3.3.3, without references) finds exactly the listed paths and segment addresses if and only if no path holds a quotation mark, `<`, `&` or a control character |
| LibraryTransfer.ListedInPlace | vita-gdb/src/gdb/target.rs:311-331 | a module is listed in its place if and only if its information can be had |
| LibraryTransfer.AddressesExactly | vita-gdb/src/gdb/target.rs:318-326 | the addresses of the segments up to the first of size zero, and no others |
| LibraryTransfer.LibrariesRead | vita-gdb/src/gdb/target.rs:312-331 | the elements of modules with such paths read back one by one |
| LibraryTransfer.QuotedPathLooksLikeTwo | vita-gdb/src/gdb/target.rs:323 | a path with a quotation mark can make one module look like two |
| LibraryTransfer.UnHexHex | vita-gdb/src/gdb/target.rs:328 | the hexadecimal addresses read back |
| LibraryTransfer.HexIsPlain | vita-gdb/src/gdb/target.rs:328 | they have no leading zeros and need no escaping |
| FailingInputs.OverlappingSetBreaks | vita-gdb/src/gdb/sessions.rs:312-349 | a Thumb32 breakpoint over a Thumb16 one |
| FailingInputs.FailedRestoreBreaks | vita-gdb/src/gdb/sessions.rs:383-386 | a clear whose write fails |
| FailingInputs.StepRemovesBreakpoint | vita-gdb/src/gdb/sessions.rs:168-176 | a step onto a user's breakpoint |
| FailingInputs.ThumbMovIsMasked | arm-next-pc/src/lib.rs:183-187 | MOV PC, R0 in Thumb state to an address two past a multiple of four |
| FailingInputs.SecondEntryMisread | arm-next-pc/src/lib.rs:241-244 | entry 1 of a halfword table |
| FailingInputs.SeventhBreakpointClaimed | vita-gdb/src/gdb/target.rs:433-446 | a seventh hardware breakpoint |
| FailingInputs.FailedClearLeavesRegister | vita-gdb/src/gdb/sessions.rs:487-493 | one armed register whose clearing call fails |
| FailingInputs.SecondWatchClaimed | vita-gdb/src/gdb/sessions.rs:206-215 | a second watchpoint of the same kind |
| FailingInputs.SecondWatchTakesRegister | vita-gdb/src/gdb/sessions.rs:206-215 | a second watchpoint of another kind |
| FailingInputs.ClearAllKeepsWatchSlot | vita-gdb/src/gdb/sessions.rs:495-500 | one watchpoint and a clear_all whose calls succeed |

## Left out

- `handle_watch` and the reports of watchpoint hits.
- Memory models weaker than sequential consistency, and more than one producer on the exception ring.
- Writes to process memory that fail after changing some bytes, and addresses that become mapped or unmapped.
- Sends that take zero bytes: the flush loop would not end.
- ArmEval.OffsetsCount: says what branch offsets count from the instruction's address; that is not compared with the manual, because what an offset means depends on the decoder, which is not part of this model.
- MpscRing.MpscRing.Len: the difference wraps as in a release build; a build with overflow checks, which the dev profile keeps, panics there once head is below tail.
- ArmNextPc: outside the shift, rotate and bitwise instructions, masks are written as the divisions and remainders they stand for.
- Session.HandleBreak: the faulting thread's instruction set is a parameter, because the context record it is read from is not part of this model.
- Armv7Regs.GdbDeserialize: the length checks on single words are shown never to fail, so they have no error path of their own.
- LibraryTransfer.ChunksReassemble: assumes the module list does not change between calls, and the array bounds of the kernel's module record (256 bytes of path, four segments), whose declaration is not part of this model.
- Libraries: a `char` stands for one byte of text; that a path is not UTF-8 is a case of the input.
- Target.VitaTarget.Resume: failures of the status calls, which are only logged, of the calls that list threads or read the process status, and of reads of memory that is mapped.
- LibraryTransfer.DocumentReadsBackExactly: the reader knows this document's elements only; it does not expand references, which the document never means to use, and does not look for the two noncharacters U+FFFE and U+FFFF.
- The rest of the event loop, gdbstub's packet parsing, monitor commands, process launch and listing, memory and register access of threads, printing, sockets, spinlocks and thread creation.
