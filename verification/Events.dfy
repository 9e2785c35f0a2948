/** What an exception handler records and what the event loop reports for it
    (vita-gdb/src/gdb/sessions.rs, vita-gdb/src/gdb/event_loop.rs). */
module Events {
  import opened Words

  /** What a ring of eight slots holds. */
  const RING_ROOM := 7

  datatype ExceptionKind = Dabt | Pabt | Undef

  datatype WatchKind = Read | Write | ReadWrite

  datatype ExceptionEvent =
    | HwBreak(tid: int)
    | SwBreak(tid: int)
    | Watch(tid: int, addr: u32, kind: WatchKind)
    | Exception(tid: int, excp: ExceptionKind)

  datatype Signal = SIGTRAP | SIGSEGV | SIGBUS | SIGILL

  datatype StopReason =
    | Exited
    | SignalWithThread(tid: int, signal: Signal)
    | HwBreakStop(tid: int)
    | SwBreakStop(tid: int)
    | WatchStop(tid: int, kind: WatchKind, addr: u32)

  function StopReasonFrom(ev: ExceptionEvent): StopReason {
    match ev
    case HwBreak(tid) => HwBreakStop(tid)
    case Watch(tid, addr, kind) => WatchStop(tid, kind, addr)
    case SwBreak(tid) => SwBreakStop(tid)
    case Exception(tid, Dabt) => SignalWithThread(tid, SIGSEGV)
    case Exception(tid, Pabt) => SignalWithThread(tid, SIGBUS)
    case Exception(tid, Undef) => SignalWithThread(tid, SIGILL)
  }

  /** The debugger can read back which exception happened: no two events share a stop reason, and none
      is mistaken for an exit or for the end of a step. */
  lemma StopReasonsAreDistinct(e: ExceptionEvent, f: ExceptionEvent, stepTid: int)
    ensures StopReasonFrom(e) == StopReasonFrom(f) <==> e == f
    ensures StopReasonFrom(e) != Exited
    ensures StopReasonFrom(e) != SignalWithThread(stepTid, SIGTRAP)
  {
  }

  /** Each stop reason stands for one kind of event: a data abort is a segmentation fault, a prefetch abort a
      bus error, and hardware breaks, software breaks and watchpoints are told apart. */
  lemma StopReasonNamesCause(e: ExceptionEvent, tid: int, addr: u32, kind: WatchKind)
    ensures StopReasonFrom(e) == HwBreakStop(tid) <==> e == HwBreak(tid)
    ensures StopReasonFrom(e) == SwBreakStop(tid) <==> e == SwBreak(tid)
    ensures StopReasonFrom(e) == WatchStop(tid, kind, addr) <==> e == Watch(tid, addr, kind)
    ensures StopReasonFrom(e) == SignalWithThread(tid, SIGSEGV) <==> e == Exception(tid, Dabt)
    ensures StopReasonFrom(e) == SignalWithThread(tid, SIGBUS) <==> e == Exception(tid, Pabt)
    ensures StopReasonFrom(e) == SignalWithThread(tid, SIGILL) <==> e == Exception(tid, Undef)
  {
  }
}
