/** What the hand-off promises: bytes arrive once and in order, nobody sleeps through an event, the two
    threads are never stuck, and closing ends the receive thread. */
module HandOffTheorems {
  import opened Words
  import opened Events
  import opened HandOff
  import opened HandOffSafety
  import opened HandOffReports

  // ---- The byte stream

  /** Every byte received is delivered exactly once and in order: nothing is lost, repeated or swapped. */
  lemma DeliveredInOrder(s: State)
    requires Reachable(s)
    ensures s.log.received == s.log.delivered + Unread(s) + Unpublished(s)
    ensures |Unread(s)| + |Unpublished(s)| <= BUFFER_SIZE
  {
    ReachableInv(s);
  }

  /** The threads never touch the buffer together, and read() never indexes past what was published. */
  lemma BufferHasOneUser(s: State)
    requires Reachable(s)
    ensures !(RxOwnsBuffer(s) && WorkerTouchesBuffer(s))
    ensures s.worker.TakeByte? ==> s.readLen < s.worker.len == s.conn.len <= |s.conn.buf|
  {
    ReachableInv(s);
  }

  /** A poll reports the peer's end of stream only when every byte received has been delivered. A receive
      error is never reported: read() looks at `err` only once `closed` is set, and then it is empty. */
  lemma EofComesLast(s: State)
    requires Reachable(s) && s.worker.LoadClosed?
    ensures s.conn.closed ==> s.log.peerEof && !s.conn.err && s.log.delivered == s.log.received
    ensures s.rx == Done ==> (s.conn.closed <==> !s.log.rxFailed)
  {
    ReachableInv(s);
    if s.conn.closed {
      assert s.log.received == s.log.delivered + [] + [];
    }
  }

  // ---- No lost wake-up

  /** A worker asleep with EV_WAKE_WORKER clear has nothing to wake up for, except what a thread that is
      about to set the flag has just stored. */
  lemma WorkerSleepsOnlyOnNothing(s: State)
    requires Reachable(s) && WorkerBlocked(s)
    ensures !s.rx.SignalWorker? ==> Unread(s) == [] && s.conn.len == 0 && !s.conn.closed
    ensures s.sess.attached && s.armed == 0 ==> !s.sess.exited
    ensures s.worker.mode == Running ==> !s.sess.detached
    ensures s.worker.mode == Running && s.sess.attached && s.armed == 0
            ==> s.sess.stepResult == None && s.sess.ring == []
  {
    ReachableInv(s);
  }

  /** A receive thread asleep with EV_WAKE_READER clear still has its bytes in the buffer, or the worker is
      about to wake it. */
  lemma ReaderSleepsOnlyOnUnreadBytes(s: State)
    requires Reachable(s) && RxBlocked(s)
    ensures Unread(s) != [] || s.worker in {StoreLen, SignalReader, CloseSocket, SignalClose}
  {
    ReachableInv(s);
  }

  lemma NeverBothAsleep(s: State)
    requires Reachable(s)
    ensures !(WorkerBlocked(s) && RxBlocked(s))
  {
    ReachableInv(s);
  }

  /** Exactly when nothing can ever happen again: the connection was closed to the end, or its receive call
      failed while the worker sleeps. Only in the second case is a thread left waiting. */
  lemma DeadlockExactly(s: State)
    requires Reachable(s)
    ensures (forall a :: !Enabled(s, a))
            <==> s.armed == 0 && !s.sess.attached && s.rx == Done
                 && (s.worker == Released || (WorkerBlocked(s) && s.log.rxFailed))
  {
    ReachableInv(s);
    if forall a :: !Enabled(s, a) {
      assert !Enabled(s, Worker) && !Enabled(s, Rx) && !Enabled(s, RxEof);
      assert !Enabled(s, HandlerSignal) && !Enabled(s, RaiseExited) && !Enabled(s, BeginClose);
      StuckMeans(s);
    }
  }

  /** With a session attached a callback can always come, but the two threads alone are stuck only one way:
      the receive call has failed. */
  lemma ThreadsStuckExactly(s: State)
    requires Reachable(s) && WorkerBlocked(s) && s.armed == 0
    ensures s.rx != Receiving && !Enabled(s, Rx) <==> s.rx == Done && s.log.rxFailed
  {
    ReachableInv(s);
  }

  /** Such a worker, if no event comes, sleeps for ever: only a callback or another receive can wake it. */
  lemma OnlyEventsWakeWorker(s: State, a: Action)
    requires WorkerBlocked(s) && s.rx == Done && Enabled(s, a)
    ensures a.RaiseExited? || a.RaiseStep? || a.RaiseExcp? || a.HandlerSignal?
  {
  }

  lemma StuckMeans(s: State)
    requires Inv(s) && !Enabled(s, Worker) && !Enabled(s, Rx) && !Enabled(s, RxEof)
    requires !Enabled(s, HandlerSignal) && !Enabled(s, RaiseExited) && !Enabled(s, BeginClose)
    ensures s.armed == 0 && !s.sess.attached && s.rx == Done
    ensures s.worker == Released || (WorkerBlocked(s) && s.log.rxFailed)
  {
  }

  function Fresh(): State {
    State(Conn(seq(BUFFER_SIZE, _ => 0), 0, false, false), Flag(false, false),
          Session(false, false, false, None, []), 0, Busy, 0, CheckClosed,
          Log([], [], false, false, false, [], [], []))
  }

  /** The state after a receive call that failed: `err` is set, `closed` is not. */
  function ReceiveFailed(): State {
    var s := Fresh();
    s.(rx := Done, flag := Flag(true, false), conn := s.conn.(err := true), log := s.log.(rxFailed := true))
  }

  lemma ReachReceiveFailed()
    ensures Reachable(ReceiveFailed())
  {
    var s := Fresh();
    assert IsRun(s, []) && After(s, []) == s;
    s := ReachNext(s, Rx);
    s := ReachNext(s, Rx);
    s := ReachNext(s, RxErr);
    s := ReachNext(s, Rx);
    s := ReachNext(s, Rx);
  }

  /** An idle poll that finds nothing goes to sleep. */
  lemma ReachSleep(s: State)
    requires Reachable(s) && s.worker == PollExited(Idle) && !s.sess.attached && !s.conn.closed && s.conn.len == 0
    ensures Reachable(s.(worker := WaitWorker(Idle)))
  {
    var t := ReachNext(s, Worker);
    t := ReachNext(t, Worker);
    t := ReachNext(t, Worker);
  }

  /** The deadlock is reachable: the receive call fails, and the worker waits for it for ever. */
  lemma ReceiveErrorStrandsWorker() returns (s: State)
    ensures Reachable(s) && WorkerBlocked(s) && s.log.rxFailed && forall a :: !Enabled(s, a)
  {
    ReachReceiveFailed();
    s := ReachNext(ReceiveFailed(), StartPoll(Idle));
    ReachSleep(s);
    s := ReachNext(s.(worker := WaitWorker(Idle)), Worker);
    ReachSleep(s);
    s := s.(worker := WaitWorker(Idle));
    DeadlockExactly(s);
  }

  lemma ReachNext(s: State, a: Action) returns (t: State)
    requires Reachable(s) && Enabled(s, a)
    ensures Reachable(t) && t == Do(s, a)
  {
    ReachableStep(s, a);
    t := Do(s, a);
  }

  lemma ReachableStep(s: State, a: Action)
    requires Reachable(s) && Enabled(s, a)
    ensures Reachable(Do(s, a))
  {
    var init, run :| Init(init) && IsRun(init, run) && After(init, run) == s;
    OneStepRun(s, a);
    RunsCompose(init, run, [a]);
  }

  lemma OneStepRun(s: State, a: Action)
    requires Enabled(s, a)
    ensures IsRun(s, [a]) && After(s, [a]) == Do(s, a)
  {
    var run := [a];
    assert run[0] == a && run[1..] == [];
    assert IsRun(Do(s, a), []) && After(Do(s, a), []) == Do(s, a);
  }

  lemma {:induction false} RunsCompose(s: State, a: seq<Action>, b: seq<Action>)
    requires IsRun(s, a) && IsRun(After(s, a), b)
    ensures IsRun(s, a + b) && After(s, a + b) == After(After(s, a), b)
    decreases |a|
  {
    if a == [] {
      assert a + b == b;
    } else {
      RunsCompose(Do(s, a[0]), a[1..], b);
      assert (a + b)[0] == a[0] && (a + b)[1..] == a[1..] + b;
    }
  }

  // ---- Closing

  predicate IsRx(a: Action) {
    a.Rx? || a.RxData? || a.RxEof? || a.RxErr?
  }

  /** How many more steps the receive thread can take once `closed` is set. */
  function RxStepsLeft(rx: RxPc): nat {
    match rx
    case Done => 0
    case CheckClosed => 1
    case SignalWorker(exit) => if exit then 1 else 2
    case WaitReader => 2
    case MarkEof => 2
    case MarkErr => 2
    case Publish(_) => 3
    case Receiving => 4
    case CheckLen => 5
  }

  function RxSteps(run: seq<Action>): nat {
    if run == [] then 0 else (if IsRx(run[0]) then 1 else 0) + RxSteps(run[1..])
  }

  lemma ClosingStep(s: State, a: Action)
    requires Inv(s) && s.log.closing && Enabled(s, a)
    ensures Do(s, a).log.closing
    ensures IsRx(a) ==> RxStepsLeft(Do(s, a).rx) < RxStepsLeft(s.rx)
    ensures !IsRx(a) ==> Do(s, a).rx == s.rx
  {
  }

  /** After close has set `closed` and EV_WAKE_READER the receive thread never sleeps again, and join
      returns exactly when it has ended. */
  lemma ReaderRunsAfterClose(s: State)
    requires Reachable(s) && (s.worker == Join || s.worker == Released)
    ensures s.rx == Done || s.rx == Receiving || Enabled(s, Rx)
    ensures s.worker == Join ==> (Enabled(s, Worker) <==> s.rx == Done)
    ensures s.worker == Released ==> s.rx == Done
  {
    ReachableInv(s);
  }

  /** From any state in which close has begun, however it goes on, the receive thread takes at most five
      more steps, and once it has none left it has ended. */
  lemma {:induction false} CloseBoundsReader(s: State, run: seq<Action>)
    requires Inv(s) && s.log.closing && IsRun(s, run)
    ensures RxSteps(run) + RxStepsLeft(After(s, run).rx) <= RxStepsLeft(s.rx) <= 5
    ensures After(s, run).log.closing
    decreases |run|
  {
    if run != [] {
      ClosingStep(s, run[0]);
      StepKeepsInv(s, run[0]);
      CloseBoundsReader(Do(s, run[0]), run[1..]);
    }
  }

  // ---- Pending exceptions

  /** Between resets, the exceptions reported, then those still in the ring, are those accepted, in order. */
  lemma ExceptionsReportedInOrder(s: State)
    requires Reachable(s)
    ensures ExceptionStops(s.log.reported) + StopReasons(s.sess.ring) == StopReasons(s.log.accepted)
  {
    ReachableInv(s);
    StopReasonsAdd(s.log.popped, s.sess.ring);
  }

  predicate PollingRunning(pc: WorkerPc) {
    pc == PollDetached || pc == PollExited(Running) || pc == PollStep || pc == PollExcp
  }

  /** Worker steps before this poll reaches the ring. */
  function PollDepth(pc: WorkerPc): nat {
    match pc
    case PollDetached => 4
    case PollExited(_) => 3
    case PollStep => 2
    case PollExcp => 1
    case _ => 0
  }

  function WorkerSteps(run: seq<Action>): nat {
    if run == [] then 0 else (if run[0].Worker? then 1 else 0) + WorkerSteps(run[1..])
  }

  predicate StillPolling(s: State, t: State, steps: nat) {
    && PollingRunning(t.worker) && t.log.reported == s.log.reported
    && steps + PollDepth(t.worker) <= PollDepth(s.worker)
    && t.sess.attached && s.sess.ring != [] && t.sess.ring != [] && t.sess.ring[0] == s.sess.ring[0]
  }

  /** From s to u the poll has gone on; at u it finds `reason` and reports it; an exception is the oldest at s. */
  predicate HasReported(s: State, u: State, t: State, reason: StopReason) {
    && Finds(u, reason) && t.worker == Busy && t.log.reported == s.log.reported + [reason]
    && (u.worker == PollExcp ==> s.sess.ring != [] && reason == StopReasonFrom(s.sess.ring[0]))
  }

  lemma PollingStep(s: State, a: Action)
    requires PollingRunning(s.worker) && s.sess.attached && s.sess.ring != [] && Enabled(s, a)
    ensures StillPolling(s, Do(s, a), if a.Worker? then 1 else 0)
            || (a.Worker? && exists reason :: HasReported(s, s, Do(s, a), reason))
  {
    var t := Do(s, a);
    if t.worker == Busy {
      assert HasReported(s, s, t, t.log.reported[|s.log.reported|]);
    }
  }

  /** With an exception pending, a running poll never gets as far as reading a byte or sleeping: within four
      of the worker's own steps, whatever the others do meanwhile, it reports what it finds at its place: a detach
      or an exit as an exit, a step's end with its thread and SIGTRAP, or else the oldest pending exception. */
  lemma {:induction false} PollReportsOldest(s: State, run: seq<Action>) returns (k: nat, reason: StopReason)
    requires PollingRunning(s.worker) && s.sess.attached && s.sess.ring != [] && IsRun(s, run)
    ensures StillPolling(s, After(s, run), WorkerSteps(run))
            || (k < |run| && IsRun(s, run[..k]) && run[k] == Worker && Enabled(After(s, run[..k]), Worker)
                && WorkerSteps(run[..k]) < PollDepth(s.worker) <= 4
                && HasReported(s, After(s, run[..k]), Do(After(s, run[..k]), Worker), reason))
    decreases |run|
  {
    k, reason := 0, Exited;
    if run != [] {
      var t := Do(s, run[0]);
      PollingStep(s, run[0]);
      if t.worker == Busy {
        reason :| HasReported(s, s, t, reason);
        assert run[..0] == [] && IsRun(s, []) && WorkerSteps([]) == 0;
      } else {
        k, reason := PollReportsOldest(t, run[1..]);
        if k < |run| - 1 {
          assert run[..k + 1][0] == run[0] && run[..k + 1][1..] == run[1..][..k];
        }
        k := k + 1;
      }
    }
  }
}
