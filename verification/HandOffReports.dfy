/** Every report has its cause: a history of what was raised, detached, attached and reported, read off the run
    itself, and what each report in it stands for (vita-gdb/src/gdb/event_loop.rs, vita-gdb/src/gdb/sessions.rs). */
module HandOffReports {
  import opened Words
  import opened Events
  import opened HandOff

  datatype Happening =
    | StepRaised(tid: int)
    | ExitRaised
    | Detached
    | Attached
    | Reported(reason: StopReason)

  /** What an action adds to the history; a report is one more entry in the list of reports. */
  function Happened(s: State, a: Action): seq<Happening>
    requires Enabled(s, a)
  {
    match a
    case RaiseStep(tid) => [StepRaised(tid)]
    case RaiseExited => [ExitRaised]
    case Detach => [Detached]
    case Attach => [Attached]
    case Worker =>
      var reported := Do(s, a).log.reported;
      if |reported| > |s.log.reported| then [Reported(reported[|reported| - 1])] else []
    case _ => []
  }

  ghost function History(s: State, run: seq<Action>): seq<Happening>
    requires IsRun(s, run)
    decreases |run|
  {
    if run == [] then [] else Happened(s, run[0]) + History(Do(s, run[0]), run[1..])
  }

  predicate IsStepReport(h: Happening) {
    h.Reported? && h.reason.SignalWithThread? && h.reason.signal == SIGTRAP
  }

  /** The step that has ended and has not been reported. */
  function StepDue(h: seq<Happening>): Option<int> {
    if h == [] then None
    else
      var last := h[|h| - 1];
      if last.StepRaised? then Some(last.tid) else if IsStepReport(last) then None else StepDue(h[..|h| - 1])
  }

  /** An exit was raised and neither reported nor forgotten by a detach. */
  predicate ExitDue(h: seq<Happening>) {
    h != [] &&
    var last := h[|h| - 1];
    last == ExitRaised || (last != Reported(Exited) && last != Detached && ExitDue(h[..|h| - 1]))
  }

  /** A detach was neither reported nor followed by an attach. */
  predicate DetachDue(h: seq<Happening>) {
    h != [] &&
    var last := h[|h| - 1];
    last == Detached || (last != Reported(Exited) && last != Attached && DetachDue(h[..|h| - 1]))
  }

  /** The session's marks are exactly what is due. */
  predicate MarksAreDue(s: State, h: seq<Happening>) {
    && s.sess.stepResult == StepDue(h) && s.sess.exited == ExitDue(h) && s.sess.detached == DetachDue(h)
    && (s.sess.detached ==> !s.sess.attached) && (!s.sess.attached ==> !s.sess.exited)
  }

  /** A report of a step's end or of an exit when one is due. */
  predicate Caused(h: seq<Happening>, reason: StopReason) {
    && (reason == Exited ==> ExitDue(h) || DetachDue(h))
    && (reason.SignalWithThread? && reason.signal == SIGTRAP ==> StepDue(h) == Some(reason.tid))
  }

  predicate Explained(h: seq<Happening>) {
    forall k :: 0 <= k < |h| && h[k].Reported? ==> Caused(h[..k], h[k].reason)
  }

  lemma OneMoreHappened(h: seq<Happening>, last: Happening)
    ensures StepDue(h + [last])
            == if last.StepRaised? then Some(last.tid) else if IsStepReport(last) then None else StepDue(h)
    ensures ExitDue(h + [last]) <==> last == ExitRaised || (last != Reported(Exited) && last != Detached && ExitDue(h))
    ensures DetachDue(h + [last])
            <==> last == Detached || (last != Reported(Exited) && last != Attached && DetachDue(h))
    ensures Explained(h) && (last.Reported? ==> Caused(h, last.reason)) ==> Explained(h + [last])
  {
    var t := h + [last];
    assert t[..|h|] == h;
    forall k | 0 <= k < |h| ensures t[k] == h[k] && t[..k] == h[..k] {
    }
  }

  /** What a poll finds at its present place. */
  predicate Finds(s: State, reason: StopReason) {
    || (s.worker == PollDetached && s.sess.detached && reason == Exited)
    || (s.worker.PollExited? && s.sess.attached && s.sess.exited && reason == Exited)
    || (s.worker == PollStep && s.sess.stepResult.Some?
        && reason == SignalWithThread(s.sess.stepResult.value, SIGTRAP))
    || (s.worker == PollExcp && s.sess.ring != [] && reason == StopReasonFrom(s.sess.ring[0]))
  }

  /** The session once that has been reported. */
  function Taken(s: State): Session {
    match s.worker
    case PollDetached => s.sess.(detached := false)
    case PollExited(_) => s.sess.(exited := false)
    case PollStep => s.sess.(stepResult := None)
    case _ => if s.sess.ring == [] then s.sess else s.sess.(ring := s.sess.ring[1..])
  }

  /** A step of the worker reports exactly what the poll finds, and takes it, or reports nothing and leaves the
      session alone. */
  lemma WorkerReportsWhatItFinds(s: State)
    requires Enabled(s, Worker)
    ensures var t := Do(s, Worker);
            || (t.log.reported == s.log.reported && t.sess == s.sess && forall reason :: !Finds(s, reason))
            || (t.sess == Taken(s) && t.worker == Busy
                && exists reason :: Finds(s, reason) && t.log.reported == s.log.reported + [reason])
  {
    var t := Do(s, Worker);
    if t.log.reported != s.log.reported {
      var reason := t.log.reported[|s.log.reported|];
      assert Finds(s, reason) && t.log.reported == s.log.reported + [reason];
    }
  }

  lemma FoundIsDue(s: State, h: seq<Happening>, reason: StopReason)
    requires MarksAreDue(s, h) && Finds(s, reason)
    ensures Caused(h, reason)
  {
    if s.worker == PollExcp && s.sess.ring != [] {
      StopReasonsAreDistinct(s.sess.ring[0], s.sess.ring[0], if reason.SignalWithThread? then reason.tid else 0);
    }
  }

  lemma TakenIsNotDue(s: State, t: State, h: seq<Happening>, reason: StopReason)
    requires MarksAreDue(s, h) && Finds(s, reason) && t.sess == Taken(s)
    ensures MarksAreDue(t, h + [Reported(reason)])
  {
    OneMoreHappened(h, Reported(reason));
    if s.worker == PollExcp && s.sess.ring != [] {
      StopReasonsAreDistinct(s.sess.ring[0], s.sess.ring[0], if reason.SignalWithThread? then reason.tid else 0);
    }
  }

  lemma ReportKeepsMarks(s: State, h: seq<Happening>)
    requires MarksAreDue(s, h) && Explained(h) && Enabled(s, Worker)
    ensures MarksAreDue(Do(s, Worker), h + Happened(s, Worker)) && Explained(h + Happened(s, Worker))
  {
    WorkerReportsWhatItFinds(s);
    var t := Do(s, Worker);
    if t.log.reported == s.log.reported {
      assert h + [] == h;
    } else {
      var reason :| Finds(s, reason) && t.log.reported == s.log.reported + [reason];
      FoundIsDue(s, h, reason);
      TakenIsNotDue(s, t, h, reason);
      OneMoreHappened(h, Reported(reason));
    }
  }

  lemma OtherKeepsMarks(s: State, h: seq<Happening>, a: Action)
    requires MarksAreDue(s, h) && Explained(h) && Enabled(s, a) && !a.Worker?
    ensures MarksAreDue(Do(s, a), h + Happened(s, a)) && Explained(h + Happened(s, a))
  {
    var more := Happened(s, a);
    if more == [] {
      assert h + more == h;
    } else {
      OneMoreHappened(h, more[0]);
      assert more == [more[0]];
    }
  }

  lemma StepKeepsMarks(s: State, h: seq<Happening>, a: Action)
    requires MarksAreDue(s, h) && Explained(h) && Enabled(s, a)
    ensures MarksAreDue(Do(s, a), h + Happened(s, a)) && Explained(h + Happened(s, a))
  {
    if a.Worker? {
      ReportKeepsMarks(s, h);
    } else {
      OtherKeepsMarks(s, h, a);
    }
  }

  lemma {:induction false} RunKeepsMarks(s: State, run: seq<Action>, h: seq<Happening>)
    requires IsRun(s, run) && MarksAreDue(s, h) && Explained(h)
    ensures MarksAreDue(After(s, run), h + History(s, run)) && Explained(h + History(s, run))
    decreases |run|
  {
    if run == [] {
      assert h + [] == h;
    } else {
      StepKeepsMarks(s, h, run[0]);
      RunKeepsMarks(Do(s, run[0]), run[1..], h + Happened(s, run[0]));
      Chained(h, Happened(s, run[0]), History(Do(s, run[0]), run[1..]));
    }
  }

  lemma Chained(a: seq<Happening>, b: seq<Happening>, c: seq<Happening>)
    ensures a + b + c == a + (b + c)
  {
  }

  // ---- What is due, said outright

  /** Entry k is the last before j that raised, or took back, the end of a step. */
  predicate LastOfStep(h: seq<Happening>, k: nat, j: nat) {
    k < j <= |h| && forall m :: k < m < j ==> !h[m].StepRaised? && !IsStepReport(h[m])
  }

  lemma {:induction false} StepDueMeans(h: seq<Happening>, j: nat, tid: int)
    requires j <= |h| && StepDue(h[..j]) == Some(tid)
    ensures exists k: nat :: LastOfStep(h, k, j) && h[k] == StepRaised(tid)
    decreases j
  {
    assert j > 0;
    assert h[..j][..j - 1] == h[..j - 1];
    if h[j - 1].StepRaised? {
      assert LastOfStep(h, j - 1, j);
    } else {
      StepDueMeans(h, j - 1, tid);
      var k: nat :| LastOfStep(h, k, j - 1) && h[k] == StepRaised(tid);
      assert LastOfStep(h, k, j);
    }
  }

  predicate SinceExitReport(h: seq<Happening>, k: nat, j: nat) {
    k < j <= |h| && forall m :: k < m < j ==> h[m] != Reported(Exited)
  }

  lemma {:induction false} ExitDueMeans(h: seq<Happening>, j: nat)
    requires j <= |h| && (ExitDue(h[..j]) || DetachDue(h[..j]))
    ensures exists k: nat :: SinceExitReport(h, k, j) && (h[k] == ExitRaised || h[k] == Detached)
    decreases j
  {
    assert j > 0;
    assert h[..j][..j - 1] == h[..j - 1];
    if h[j - 1] == ExitRaised || h[j - 1] == Detached {
      assert SinceExitReport(h, j - 1, j);
    } else {
      ExitDueMeans(h, j - 1);
      var k: nat :| SinceExitReport(h, k, j - 1) && (h[k] == ExitRaised || h[k] == Detached);
      assert SinceExitReport(h, k, j);
    }
  }

  /** Over every run from the start: a SIGTRAP report carries the thread of the last step that was raised, raised
      since the previous such report; a report of an exit stands for an exit or a detach since the previous such
      report. So each is reported at most once, and as what it is. */
  lemma ReportsHaveCauses(s: State, run: seq<Action>, j: nat)
    requires Init(s) && IsRun(s, run) && j < |History(s, run)| && History(s, run)[j].Reported?
    ensures var h := History(s, run);
            && (IsStepReport(h[j]) ==>
                  exists k: nat :: LastOfStep(h, k, j) && h[k] == StepRaised(h[j].reason.tid))
            && (h[j].reason == Exited ==>
                  exists k: nat :: SinceExitReport(h, k, j) && (h[k] == ExitRaised || h[k] == Detached))
  {
    var h := History(s, run);
    RunKeepsMarks(s, run, []);
    assert [] + h == h;
    assert Caused(h[..j], h[j].reason);
    if IsStepReport(h[j]) {
      StepDueMeans(h, j, h[j].reason.tid);
    } else if h[j].reason == Exited {
      ExitDueMeans(h, j);
    }
  }

  /** And nothing that is due is forgotten: the session holds exactly what has been raised and not reported. A new
      session does not inherit the detach of the old one. */
  lemma DueIsKept(s: State, run: seq<Action>)
    requires Init(s) && IsRun(s, run)
    ensures var h, t := History(s, run), After(s, run);
            t.sess.stepResult == StepDue(h) && t.sess.exited == ExitDue(h) && t.sess.detached == DetachDue(h)
            && (t.sess.detached ==> !t.sess.attached)
  {
    RunKeepsMarks(s, run, []);
    assert [] + History(s, run) == History(s, run);
  }

  /** Every callback that stores an event goes on to wake the worker, also when the ring had no room for it; until
      it does, it counts as armed. */
  lemma CallbackWakesWorker(s: State, a: Action)
    requires Enabled(s, a) && (a.RaiseExited? || a.RaiseStep? || a.RaiseExcp?)
    ensures var t := Do(s, a);
            && t.armed == s.armed + 1 && t.flag == s.flag && Enabled(t, HandlerSignal)
            && Do(t, HandlerSignal) == t.(armed := s.armed, flag := s.flag.(worker := true))
            && (a.RaiseExcp? ==>
                  t.sess == s.sess.(ring := if |s.sess.ring| < 7 then s.sess.ring + [a.ev] else s.sess.ring))
  {
  }
}
