/** What every interleaving of the hand-off keeps. */
module HandOffSafety {
  import opened Words
  import opened Events
  import opened HandOff

  // ---- Places in the two programs

  predicate RxOwnsBuffer(s: State) {
    s.rx.Receiving? || s.rx.Publish? || s.rx.MarkEof? || s.rx.MarkErr?
  }

  predicate WorkerTouchesBuffer(s: State) {
    s.worker.TakeByte? || s.worker.StoreLen?
  }

  predicate WorkerClosing(s: State) {
    s.worker.CloseSocket? || s.worker.SignalClose? || s.worker.Join? || s.worker.Released?
  }

  predicate WorkerBlocked(s: State) {
    s.worker.WaitWorker? && !s.flag.worker
  }

  predicate RxBlocked(s: State) {
    s.rx.WaitReader? && !s.flag.reader
  }

  // PastX: the current poll has already looked for X and found none.

  predicate PastExited(pc: WorkerPc) {
    pc.PollStep? || pc.PollExcp? || pc.LoadClosed? || pc.LoadLen? || pc.WaitWorker?
  }

  predicate PastExcp(pc: WorkerPc) {
    (pc.LoadClosed? || pc.LoadLen? || pc.WaitWorker?) && pc.mode == Running
  }

  predicate PastStep(pc: WorkerPc) {
    pc.PollExcp? || PastExcp(pc)
  }

  predicate PastDetached(pc: WorkerPc) {
    pc == PollExited(Running) || pc.PollStep? || PastStep(pc)
  }

  // ---- Invariants

  function Unread(s: State): seq<byte> {
    if s.readLen <= s.conn.len <= |s.conn.buf| then s.conn.buf[s.readLen..s.conn.len] else []
  }

  function Unpublished(s: State): seq<byte> {
    if s.rx.Publish? && s.rx.n <= |s.conn.buf| then s.conn.buf[..s.rx.n] else []
  }

  predicate BufferInv(s: State) {
    && |s.conn.buf| == BUFFER_SIZE
    && s.readLen <= s.conn.len <= BUFFER_SIZE
    && (s.readLen == s.conn.len ==> s.conn.len == 0 || s.worker == StoreLen)
    && (RxOwnsBuffer(s) ==> s.conn.len == 0)
    && (s.worker.TakeByte? ==> s.worker.len == s.conn.len && s.readLen < s.conn.len)
    && (s.worker == StoreLen ==> 0 < s.readLen == s.conn.len)
    && (s.rx.Publish? ==> 0 < s.rx.n <= BUFFER_SIZE)
  }

  /** Every byte received is delivered, or waiting in the buffer, in order. */
  predicate StreamInv(s: State) {
    s.log.delivered + Unread(s) + Unpublished(s) == s.log.received
  }

  predicate EofInv(s: State) {
    && (s.log.peerEof ==> s.conn.len == 0)
    && (s.log.peerEof ==> s.rx == MarkEof || s.rx == SignalWorker(true) || s.rx == Done)
    && (s.rx == MarkEof ==> s.log.peerEof)
    && (s.log.peerEof && s.rx != MarkEof ==> s.conn.closed)
    && (s.conn.closed ==> s.log.closing || s.log.peerEof)
  }

  predicate ErrInv(s: State) {
    && (s.log.rxFailed ==> !s.log.peerEof)
    && (s.log.rxFailed ==> s.rx == MarkErr || s.rx == SignalWorker(true) || s.rx == Done)
    && (s.rx == MarkErr || s.conn.err ==> s.log.rxFailed || s.log.closing)
    && (s.rx == SignalWorker(true) || s.rx == Done ==> s.log.peerEof || s.log.rxFailed || s.log.closing)
  }

  predicate CloseInv(s: State) {
    && (s.log.closing <==> WorkerClosing(s))
    && (s.log.closing ==> s.conn.closed)
    && (s.worker == Released ==> s.rx == Done)
  }

  /** Whatever the current poll found absent and is there now has been announced, or is about to be. */
  predicate WakeWorkerInv(s: State) {
    var told := s.flag.worker || s.armed > 0;
    && (s.sess.attached && s.sess.exited && PastExited(s.worker) ==> told)
    && (s.sess.attached && s.sess.stepResult.Some? && PastStep(s.worker) ==> told)
    && (s.sess.attached && s.sess.ring != [] && PastExcp(s.worker) ==> told)
    && (s.sess.detached ==> !PastDetached(s.worker))
    && (s.worker.PollStep? || s.worker.PollExcp? ==> s.sess.attached)
  }

  predicate WakeForBytesInv(s: State) {
    && (s.worker.WaitWorker? && s.conn.len != 0 ==> s.flag.worker || s.rx.SignalWorker?)
    && ((s.worker.LoadLen? || s.worker.WaitWorker?) && s.conn.closed ==> s.flag.worker || s.rx.SignalWorker?)
  }

  /** A receive thread waiting for room, or past its check for a close, will find EV_WAKE_READER set. */
  predicate WakeReaderInv(s: State) {
    && (s.rx == WaitReader && s.conn.len == 0 ==> s.flag.reader || s.worker == SignalReader || s.log.closing)
    && (s.worker == Join && (s.rx == CheckLen || s.rx == WaitReader) ==> s.flag.reader)
  }

  /** The reports that stand for exceptions. */
  function ExceptionStops(reported: seq<StopReason>): seq<StopReason> {
    if reported == [] then []
    else
      var last := reported[|reported| - 1];
      ExceptionStops(reported[..|reported| - 1])
      + if last == Exited || (last.SignalWithThread? && last.signal == SIGTRAP) then [] else [last]
  }

  function StopReasons(events: seq<ExceptionEvent>): seq<StopReason> {
    seq(|events|, i requires 0 <= i < |events| => StopReasonFrom(events[i]))
  }

  predicate EventInv(s: State) {
    && |s.sess.ring| <= RING_ROOM
    && s.log.popped + s.sess.ring == s.log.accepted
    && ExceptionStops(s.log.reported) == StopReasons(s.log.popped)
  }

  predicate Inv(s: State) {
    && BufferInv(s) && StreamInv(s) && EofInv(s) && ErrInv(s) && CloseInv(s)
    && WakeWorkerInv(s) && WakeForBytesInv(s) && WakeReaderInv(s) && EventInv(s)
  }

  // ---- Every step keeps them

  predicate OfReceiver(a: Action) {
    a.Rx? || a.RxData? || a.RxEof? || a.RxErr?
  }

  lemma StepKeepsBuffer(s: State, a: Action)
    requires BufferInv(s) && EofInv(s) && Enabled(s, a)
    ensures BufferInv(Do(s, a))
  {
    if a.Worker? {
      WorkerKeepsBuffer(s);
    } else if OfReceiver(a) {
      RxKeepsBuffer(s, a);
    }
  }

  lemma WorkerKeepsBuffer(s: State)
    requires BufferInv(s) && EofInv(s) && Enabled(s, Worker)
    ensures BufferInv(Do(s, Worker))
  {
  }

  lemma RxKeepsBuffer(s: State, a: Action)
    requires BufferInv(s) && EofInv(s) && Enabled(s, a) && OfReceiver(a)
    ensures BufferInv(Do(s, a))
  {
  }

  lemma StepKeepsStream(s: State, a: Action)
    requires BufferInv(s) && StreamInv(s) && Enabled(s, a)
    ensures StreamInv(Do(s, a))
  {
    if a.Worker? {
      WorkerKeepsStream(s);
    } else if OfReceiver(a) {
      RxKeepsStream(s, a);
    } else {
      assert Unread(Do(s, a)) == Unread(s) && Unpublished(Do(s, a)) == Unpublished(s);
    }
  }

  lemma WorkerKeepsStream(s: State)
    requires BufferInv(s) && StreamInv(s) && Enabled(s, Worker)
    ensures StreamInv(Do(s, Worker))
  {
    var t := Do(s, Worker);
    if s.worker.TakeByte? {
      var b := s.conn.buf[s.readLen];
      assert Unread(s) == [b] + Unread(t);
      HandOver(s.log.delivered, b, Unread(t), Unpublished(s));
    } else {
      assert Unread(t) == Unread(s);
    }
  }

  lemma HandOver(delivered: seq<byte>, b: byte, unread: seq<byte>, rest: seq<byte>)
    ensures delivered + ([b] + unread) + rest == delivered + [b] + unread + rest
  {
  }

  lemma RxKeepsStream(s: State, a: Action)
    requires BufferInv(s) && StreamInv(s) && Enabled(s, a) && OfReceiver(a)
    ensures StreamInv(Do(s, a))
  {
    if a.RxData? {
      ReceivingKeepsStream(s, a.ds);
    } else if a.Rx? && s.rx.Publish? {
      PublishingKeepsStream(s);
    } else {
      assert Unread(Do(s, a)) == Unread(s) && Unpublished(Do(s, a)) == Unpublished(s);
    }
  }

  lemma ReceivingKeepsStream(s: State, ds: seq<byte>)
    requires BufferInv(s) && StreamInv(s) && Enabled(s, RxData(ds))
    ensures StreamInv(Do(s, RxData(ds)))
  {
    var t := Do(s, RxData(ds));
    assert t.conn.buf[..|ds|] == ds;
    assert Unread(s) == Unread(t) == Unpublished(s) == [];
  }

  lemma PublishingKeepsStream(s: State)
    requires BufferInv(s) && StreamInv(s) && s.rx.Publish?
    ensures StreamInv(Do(s, Rx))
  {
    var t := Do(s, Rx);
    assert Unread(t) == Unpublished(s) && Unread(s) == Unpublished(t) == [];
  }

  lemma StepKeepsEof(s: State, a: Action)
    requires BufferInv(s) && EofInv(s) && ErrInv(s) && Enabled(s, a)
    ensures EofInv(Do(s, a))
  {
    if a.Worker? {
      WorkerKeepsEof(s);
    } else if OfReceiver(a) {
      RxKeepsEof(s, a);
    }
  }

  lemma WorkerKeepsEof(s: State)
    requires BufferInv(s) && EofInv(s) && ErrInv(s) && Enabled(s, Worker)
    ensures EofInv(Do(s, Worker))
  {
  }

  lemma RxKeepsEof(s: State, a: Action)
    requires BufferInv(s) && EofInv(s) && ErrInv(s) && Enabled(s, a) && OfReceiver(a)
    ensures EofInv(Do(s, a))
  {
  }

  lemma StepKeepsErr(s: State, a: Action)
    requires EofInv(s) && ErrInv(s) && CloseInv(s) && Enabled(s, a)
    ensures ErrInv(Do(s, a))
  {
    if a.Worker? {
      WorkerKeepsErr(s);
    } else if OfReceiver(a) {
      RxKeepsErr(s, a);
    }
  }

  lemma WorkerKeepsErr(s: State)
    requires EofInv(s) && ErrInv(s) && CloseInv(s) && Enabled(s, Worker)
    ensures ErrInv(Do(s, Worker))
  {
  }

  lemma RxKeepsErr(s: State, a: Action)
    requires EofInv(s) && ErrInv(s) && CloseInv(s) && Enabled(s, a) && OfReceiver(a)
    ensures ErrInv(Do(s, a))
  {
  }

  lemma StepKeepsClose(s: State, a: Action)
    requires CloseInv(s) && Enabled(s, a)
    ensures CloseInv(Do(s, a))
  {
  }

  lemma StepKeepsWakeWorker(s: State, a: Action)
    requires WakeWorkerInv(s) && Enabled(s, a)
    ensures WakeWorkerInv(Do(s, a))
  {
    if a.Worker? {
      WorkerKeepsWakeWorker(s);
    } else if OfReceiver(a) {
      RxKeepsWakeWorker(s, a);
    }
  }

  lemma WorkerKeepsWakeWorker(s: State)
    requires WakeWorkerInv(s) && Enabled(s, Worker)
    ensures WakeWorkerInv(Do(s, Worker))
  {
  }

  lemma RxKeepsWakeWorker(s: State, a: Action)
    requires WakeWorkerInv(s) && Enabled(s, a) && OfReceiver(a)
    ensures WakeWorkerInv(Do(s, a))
  {
  }

  lemma StepKeepsWakeForBytes(s: State, a: Action)
    requires CloseInv(s) && WakeForBytesInv(s) && Enabled(s, a)
    ensures WakeForBytesInv(Do(s, a))
  {
  }

  lemma StepKeepsWakeReader(s: State, a: Action)
    requires CloseInv(s) && WakeReaderInv(s) && Enabled(s, a)
    ensures WakeReaderInv(Do(s, a))
  {
  }

  lemma StepKeepsEvents(s: State, a: Action)
    requires EventInv(s) && Enabled(s, a)
    ensures EventInv(Do(s, a))
  {
    if a.Worker? {
      PollKeepsEvents(s);
    }
  }

  lemma PollKeepsEvents(s: State)
    requires EventInv(s) && Enabled(s, Worker)
    ensures EventInv(Do(s, Worker))
  {
    if s.worker.PollExcp? && s.sess.ring != [] {
      PopKeepsEvents(s);
    } else if Do(s, Worker).log.reported != s.log.reported {
      UrgentKeepsEvents(s);
    }
  }

  lemma PopKeepsEvents(s: State)
    requires EventInv(s) && s.worker.PollExcp? && s.sess.ring != []
    ensures EventInv(Do(s, Worker))
  {
    TakeFirst(s.log.popped, s.sess.ring);
    ReportsException(s.log.reported, s.log.popped, s.sess.ring[0]);
  }

  lemma TakeFirst(popped: seq<ExceptionEvent>, ring: seq<ExceptionEvent>)
    requires ring != []
    ensures popped + [ring[0]] + ring[1..] == popped + ring
  {
  }

  lemma ReportsException(reported: seq<StopReason>, popped: seq<ExceptionEvent>, ev: ExceptionEvent)
    requires ExceptionStops(reported) == StopReasons(popped)
    ensures ExceptionStops(reported + [StopReasonFrom(ev)]) == StopReasons(popped + [ev])
  {
    ReportsPlain(reported, StopReasonFrom(ev));
    StopReasonsOneMore(popped, ev);
  }

  lemma ReportsPlain(reported: seq<StopReason>, reason: StopReason)
    requires reason != Exited && !(reason.SignalWithThread? && reason.signal == SIGTRAP)
    ensures ExceptionStops(reported + [reason]) == ExceptionStops(reported) + [reason]
  {
    Reports(reported, reason);
  }

  lemma StopReasonsOneMore(events: seq<ExceptionEvent>, ev: ExceptionEvent)
    ensures StopReasons(events + [ev]) == StopReasons(events) + [StopReasonFrom(ev)]
  {
  }

  /** The reports of a detach, an exit or a step result are not those of exceptions. */
  lemma UrgentKeepsEvents(s: State)
    requires EventInv(s) && Enabled(s, Worker) && !(s.worker.PollExcp? && s.sess.ring != [])
    requires Do(s, Worker).log.reported != s.log.reported
    ensures EventInv(Do(s, Worker))
  {
    var reason := UrgentReport(s);
    Reports(s.log.reported, reason);
  }

  lemma UrgentReport(s: State) returns (reason: StopReason)
    requires Enabled(s, Worker) && !(s.worker.PollExcp? && s.sess.ring != [])
    requires Do(s, Worker).log.reported != s.log.reported
    ensures Do(s, Worker).log == s.log.(reported := s.log.reported + [reason])
    ensures Do(s, Worker).sess.ring == s.sess.ring
    ensures reason == Exited || (reason.SignalWithThread? && reason.signal == SIGTRAP)
  {
    reason := if s.worker.PollStep? then SignalWithThread(s.sess.stepResult.value, SIGTRAP) else Exited;
  }

  lemma Reports(reported: seq<StopReason>, reason: StopReason)
    ensures ExceptionStops(reported + [reason])
            == ExceptionStops(reported)
               + if reason == Exited || (reason.SignalWithThread? && reason.signal == SIGTRAP) then [] else [reason]
  {
    assert (reported + [reason])[..|reported|] == reported;
  }

  lemma StopReasonsAdd(a: seq<ExceptionEvent>, b: seq<ExceptionEvent>)
    ensures StopReasons(a + b) == StopReasons(a) + StopReasons(b)
  {
  }

  lemma StepKeepsInv(s: State, a: Action)
    requires Inv(s) && Enabled(s, a)
    ensures Inv(Do(s, a))
  {
    StepKeepsBuffer(s, a);
    StepKeepsStream(s, a);
    StepKeepsEof(s, a);
    StepKeepsErr(s, a);
    StepKeepsClose(s, a);
    StepKeepsWakeWorker(s, a);
    StepKeepsWakeForBytes(s, a);
    StepKeepsWakeReader(s, a);
    StepKeepsEvents(s, a);
  }

  lemma {:induction false} RunKeepsInv(s: State, run: seq<Action>)
    requires Inv(s) && IsRun(s, run)
    ensures Inv(After(s, run))
    decreases |run|
  {
    if run != [] {
      StepKeepsInv(s, run[0]);
      RunKeepsInv(Do(s, run[0]), run[1..]);
    }
  }

  lemma ReachableInv(s: State)
    requires Reachable(s)
    ensures Inv(s)
  {
    var init, run :| Init(init) && IsRun(init, run) && After(init, run) == s;
    assert Unread(init) == [] && Unpublished(init) == [];
    RunKeepsInv(init, run);
  }
}
