/** The hand-off between one connection's worker and its receive thread, with the exception and process
    callbacks as a third party (vita-gdb/src/gdb/tcpconn.rs, vita-gdb/src/gdb/event_loop.rs,
    vita-gdb/src/gdb/sessions.rs).

    Every load, store, buffer access and event-flag call that another thread can observe is one atomic step.
    An event flag is one bit per waiter; a wait consumes the bit it waits for. */
module HandOff {
  import opened Words
  import opened Events

  const BUFFER_SIZE := 0x40

  /** Which polling loop the worker is in: next_byte (Idle) or next_event_or_byte (Running). */
  datatype Mode = Idle | Running

  datatype WorkerPc =
    | Busy                       // in the packet parser, the target callbacks, or between polls
    | PollDetached               // the Running loop starts here
    | PollExited(mode: Mode)     // the Idle loop starts here
    | PollStep
    | PollExcp
    | LoadClosed(mode: Mode)     // read(): first load
    | LoadLen(mode: Mode)        // read(): second load
    | TakeByte(len: nat)         // read(): about to touch the buffer
    | StoreLen                   // read(): the last byte is out, len still set
    | SignalReader               // read(): len cleared, EV_WAKE_READER not yet set
    | WaitWorker(mode: Mode)
    | CloseSocket                // close(): closed set
    | SignalClose                // close(): EV_WAKE_READER not yet set
    | Join                       // close(): waiting for the receive thread to end
    | Released                   // close(): the pool entry is free again

  datatype RxPc =
    | CheckClosed
    | CheckLen
    | WaitReader
    | Receiving                  // inside the receive call, which owns the buffer
    | Publish(n: nat)            // n bytes are in the buffer, len still 0
    | MarkEof
    | MarkErr
    | SignalWorker(exit: bool)   // about to set EV_WAKE_WORKER
    | Done

  /** The pool entry the two threads share (ConnState). */
  datatype Conn = Conn(buf: seq<byte>, len: nat, closed: bool, err: bool)

  /** The two bits of the event flag that this protocol uses. */
  datatype Flag = Flag(worker: bool, reader: bool)

  /** The session's pending events, and the target's own record of a detach. */
  datatype Session = Session(
    attached: bool, detached: bool, exited: bool, stepResult: Option<int>, ring: seq<ExceptionEvent>)

  /** What has happened so far; no thread reads it. The event history starts afresh at each reset. */
  datatype Log = Log(
    received: seq<byte>, delivered: seq<byte>, peerEof: bool, rxFailed: bool, closing: bool,
    accepted: seq<ExceptionEvent>, popped: seq<ExceptionEvent>, reported: seq<StopReason>)

  /** `armed` counts the callbacks that have stored their event and not yet set EV_WAKE_WORKER. */
  datatype State = State(
    conn: Conn, flag: Flag, sess: Session, armed: nat,
    worker: WorkerPc, readLen: nat, rx: RxPc, log: Log)

  datatype Action =
    // choices of a worker that is Busy
    | StartPoll(mode: Mode)
    | Detach
    | Attach
    | BeginClose
    // the next step of a worker that is not Busy
    | Worker
    // the receive thread: its next step, or the outcome of its receive call
    | Rx
    | RxData(ds: seq<byte>)
    | RxEof
    | RxErr
    // callbacks: store an event, then set the flag
    | RaiseExited
    | RaiseStep(tid: int)
    | RaiseExcp(ev: ExceptionEvent)
    | HandlerSignal

  predicate Init(s: State) {
    && |s.conn.buf| == BUFFER_SIZE && s.conn.len == 0 && !s.conn.closed && !s.conn.err
    && s.flag == Flag(false, false) && s.sess == Session(false, false, false, None, []) && s.armed == 0
    && s.worker == Busy && s.readLen == 0 && s.rx == CheckClosed
    && s.log == Log([], [], false, false, false, [], [], [])
  }

  predicate Enabled(s: State, a: Action) {
    match a
    case StartPoll(_) => s.worker == Busy
    case Detach => s.worker == Busy && s.sess.attached
    case Attach => s.worker == Busy && !s.sess.attached
    case BeginClose => s.worker == Busy
    case Worker =>
      match s.worker {
        case Busy => false
        case WaitWorker(_) => s.flag.worker
        case Join => s.rx == Done
        case Released => false
        case TakeByte(_) => s.readLen < |s.conn.buf|
        case _ => true
      }
    case Rx =>
      match s.rx {
        case WaitReader => s.flag.reader
        case Receiving => false
        case Done => false
        case _ => true
      }
    case RxData(ds) => s.rx == Receiving && 0 < |ds| <= |s.conn.buf|
    case RxEof => s.rx == Receiving
    case RxErr => s.rx == Receiving
    case RaiseExited => s.sess.attached
    case RaiseStep(_) => s.sess.attached
    case RaiseExcp(_) => s.sess.attached
    case HandlerSignal => s.armed > 0
  }

  function PollStart(mode: Mode): WorkerPc {
    if mode == Running then PollDetached else PollExited(Idle)
  }

  /** The poll returns Incoming::Stop(reason). */
  function ReportStop(s: State, sess: Session, reason: StopReason): State {
    s.(sess := sess, worker := Busy, log := s.log.(reported := s.log.reported + [reason]))
  }

  /** The session half of one step of next_event_or_byte or next_byte. */
  function PollSession(s: State): State {
    var sess := s.sess;
    match s.worker
    case PollDetached =>
      if sess.detached then ReportStop(s, sess.(detached := false), Exited) else s.(worker := PollExited(Running))
    case PollExited(mode) =>
      if !sess.attached then s.(worker := LoadClosed(mode))
      else if sess.exited then ReportStop(s, sess.(exited := false), Exited)
      else s.(worker := if mode == Running then PollStep else LoadClosed(Idle))
    case PollStep =>
      if sess.stepResult.Some?
      then ReportStop(s, sess.(stepResult := None), SignalWithThread(sess.stepResult.value, SIGTRAP))
      else s.(worker := PollExcp)
    case PollExcp =>
      if sess.ring != []
      then
        var t := s.(log := s.log.(popped := s.log.popped + [sess.ring[0]]));
        ReportStop(t, sess.(ring := sess.ring[1..]), StopReasonFrom(sess.ring[0]))
      else s.(worker := LoadClosed(Running))
    case _ => s
  }

  /** One step of next_event_or_byte, next_byte, TcpConn::read or TcpConn::close. */
  function WorkerStep(s: State): State
    requires Enabled(s, Worker)
  {
    match s.worker
    case LoadClosed(mode) => s.(worker := if s.conn.closed then Busy else LoadLen(mode))
    case LoadLen(mode) => s.(worker := if s.conn.len == 0 then WaitWorker(mode) else TakeByte(s.conn.len))
    case TakeByte(len) =>
      s.(log := s.log.(delivered := s.log.delivered + [s.conn.buf[s.readLen]]), readLen := s.readLen + 1,
         worker := if s.readLen + 1 == len then StoreLen else Busy)
    case StoreLen => s.(readLen := 0, conn := s.conn.(len := 0), worker := SignalReader)
    case SignalReader => s.(flag := s.flag.(reader := true), worker := Busy)
    case WaitWorker(mode) => s.(flag := s.flag.(worker := false), worker := PollStart(mode))
    case CloseSocket => s.(worker := SignalClose)
    case SignalClose => s.(flag := s.flag.(reader := true), worker := Join)
    case Join => s.(worker := Released)
    case _ => PollSession(s)
  }

  /** One step of net_rx_thread outside its receive call. */
  function RxStep(s: State): State
    requires Enabled(s, Rx)
  {
    match s.rx
    case CheckClosed => s.(rx := if s.conn.closed then Done else CheckLen)
    case CheckLen => s.(rx := if s.conn.len != 0 then WaitReader else Receiving)
    case WaitReader => s.(flag := s.flag.(reader := false), rx := CheckClosed)
    case Receiving => s
    case Publish(n) => s.(conn := s.conn.(len := n), rx := SignalWorker(false))
    case MarkEof => s.(conn := s.conn.(closed := true), rx := SignalWorker(true))
    case MarkErr => s.(conn := s.conn.(err := true), rx := SignalWorker(true))
    case SignalWorker(exit) => s.(flag := s.flag.(worker := true), rx := if exit then Done else CheckClosed)
    case Done => s
  }

  /** The receive call returns: data, end of stream, or an error. */
  function Receive(s: State, a: Action): State
    requires Enabled(s, a)
  {
    match a
    case RxData(ds) =>
      s.(conn := s.conn.(buf := ds + s.conn.buf[|ds|..]), log := s.log.(received := s.log.received + ds),
         rx := Publish(|ds|))
    case RxEof => s.(log := s.log.(peerEof := true), rx := MarkEof)
    case RxErr => s.(log := s.log.(rxFailed := s.log.rxFailed || !s.log.closing), rx := MarkErr)
    case _ => s
  }

  /** What a Busy worker starts next. Detaching runs clear_all and then reset, which clears EV_WAKE_WORKER,
      the exit mark and the ring, but not the step result. */
  function Choose(s: State, a: Action): State {
    match a
    case StartPoll(mode) => s.(worker := PollStart(mode))
    case Detach =>
      s.(sess := s.sess.(attached := false, detached := true, exited := false, ring := []),
         flag := s.flag.(worker := false), log := s.log.(accepted := [], popped := [], reported := []))
    case Attach => s.(sess := s.sess.(attached := true, detached := false))
    case BeginClose => s.(conn := s.conn.(closed := true), log := s.log.(closing := true), worker := CloseSocket)
    case _ => s
  }

  /** One step of an exception or process callback (push_excp, push_exited, step_finished). */
  function Handle(s: State, a: Action): State
    requires Enabled(s, a)
  {
    match a
    case RaiseExited => s.(sess := s.sess.(exited := true), armed := s.armed + 1)
    case RaiseStep(tid) => s.(sess := s.sess.(stepResult := Some(tid)), armed := s.armed + 1)
    case RaiseExcp(ev) =>
      if |s.sess.ring| < RING_ROOM
      then s.(sess := s.sess.(ring := s.sess.ring + [ev]), armed := s.armed + 1,
              log := s.log.(accepted := s.log.accepted + [ev]))
      else s.(armed := s.armed + 1)
    case HandlerSignal => s.(flag := s.flag.(worker := true), armed := s.armed - 1)
    case _ => s
  }

  function Do(s: State, a: Action): State
    requires Enabled(s, a)
  {
    match a
    case Worker => WorkerStep(s)
    case Rx => RxStep(s)
    case RxData(_) => Receive(s, a)
    case RxEof => Receive(s, a)
    case RxErr => Receive(s, a)
    case RaiseExited => Handle(s, a)
    case RaiseStep(_) => Handle(s, a)
    case RaiseExcp(_) => Handle(s, a)
    case HandlerSignal => Handle(s, a)
    case _ => Choose(s, a)
  }

  ghost predicate IsRun(s: State, run: seq<Action>)
    decreases |run|
  {
    run == [] || (Enabled(s, run[0]) && IsRun(Do(s, run[0]), run[1..]))
  }

  ghost function After(s: State, run: seq<Action>): State
    requires IsRun(s, run)
    decreases |run|
  {
    if run == [] then s else After(Do(s, run[0]), run[1..])
  }

  ghost predicate Reachable(s: State) {
    exists init, run :: Init(init) && IsRun(init, run) && After(init, run) == s
  }

  // ---- read() as one call

  datatype ReadResult = ReadByte(b: byte) | ReadClosed | ReadErr | ReadNone

  /** TcpConn::read when no other thread moves: the new shared state, read position and EV_WAKE_READER, and
      the result. */
  function ReadOnce(c: Conn, readLen: nat, wakeReader: bool): (Conn, nat, bool, ReadResult)
    requires !c.closed && c.len > 0 ==> readLen < |c.buf|
  {
    if c.closed then (c, readLen, wakeReader, if c.err then ReadErr else ReadClosed)
    else if c.len == 0 then (c, readLen, wakeReader, ReadNone)
    else if readLen + 1 == c.len then (c.(len := 0), 0, true, ReadByte(c.buf[readLen]))
    else (c, readLen + 1, wakeReader, ReadByte(c.buf[readLen]))
  }

  /** A closed connection answers with its error if it has one; an open one with nothing while its buffer is
      empty, and else with the byte at the read position. */
  lemma ReadAnswersExactly(c: Conn, readLen: nat, wakeReader: bool, b: byte)
    requires !c.closed && c.len > 0 ==> readLen < |c.buf|
    ensures var r := ReadOnce(c, readLen, wakeReader).3;
            && (r == ReadErr <==> c.closed && c.err) && (r == ReadClosed <==> c.closed && !c.err)
            && (r == ReadNone <==> !c.closed && c.len == 0)
            && (r == ReadByte(b) <==> !c.closed && c.len > 0 && b == c.buf[readLen])
  {
  }

  /** n calls of read(), each of which returns a byte. */
  ghost predicate Reads(c: Conn, readLen: nat, wakeReader: bool, bytes: seq<byte>, d: Conn, n: nat, flag: bool)
    decreases |bytes|
  {
    if bytes == [] then (d, n, flag) == (c, readLen, wakeReader)
    else
      && (!c.closed && c.len > 0 ==> readLen < |c.buf|)
      && var (c1, n1, flag1, r) := ReadOnce(c, readLen, wakeReader);
         r == ReadByte(bytes[0]) && Reads(c1, n1, flag1, bytes[1..], d, n, flag)
  }

  /** Reading to the end of the buffer returns its bytes in order, gives it back to the receive thread with the
      last one and not before, and starts the next one at its front. */
  lemma {:induction false} ReadsDrainBuffer(c: Conn, readLen: nat, wakeReader: bool, k: nat)
    requires !c.closed && readLen <= k <= c.len <= |c.buf| && readLen < c.len
    ensures Reads(c, readLen, wakeReader, c.buf[readLen..k],
                  if k == c.len then c.(len := 0) else c, if k == c.len then 0 else k, k == c.len || wakeReader)
    decreases k - readLen
  {
    var bytes := c.buf[readLen..k];
    if readLen < k {
      assert bytes[0] == c.buf[readLen] && bytes[1..] == c.buf[readLen + 1..k];
      if readLen + 1 < c.len {
        ReadsDrainBuffer(c, readLen + 1, wakeReader, k);
      }
    }
  }

  /** n steps of the worker alone. */
  function WorkerAlone(s: State, n: nat): State
    decreases n
  {
    if n == 0 || !Enabled(s, Worker) then s else WorkerAlone(WorkerStep(s), n - 1)
  }

  /** The worker's own steps from the first load of read() to its return, run without interference, add up to
      ReadOnce. */
  lemma ReadStepsCompose(s: State, mode: Mode)
    requires s.worker == LoadClosed(mode) && (!s.conn.closed && s.conn.len > 0 ==> s.readLen < |s.conn.buf|)
    ensures var (c, n, flag, r) := ReadOnce(s.conn, s.readLen, s.flag.reader);
            var t := s.(conn := c, readLen := n, flag := s.flag.(reader := flag));
            match r
            case ReadByte(b) =>
              WorkerAlone(s, if c.len == 0 then 5 else 3)
              == t.(worker := Busy, log := s.log.(delivered := s.log.delivered + [b]))
            case ReadNone => WorkerAlone(s, 2) == t.(worker := WaitWorker(mode))
            case _ => WorkerAlone(s, 1) == t.(worker := Busy)
  {
    var s1 := WorkerStep(s);
    if s.conn.closed {
      assert WorkerAlone(s, 1) == s1;
    } else {
      var s2 := WorkerStep(s1);
      assert WorkerAlone(s, 2) == WorkerAlone(s1, 1) == s2;
      if s.conn.len > 0 {
        ReadByteCompose(s2);
      }
    }
  }

  lemma ReadByteCompose(s: State)
    requires s.worker.TakeByte? && s.worker.len == s.conn.len && s.readLen < |s.conn.buf|
    ensures s.readLen + 1 != s.conn.len ==> WorkerAlone(s, 1) == WorkerStep(s)
    ensures s.readLen + 1 == s.conn.len ==>
      WorkerAlone(s, 3) == s.(readLen := 0, conn := s.conn.(len := 0), flag := s.flag.(reader := true), worker := Busy,
                              log := s.log.(delivered := s.log.delivered + [s.conn.buf[s.readLen]]))
  {
    var s1 := WorkerStep(s);
    assert WorkerAlone(s, 1) == WorkerAlone(s1, 0);
    if s.readLen + 1 == s.conn.len {
      var s2 := WorkerStep(s1);
      assert WorkerAlone(s1, 2) == WorkerAlone(s2, 1) == WorkerStep(s2);
    }
  }
}
