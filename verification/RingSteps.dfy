/** The exception ring with one producer and one consumer interleaved at every load and store
    (vita-gdb/src/kernel/mpsc.rs). What the two threads observe is a FIFO queue. */
module RingSteps {
  import opened Words
  import opened MpscRing

  datatype Producer<T> =
    | PIdle
    | PushHead(item: T, h: nat)                // push: head loaded
    | PushWrite(item: T, h: nat, next: nat)    // push: not full, about to write the slot
    | PushStore(item: T, next: nat)            // push: slot written, head not yet stored

  datatype Consumer<T> =
    | CIdle
    | PopTail(t: nat)                          // pop: tail loaded
    | PopRead(t: nat)                          // pop: not empty, about to read the slot
    | PopStore(t: nat, item: T)                // pop: slot read, tail not yet stored
    | ClearTail(t: nat)                        // clear: tail loaded
    | ClearLoop(h: nat, idx: nat)              // clear: head loaded, dropping the slot at idx next
    | LenTail(t: nat)                          // len: tail loaded

  datatype State<T> = State(buf: seq<Option<T>>, head: nat, tail: nat, producer: Producer<T>, consumer: Consumer<T>)

  datatype Action<T> = StartPush(item: T) | StartPop | StartClear | StartLen | ProducerStep | ConsumerStep

  /** What a step did, as the callers of the ring see it. */
  datatype Effect<T> =
    | Silent
    | Pushed(item: T)
    | PushFailed
    | Popped(item: T)
    | PopEmpty
    | Cleared
    | Dropped(item: T)
    | ClearDone
    | Measured(n: u32)

  predicate Init<T>(s: State<T>) {
    0 < |s.buf| <= TWO_TO_THE_32 && s.head == s.tail == 0 && s.producer == PIdle && s.consumer == CIdle
  }

  /** A step is enabled when the thread is at one; reading a slot also needs the slot to be there and
      initialised, which Inv shows always to be the case. */
  predicate Enabled<T>(s: State<T>, a: Action<T>) {
    0 < |s.buf| &&
    match a
    case StartPush(_) => s.producer.PIdle?
    case StartPop => s.consumer.CIdle?
    case StartClear => s.consumer.CIdle?
    case StartLen => s.consumer.CIdle?
    case ProducerStep => !s.producer.PIdle? && (s.producer.PushWrite? ==> s.producer.h < |s.buf|)
    case ConsumerStep =>
      && !s.consumer.CIdle?
      && (s.consumer.PopRead? ==> s.consumer.t < |s.buf| && s.buf[s.consumer.t].Some?)
      && (s.consumer.ClearLoop? && s.consumer.idx != s.consumer.h
          ==> s.consumer.idx < |s.buf| && s.buf[s.consumer.idx].Some?)
  }

  function Produce<T>(s: State<T>): (State<T>, Effect<T>)
    requires Enabled(s, ProducerStep)
  {
    match s.producer
    case PushHead(item, h) =>
      var next := (h + 1) % |s.buf|;
      if next == s.tail then (s.(producer := PIdle), PushFailed) else (s.(producer := PushWrite(item, h, next)), Silent)
    case PushWrite(item, h, next) => (s.(buf := s.buf[h := Some(item)], producer := PushStore(item, next)), Silent)
    case PushStore(item, next) => (s.(head := next, producer := PIdle), Pushed(item))
  }

  function Consume<T>(s: State<T>): (State<T>, Effect<T>)
    requires Enabled(s, ConsumerStep)
  {
    match s.consumer
    case PopTail(t) =>
      if t == s.head then (s.(consumer := CIdle), PopEmpty) else (s.(consumer := PopRead(t)), Silent)
    case PopRead(t) => (s.(consumer := PopStore(t, s.buf[t].value)), Silent)
    case PopStore(t, item) => (s.(tail := (t + 1) % |s.buf|, consumer := CIdle), Popped(item))
    case ClearTail(t) => (s.(consumer := ClearLoop(s.head, t)), Cleared)
    case ClearLoop(h, idx) =>
      if idx != h
      then (s.(consumer := ClearLoop(h, (idx + 1) % |s.buf|)), Dropped(s.buf[idx].value))
      else (s.(tail := h, consumer := CIdle), ClearDone)
    case LenTail(t) => (s.(consumer := CIdle), Measured((s.head - t) % TWO_TO_THE_32))
  }

  function Step<T>(s: State<T>, a: Action<T>): (State<T>, Effect<T>)
    requires Enabled(s, a)
  {
    match a
    case StartPush(item) => (s.(producer := PushHead(item, s.head)), Silent)
    case StartPop => (s.(consumer := PopTail(s.tail)), Silent)
    case StartClear => (s.(consumer := ClearTail(s.tail)), Silent)
    case StartLen => (s.(consumer := LenTail(s.tail)), Silent)
    case ProducerStep => Produce(s)
    case ConsumerStep => Consume(s)
  }

  ghost predicate IsRun<T>(s: State<T>, run: seq<Action<T>>)
    decreases |run|
  {
    run == [] || (Enabled(s, run[0]) && IsRun(Step(s, run[0]).0, run[1..]))
  }

  ghost function After<T>(s: State<T>, run: seq<Action<T>>): State<T>
    requires IsRun(s, run)
    decreases |run|
  {
    if run == [] then s else After(Step(s, run[0]).0, run[1..])
  }

  ghost function Trace<T>(s: State<T>, run: seq<Action<T>>): seq<Effect<T>>
    requires IsRun(s, run)
    decreases |run|
  {
    if run == [] then [] else [Step(s, run[0]).1] + Trace(Step(s, run[0]).0, run[1..])
  }

  // ---- The specification: a FIFO queue

  /** The queue; the items a clear has taken and not yet dropped; and the places that clear still holds. */
  datatype Fifo<T> = Fifo(queue: seq<T>, dropping: seq<T>, held: nat)

  /** What each effect means for a queue with room for `room` items. */
  ghost predicate Means<T>(q: Fifo<T>, e: Effect<T>, r: Fifo<T>, room: nat) {
    match e
    case Silent => r == q
    case Pushed(item) => |q.queue| + q.held < room && r == q.(queue := q.queue + [item])
    case PushFailed => |q.queue| + q.held == room && r == q
    case Popped(item) => q.dropping == [] && q.queue != [] && item == q.queue[0] && r == q.(queue := q.queue[1..])
    case PopEmpty => q.queue == [] && r == q
    case Cleared => q.dropping == [] && q.held == 0 && r == Fifo([], q.queue, |q.queue|)
    case Dropped(item) => q.dropping != [] && item == q.dropping[0] && r == q.(dropping := q.dropping[1..])
    case ClearDone => q.dropping == [] && r == q.(held := 0)
    case Measured(n) => r == q && (n > 0 <==> q.queue != [])
  }

  ghost predicate History<T(!new)>(q: Fifo<T>, trace: seq<Effect<T>>, r: Fifo<T>, room: nat)
    decreases |trace|
  {
    if trace == [] then r == q
    else exists m :: Means(q, trace[0], m, room) && History(m, trace[1..], r, room)
  }

  // ---- Invariant and abstraction

  ghost predicate ProducerInv<T>(s: State<T>)
    requires s.head < |s.buf| && s.tail < |s.buf|
  {
    match s.producer
    case PIdle => true
    case PushHead(_, h) => h == s.head
    case PushWrite(_, h, next) =>
      h == s.head && next == (h + 1) % |s.buf| && Used(s.head, s.tail, |s.buf|) < |s.buf| - 1
    case PushStore(item, next) =>
      && next == (s.head + 1) % |s.buf| && Used(s.head, s.tail, |s.buf|) < |s.buf| - 1
      && s.buf[s.head] == Some(item)
  }

  ghost predicate ConsumerInv<T>(s: State<T>)
    requires ValidRing(s.buf, s.head, s.tail)
  {
    match s.consumer
    case CIdle => true
    case PopTail(t) => t == s.tail
    case PopRead(t) => t == s.tail && s.head != s.tail
    case PopStore(t, item) => t == s.tail && s.head != s.tail && item == Items(s.buf, s.head, s.tail)[0]
    case ClearTail(t) => t == s.tail
    case ClearLoop(h, idx) =>
      && h < |s.buf| && idx < |s.buf|
      && Used(h, s.tail, |s.buf|) + Used(s.head, h, |s.buf|) == Used(s.head, s.tail, |s.buf|)
      && Used(idx, s.tail, |s.buf|) + Used(h, idx, |s.buf|) == Used(h, s.tail, |s.buf|)
    case LenTail(t) => t == s.tail
  }

  ghost predicate Inv<T>(s: State<T>) {
    && |s.buf| <= TWO_TO_THE_32
    && ValidRing(s.buf, s.head, s.tail)
    && ProducerInv(s)
    && ConsumerInv(s)
  }

  /** A later starting point inside the ring leaves a valid ring. */
  lemma Suffix<T>(buf: seq<Option<T>>, head: nat, mid: nat, tail: nat)
    requires ValidRing(buf, head, tail) && mid < |buf|
    requires Used(mid, tail, |buf|) + Used(head, mid, |buf|) == Used(head, tail, |buf|)
    ensures ValidRing(buf, head, mid) && ValidRing(buf, mid, tail)
    ensures Items(buf, head, tail) == Items(buf, mid, tail) + Items(buf, head, mid)
  {
    forall k | 0 <= k < Used(head, mid, |buf|)
      ensures Slot(mid, k, |buf|) == Slot(tail, Used(mid, tail, |buf|) + k, |buf|)
    {
    }
  }

  ghost function Abstract<T>(s: State<T>): Fifo<T>
    requires Inv(s)
  {
    if s.consumer.ClearLoop? then
      var h, idx := s.consumer.h, s.consumer.idx;
      Suffix(s.buf, s.head, h, s.tail);
      Suffix(s.buf, h, idx, s.tail);
      Fifo(Items(s.buf, s.head, h), Items(s.buf, h, idx), Used(h, s.tail, |s.buf|))
    else
      Fifo(Items(s.buf, s.head, s.tail), [], 0)
  }

  ghost predicate Refines<T>(s: State<T>, step: (State<T>, Effect<T>)) {
    && |step.0.buf| == |s.buf| && Inv(s) && Inv(step.0)
    && Means(Abstract(s), step.1, Abstract(step.0), |s.buf| - 1)
  }

  lemma FullCheckRefines<T>(s: State<T>)
    requires Inv(s) && s.producer.PushHead? && Enabled(s, ProducerStep)
    ensures Refines(s, Produce(s))
  {
    FullExactly(s.head, s.tail, |s.buf|);
    if s.consumer.ClearLoop? {
      Suffix(s.buf, s.head, s.consumer.h, s.tail);
    }
  }

  /** Writing the slot at `head` changes nothing a running clear has still to drop. */
  lemma WriteBesideClear<T>(buf: seq<Option<T>>, head: nat, h: nat, idx: nat, tail: nat, item: T)
    requires ValidRing(buf, head, tail) && h < |buf| && idx < |buf|
    requires Used(h, tail, |buf|) + Used(head, h, |buf|) == Used(head, tail, |buf|)
    requires Used(idx, tail, |buf|) + Used(h, idx, |buf|) == Used(h, tail, |buf|)
    ensures ValidRing(buf[head := Some(item)], h, idx) && ValidRing(buf, h, idx)
    ensures Items(buf[head := Some(item)], h, idx) == Items(buf, h, idx)
  {
    Suffix(buf, head, h, tail);
    Suffix(buf, h, idx, tail);
    forall k | 0 <= k < Used(h, idx, |buf|) ensures Slot(idx, k, |buf|) != head {
    }
  }

  lemma WriteRefines<T>(s: State<T>)
    requires Inv(s) && s.producer.PushWrite? && Enabled(s, ProducerStep)
    ensures Refines(s, Produce(s))
  {
    WriteAtHead(s.buf, s.head, s.tail, s.producer.item);
    if s.consumer.ClearLoop? {
      var h := s.consumer.h;
      Suffix(s.buf, s.head, h, s.tail);
      WriteAtHead(s.buf, s.head, h, s.producer.item);
      WriteBesideClear(s.buf, s.head, h, s.consumer.idx, s.tail, s.producer.item);
    }
  }

  lemma StoreRefines<T>(s: State<T>)
    requires Inv(s) && s.producer.PushStore? && Enabled(s, ProducerStep)
    ensures Refines(s, Produce(s))
  {
    if s.consumer.ClearLoop? {
      StoreDuringClear(s);
    } else {
      FullExactly(s.head, s.tail, |s.buf|);
      AdvanceHead(s.buf, s.head, s.tail);
    }
  }

  lemma StoreDuringClear<T>(s: State<T>)
    requires Inv(s) && s.producer.PushStore? && s.consumer.ClearLoop? && Enabled(s, ProducerStep)
    ensures Refines(s, Produce(s))
  {
    StoreKeepsInv(s);
    var h := s.consumer.h;
    Suffix(s.buf, s.head, h, s.tail);
    FullExactly(s.head, h, |s.buf|);
    AdvanceHead(s.buf, s.head, h);
  }

  lemma StoreKeepsInv<T>(s: State<T>)
    requires Inv(s) && s.producer.PushStore? && s.consumer.ClearLoop? && Enabled(s, ProducerStep)
    ensures Inv(Produce(s).0)
  {
    var h := s.consumer.h;
    FullExactly(s.head, s.tail, |s.buf|);
    AdvanceHead(s.buf, s.head, s.tail);
    FullExactly(s.head, h, |s.buf|);
    Next(s.head, |s.buf|);
  }

  lemma PopRefines<T>(s: State<T>)
    requires Inv(s) && (s.consumer.PopTail? || s.consumer.PopRead? || s.consumer.PopStore?)
    requires Enabled(s, ConsumerStep)
    ensures Refines(s, Consume(s))
  {
    if s.consumer.PopStore? {
      PopStoreRefines(s);
    } else if s.head != s.tail {
      AdvanceTail(s.buf, s.head, s.tail);
    }
  }

  lemma PopStoreRefines<T>(s: State<T>)
    requires Inv(s) && s.consumer.PopStore? && Enabled(s, ConsumerStep)
    ensures Refines(s, Consume(s))
  {
    AdvanceTail(s.buf, s.head, s.tail);
    Next(s.tail, |s.buf|);
  }

  lemma DropRefines<T>(s: State<T>)
    requires Inv(s) && s.consumer.ClearLoop? && s.consumer.idx != s.consumer.h && Enabled(s, ConsumerStep)
    ensures Refines(s, Consume(s))
  {
    var h, idx := s.consumer.h, s.consumer.idx;
    DropKeepsInv(s);
    Suffix(s.buf, s.head, h, s.tail);
    Suffix(s.buf, h, idx, s.tail);
    AdvanceTail(s.buf, h, idx);
  }

  lemma DropKeepsInv<T>(s: State<T>)
    requires Inv(s) && s.consumer.ClearLoop? && s.consumer.idx != s.consumer.h && Enabled(s, ConsumerStep)
    ensures Inv(Consume(s).0)
  {
    Next(s.consumer.idx, |s.buf|);
  }

  lemma ClearDoneRefines<T>(s: State<T>)
    requires Inv(s) && s.consumer.ClearLoop? && s.consumer.idx == s.consumer.h && Enabled(s, ConsumerStep)
    ensures Refines(s, Consume(s))
  {
    Suffix(s.buf, s.head, s.consumer.h, s.tail);
  }

  lemma StartClearRefines<T>(s: State<T>)
    requires Inv(s) && s.consumer.ClearTail? && Enabled(s, ConsumerStep)
    ensures Refines(s, Consume(s))
  {
    assert Used(s.head, s.head, |s.buf|) == 0;
    assert Items(s.buf, s.head, s.head) == [];
  }

  lemma LenRefines<T>(s: State<T>)
    requires Inv(s) && s.consumer.LenTail? && Enabled(s, ConsumerStep)
    ensures Refines(s, Consume(s))
  {
    assert Used(s.head, s.tail, |s.buf|) == 0 <==> s.head == s.tail;
    WrapOf(s.head - s.tail);
  }

  /** One step does to the queue what its effect means, and keeps the invariant. */
  lemma StepRefines<T>(s: State<T>, a: Action<T>)
    requires Inv(s) && Enabled(s, a)
    ensures Refines(s, Step(s, a))
  {
    match a {
      case ProducerStep =>
        match s.producer {
          case PushHead(_, _) => FullCheckRefines(s);
          case PushWrite(_, _, _) => WriteRefines(s);
          case PushStore(_, _) => StoreRefines(s);
        }
      case ConsumerStep =>
        match s.consumer {
          case ClearTail(_) => StartClearRefines(s);
          case LenTail(_) => LenRefines(s);
          case ClearLoop(h, idx) =>
            if idx == h { ClearDoneRefines(s); } else { DropRefines(s); }
          case _ => PopRefines(s);
        }
      case _ =>
    }
  }

  /** Every run of the two threads is a history of one FIFO queue with room for CAP - 1 items: nothing is
      lost, duplicated or reordered, and a push fails exactly when the queue, with the places a running
      clear still holds, is full. */
  lemma {:induction false} RunRefinesQueue<T(!new)>(s: State<T>, run: seq<Action<T>>)
    requires Inv(s) && IsRun(s, run)
    ensures Inv(After(s, run))
    ensures History(Abstract(s), Trace(s, run), Abstract(After(s, run)), |s.buf| - 1)
    decreases |run|
  {
    if run != [] {
      StepRefines(s, run[0]);
      var t := Step(s, run[0]).0;
      RunRefinesQueue(t, run[1..]);
      assert Trace(s, run)[1..] == Trace(t, run[1..]);
      assert Means(Abstract(s), Trace(s, run)[0], Abstract(t), |s.buf| - 1);
    }
  }

  function In<T>(e: Effect<T>): seq<T> {
    if e.Pushed? then [e.item] else []
  }

  function Out<T>(e: Effect<T>): seq<T> {
    if e.Popped? || e.Dropped? then [e.item] else []
  }

  /** The items that went in, in the order their pushes took effect. */
  function Ins<T>(trace: seq<Effect<T>>): seq<T> {
    if trace == [] then [] else In(trace[0]) + Ins(trace[1..])
  }

  /** The items that came out, popped or dropped. */
  function Outs<T>(trace: seq<Effect<T>>): seq<T> {
    if trace == [] then [] else Out(trace[0]) + Outs(trace[1..])
  }

  ghost function Inside<T>(q: Fifo<T>): seq<T> {
    q.dropping + q.queue
  }

  lemma EffectConserves<T>(q: Fifo<T>, e: Effect<T>, r: Fifo<T>, room: nat)
    requires Means(q, e, r, room)
    ensures Inside(q) + In(e) == Out(e) + Inside(r)
  {
  }

  lemma {:induction false} HistoryConserves<T(!new)>(q: Fifo<T>, trace: seq<Effect<T>>, r: Fifo<T>, room: nat)
    requires History(q, trace, r, room)
    ensures Inside(q) + Ins(trace) == Outs(trace) + Inside(r)
    decreases |trace|
  {
    if trace != [] {
      var m :| Means(q, trace[0], m, room) && History(m, trace[1..], r, room);
      EffectConserves(q, trace[0], m, room);
      HistoryConserves(m, trace[1..], r, room);
      Regroup(Inside(q), In(trace[0]), Ins(trace[1..]), Out(trace[0]), Inside(m), Outs(trace[1..]), Inside(r));
    }
  }

  lemma Regroup<T>(q: seq<T>, i: seq<T>, ins: seq<T>, o: seq<T>, m: seq<T>, outs: seq<T>, r: seq<T>)
    requires q + i == o + m && m + ins == outs + r
    ensures q + (i + ins) == (o + outs) + r
  {
    assert q + (i + ins) == (q + i) + ins;
    assert (o + m) + ins == o + (m + ins);
    assert o + (outs + r) == (o + outs) + r;
  }

  /** From an empty ring, the items popped or dropped, then those still inside, are the items pushed, in
      order: none is lost, duplicated or overtaken. */
  lemma NothingLostOrReordered<T(!new)>(s: State<T>, run: seq<Action<T>>)
    requires Init(s) && IsRun(s, run)
    ensures Inv(After(s, run))
    ensures var q := Abstract(After(s, run));
            Ins(Trace(s, run)) == Outs(Trace(s, run)) + Inside(q)
  {
    InitIsEmptyQueue(s);
    RunRefinesQueue(s, run);
    HistoryConserves(Abstract(s), Trace(s, run), Abstract(After(s, run)), |s.buf| - 1);
  }

  lemma InitIsEmptyQueue<T>(s: State<T>)
    requires Init(s)
    ensures Inv(s) && Abstract(s) == Fifo([], [], 0)
  {
  }

  /** The consumer never reads a slot the producer is about to write, and every slot it reads has been
      written. */
  lemma NoSlotReadWhileWritten<T>(s: State<T>)
    requires Inv(s)
    ensures s.producer.PushWrite? && s.consumer.PopRead? ==> s.producer.h != s.consumer.t
    ensures s.producer.PushWrite? && s.consumer.ClearLoop? && s.consumer.idx != s.consumer.h
            ==> s.producer.h != s.consumer.idx
    ensures !s.producer.PIdle? ==> Enabled(s, ProducerStep)
    ensures !s.consumer.CIdle? ==> Enabled(s, ConsumerStep)
  {
    match s.consumer {
      case PopRead(_) =>
        AdvanceTail(s.buf, s.head, s.tail);
      case ClearLoop(h, idx) =>
        Suffix(s.buf, s.head, h, s.tail);
        Suffix(s.buf, h, idx, s.tail);
        if idx != h {
          AdvanceTail(s.buf, h, idx);
        }
      case _ =>
    }
  }
}
