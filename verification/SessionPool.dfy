/** The pool of four session slots: workers claim a slot by compare-exchange and reset it field by field,
    while exception and process callbacks look sessions up by pid and store into them
    (vita-gdb/src/gdb/sessions.rs, vita-gdb/src/gdb/handlers.rs). Any number of workers and callbacks. */
module SessionPool {
  import opened Words
  import E = Events

  const MAX_SESSIONS := 4
  const PID_UNUSED := -1

  /** The tables as the addresses they hold, the ring as how many events it holds. */
  datatype Slot = Slot(
    pid: int, evflag: Option<nat>, hw: set<int>, wp: set<int>, sw: set<int>,
    step: Option<int>, stepResult: bool, exited: bool, ring: nat)

  datatype Worker =
    | Outside
    | Scanning(i: nat, pid: int)     // GdbSession::new: about to compare-exchange slot i
    | Claimed(i: nat)                // pid stored, event flag not yet
    | Owner(i: nat)
    | Resetting(i: nat, phase: nat)  // reset: `phase` of its stores are done

  datatype What = Exit | Excp | Step

  datatype Handler =
    | Idle
    | Found(i: nat, pid: int, what: What)  // the session's pid matched the callback's; the process is halted
    | Past(i: nat, pid: int, what: What)   // push_exited, push_excp: the event flag was there
    | StepTaken(i: nat, pid: int)          // step_finished: the step record is taken
    | StepStored(i: nat, pid: int)         // step_finished: the result is stored, about to unwrap the event flag
    | Panicked(i: nat)                     // step_finished: the event flag was gone

  datatype State = State(slots: seq<Slot>, workers: seq<Worker>, handlers: seq<Handler>)

  datatype Action =
    | Begin(w: nat, pid: int)                 // a worker starts to claim a slot for pid
    | Work(w: nat, flag: nat)                 // its next claiming or resetting step
    | Use(w: nat, to: Slot)                   // the owner changes what it owns
    | BeginReset(w: nat)
    | Lookup(h: nat, i: nat, what: What)      // a callback finds its session
    | Handle(h: nat)                          // its next step

  const FRESH := Slot(PID_UNUSED, None, {}, {}, {}, None, false, false, 0)

  ghost predicate Init(s: State) {
    && s.slots == seq(MAX_SESSIONS, _ => FRESH)
    && (forall w :: 0 <= w < |s.workers| ==> s.workers[w] == Outside)
    && (forall h :: 0 <= h < |s.handlers| ==> s.handlers[h] == Idle)
  }

  predicate Holds(w: Worker) {
    w.Claimed? || w.Owner? || w.Resetting?
  }

  predicate Busy(h: Handler) {
    h.Found? || h.Past? || h.StepTaken? || h.StepStored?
  }

  predicate Enabled(s: State, a: Action) {
    match a
    case Begin(w, _) => w < |s.workers| && s.workers[w].Outside?
    case Work(w, _) =>
      && w < |s.workers|
      && (s.workers[w].Scanning? || s.workers[w].Claimed? || s.workers[w].Resetting?)
      && (Holds(s.workers[w]) ==> s.workers[w].i < |s.slots|)
    case Use(w, to) =>
      && w < |s.workers| && s.workers[w].Owner? && s.workers[w].i < |s.slots|
      && var slot := s.slots[s.workers[w].i]; to.pid == slot.pid && to.evflag == slot.evflag
    case BeginReset(w) => w < |s.workers| && s.workers[w].Owner?
    case Lookup(h, i, _) => h < |s.handlers| && s.handlers[h].Idle? && i < |s.slots| && s.slots[i].pid != PID_UNUSED
    case Handle(h) => h < |s.handlers| && Busy(s.handlers[h]) && s.handlers[h].i < |s.slots|
  }

  /** The stores of reset, in program order; the event flag is the first to go and the pid the last. */
  function ResetStore(slot: Slot, phase: nat): Slot {
    if phase == 0 then slot.(evflag := None)
    else if phase == 1 then slot.(hw := {})
    else if phase == 2 then slot.(wp := {})
    else if phase == 3 then slot.(sw := {})
    else if phase == 4 then slot.(step := None)
    else if phase == 5 then slot.(exited := false)
    else if phase == 6 then slot.(ring := 0)
    else slot.(pid := PID_UNUSED)
  }

  const RESET_STORES := 8

  function WorkerStep(s: State, w: nat, flag: nat): State
    requires Enabled(s, Work(w, flag))
  {
    match s.workers[w]
    case Scanning(i, pid) =>
      if i >= |s.slots| then s.(workers := s.workers[w := Outside])
      else if s.slots[i].pid == PID_UNUSED
      then s.(slots := s.slots[i := s.slots[i].(pid := pid)], workers := s.workers[w := Claimed(i)])
      else s.(workers := s.workers[w := Scanning(i + 1, pid)])
    case Claimed(i) =>
      s.(slots := s.slots[i := s.slots[i].(evflag := Some(flag))], workers := s.workers[w := Owner(i)])
    case Resetting(i, phase) =>
      s.(slots := s.slots[i := ResetStore(s.slots[i], phase)],
         workers := s.workers[w := if phase + 1 < RESET_STORES then Resetting(i, phase + 1) else Outside])
    case _ => s
  }

  function HandlerStep(s: State, h: nat): State
    requires Enabled(s, Handle(h))
  {
    var i := s.handlers[h].i;
    var slot := s.slots[i];
    match s.handlers[h]
    case Found(_, _, Step) =>
      if slot.step.None? then s.(handlers := s.handlers[h := Idle])
      else s.(slots := s.slots[i := slot.(step := None)], handlers := s.handlers[h := StepTaken(i, s.handlers[h].pid)])
    case Found(_, pid, what) =>
      s.(handlers := s.handlers[h := if slot.evflag.Some? then Past(i, pid, what) else Idle])
    case Past(_, _, Exit) => s.(slots := s.slots[i := slot.(exited := true)], handlers := s.handlers[h := Idle])
    case Past(_, _, _) =>
      s.(slots := s.slots[i := slot.(ring := if slot.ring < E.RING_ROOM then slot.ring + 1 else slot.ring)],
         handlers := s.handlers[h := Idle])
    case StepTaken(_, pid) =>
      s.(slots := s.slots[i := slot.(stepResult := true)], handlers := s.handlers[h := StepStored(i, pid)])
    case StepStored(_, _) => s.(handlers := s.handlers[h := if slot.evflag.Some? then Idle else Panicked(i)])
    case _ => s
  }

  function Do(s: State, a: Action): State
    requires Enabled(s, a)
  {
    match a
    case Begin(w, pid) => s.(workers := s.workers[w := Scanning(0, pid)])
    case Work(w, flag) => WorkerStep(s, w, flag)
    case Use(w, to) => s.(slots := s.slots[s.workers[w].i := to])
    case BeginReset(w) => s.(workers := s.workers[w := Resetting(s.workers[w].i, 0)])
    case Lookup(h, i, what) => s.(handlers := s.handlers[h := Found(i, s.slots[i].pid, what)])
    case Handle(h) => HandlerStep(s, h)
  }

  // ---- Runs

  ghost predicate IsRun(s: State, run: seq<Action>, t: State)
    decreases |run|
  {
    if run == [] then t == s else Enabled(s, run[0]) && IsRun(Do(s, run[0]), run[1..], t)
  }

  /** The kernel gives no process the pid that marks a slot as free. */
  predicate RealPids(run: seq<Action>) {
    forall k :: 0 <= k < |run| && run[k].Begin? ==> run[k].pid != PID_UNUSED
  }

  // ---- Ownership

  predicate Owns(w: Worker, i: nat) {
    Holds(w) && w.i == i
  }

  /** Each slot has at most one owner. */
  predicate OneOwner(s: State) {
    forall v, w :: 0 <= v < w < |s.workers| && Holds(s.workers[v]) && Holds(s.workers[w]) ==>
      s.workers[v].i != s.workers[w].i
  }

  predicate OwnInv(s: State) {
    && |s.slots| == MAX_SESSIONS && OneOwner(s)
    && (forall w :: 0 <= w < |s.workers| && Holds(s.workers[w]) ==>
         s.workers[w].i < |s.slots| && s.slots[s.workers[w].i].pid != PID_UNUSED)
    && (forall w :: 0 <= w < |s.workers| && s.workers[w].Scanning? ==> s.workers[w].pid != PID_UNUSED)
    && (forall w :: 0 <= w < |s.workers| && s.workers[w].Resetting? ==> s.workers[w].phase < RESET_STORES)
  }

  lemma WorkKeepsOwn(s: State, w: nat, flag: nat)
    requires OwnInv(s) && Enabled(s, Work(w, flag))
    ensures OwnInv(Do(s, Work(w, flag)))
  {
    match s.workers[w] {
      case Scanning(i, pid) =>
        if i < |s.slots| && s.slots[i].pid == PID_UNUSED {
          MoveKeepsOwn(s, w, i, Claimed(i), s.slots[i].(pid := pid));
        }
      case Claimed(i) => MoveKeepsOwn(s, w, i, Owner(i), s.slots[i].(evflag := Some(flag)));
      case Resetting(i, phase) =>
        MoveKeepsOwn(s, w, i, if phase + 1 < RESET_STORES then Resetting(i, phase + 1) else Outside,
                     ResetStore(s.slots[i], phase));
      case _ =>
    }
  }

  /** A worker that owns slot i, or finds it free, moves to `to` and leaves `slot` in it. */
  lemma MoveKeepsOwn(s: State, w: nat, i: nat, to: Worker, slot: Slot)
    requires OwnInv(s) && w < |s.workers| && i < |s.slots|
    requires Owns(s.workers[w], i) || s.slots[i].pid == PID_UNUSED
    requires to.Outside? || (Owns(to, i) && slot.pid != PID_UNUSED && (to.Resetting? ==> to.phase < RESET_STORES))
    ensures OwnInv(s.(slots := s.slots[i := slot], workers := s.workers[w := to]))
  {
    assert forall v :: 0 <= v < |s.workers| && v != w && Holds(s.workers[v]) ==> s.workers[v].i != i;
  }

  lemma StepKeepsOwn(s: State, a: Action)
    requires OwnInv(s) && Enabled(s, a) && (a.Begin? ==> a.pid != PID_UNUSED)
    ensures OwnInv(Do(s, a))
  {
    match a {
      case Work(w, flag) => WorkKeepsOwn(s, w, flag);
      case Handle(h) =>
        var t := Do(s, a);
        assert t.workers == s.workers && forall i :: 0 <= i < |s.slots| ==> t.slots[i].pid == s.slots[i].pid;
      case _ =>
    }
  }

  lemma {:induction false} RunKeepsOwn(s: State, run: seq<Action>, t: State)
    requires OwnInv(s) && IsRun(s, run, t) && RealPids(run)
    ensures OwnInv(t)
    decreases |run|
  {
    if run != [] {
      StepKeepsOwn(s, run[0]);
      RunKeepsOwn(Do(s, run[0]), run[1..], t);
    }
  }

  /** Over every run whatever, races between resets and callbacks included, each slot has at most one owner,
      and a slot that is held is not free for anyone else. */
  lemma OneOwnerAlways(s: State, run: seq<Action>, t: State)
    requires Init(s) && IsRun(s, run, t) && RealPids(run)
    ensures OneOwner(t)
    ensures forall w :: 0 <= w < |t.workers| && Holds(t.workers[w]) ==>
              t.workers[w].i < |t.slots| && t.slots[t.workers[w].i].pid != PID_UNUSED
  {
    RunKeepsOwn(s, run, t);
  }

  // ---- What one slot keeps

  /** Everything `reset` covers is in its initial state; the step result is not covered. */
  predicate Clean(slot: Slot) {
    && slot.evflag == None && slot.hw == {} && slot.wp == {} && slot.sw == {} && slot.step == None
    && !slot.exited && slot.ring == 0
  }

  predicate HasReset(slot: Slot, phase: nat) {
    && (phase > 0 ==> slot.evflag == None) && (phase > 1 ==> slot.hw == {}) && (phase > 2 ==> slot.wp == {})
    && (phase > 3 ==> slot.sw == {}) && (phase > 4 ==> slot.step == None) && (phase > 5 ==> !slot.exited)
    && (phase > 6 ==> slot.ring == 0)
  }

  /** What holding a slot at this point means for the slot. */
  predicate HolderSees(w: Worker, slot: Slot) {
    && (w.Claimed? ==> Clean(slot))
    && (w.Owner? ==> slot.evflag.Some?)
    && (w.Resetting? ==> HasReset(slot, w.phase) && (w.phase == 0 ==> slot.evflag.Some?))
  }

  /** A callback on slot i beyond its check of the event flag. */
  predicate Committed(h: Handler, i: nat) {
    (h.Past? || h.StepTaken? || h.StepStored?) && h.i == i
  }

  predicate SlotInv(s: State, i: nat) {
    && i < |s.slots|
    && (forall w :: 0 <= w < |s.workers| && Owns(s.workers[w], i) ==> HolderSees(s.workers[w], s.slots[i]))
    && (s.slots[i].pid == PID_UNUSED ==> Clean(s.slots[i]))
    && (s.slots[i].step.Some? ==> s.slots[i].evflag.Some?)
    && (forall h :: 0 <= h < |s.handlers| && Committed(s.handlers[h], i) ==> s.slots[i].evflag.Some?)
    && (forall h :: 0 <= h < |s.handlers| ==> s.handlers[h] != Panicked(i))
  }

  /** Nothing is under way on slot i that needs its event flag. */
  predicate Quiet(s: State, i: nat) {
    && i < |s.slots| && s.slots[i].step.None?
    && forall h :: 0 <= h < |s.handlers| ==> !Committed(s.handlers[h], i)
  }

  /** The action drops the event flag of slot i: the first store of reset. */
  predicate DropsFlag(s: State, a: Action, i: nat) {
    a.Work? && a.w < |s.workers| && s.workers[a.w] == Resetting(i, 0)
  }

  /** A claim is for a real pid, and the event flag of slot i is dropped only when nothing needs it. What
      happens to other slots is free. */
  predicate Careful(s: State, a: Action, i: nat)
    requires Enabled(s, a)
  {
    (a.Begin? ==> a.pid != PID_UNUSED) && (DropsFlag(s, a, i) ==> Quiet(s, i))
  }

  /** A step that touches neither slot i nor the workers and callbacks on it. */
  lemma ElsewhereKeepsSlot(s: State, t: State, i: nat)
    requires SlotInv(s, i) && |t.workers| == |s.workers| && |t.handlers| == |s.handlers|
    requires i < |t.slots| && t.slots[i] == s.slots[i]
    requires forall w :: 0 <= w < |s.workers| && Owns(t.workers[w], i) ==> t.workers[w] == s.workers[w]
    requires forall h :: 0 <= h < |s.handlers| && (Committed(t.handlers[h], i) || t.handlers[h] == Panicked(i))
               ==> t.handlers[h] == s.handlers[h]
    ensures SlotInv(t, i)
  {
  }

  lemma WorkKeepsSlot(s: State, w: nat, flag: nat, i: nat)
    requires OwnInv(s) && SlotInv(s, i) && Enabled(s, Work(w, flag)) && Careful(s, Work(w, flag), i)
    ensures SlotInv(Do(s, Work(w, flag)), i)
  {
    if s.workers[w] == Claimed(i) {
      MoveKeepsSlot(s, w, Owner(i), s.slots[i].(evflag := Some(flag)), i);
    } else if s.workers[w].Resetting? && s.workers[w].i == i {
      ResetKeepsSlot(s, w, flag, i);
    } else if s.workers[w].Scanning? && s.workers[w].i == i && s.slots[i].pid == PID_UNUSED {
      MoveKeepsSlot(s, w, Claimed(i), s.slots[i].(pid := s.workers[w].pid), i);
    } else {
      WorkElsewhere(s, w, flag, i);
    }
  }

  lemma WorkElsewhere(s: State, w: nat, flag: nat, i: nat)
    requires OwnInv(s) && SlotInv(s, i) && Enabled(s, Work(w, flag)) && !Owns(s.workers[w], i)
    requires !(s.workers[w].Scanning? && s.workers[w].i == i && s.slots[i].pid == PID_UNUSED)
    ensures SlotInv(Do(s, Work(w, flag)), i)
  {
    ElsewhereKeepsSlot(s, Do(s, Work(w, flag)), i);
  }

  lemma ResetKeepsSlot(s: State, w: nat, flag: nat, i: nat)
    requires OwnInv(s) && SlotInv(s, i) && Enabled(s, Work(w, flag)) && Careful(s, Work(w, flag), i)
    requires s.workers[w].Resetting? && s.workers[w].i == i
    ensures SlotInv(Do(s, Work(w, flag)), i)
  {
    var phase := s.workers[w].phase;
    assert HolderSees(s.workers[w], s.slots[i]);
    MoveKeepsSlot(s, w, if phase + 1 < RESET_STORES then Resetting(i, phase + 1) else Outside,
                  ResetStore(s.slots[i], phase), i);
  }

  /** A worker that owns slot i, or finds it free, moves to `to` and leaves `slot` in it. */
  lemma MoveKeepsSlot(s: State, w: nat, to: Worker, slot: Slot, i: nat)
    requires OwnInv(s) && SlotInv(s, i) && w < |s.workers|
    requires Owns(s.workers[w], i) || s.slots[i].pid == PID_UNUSED
    requires (Owns(to, i) && HolderSees(to, slot)) || (to == Outside && Clean(slot))
    requires slot.pid == PID_UNUSED ==> Clean(slot)
    requires slot.step.Some? ==> slot.evflag.Some?
    requires slot.evflag.Some? || forall h :: 0 <= h < |s.handlers| ==> !Committed(s.handlers[h], i)
    ensures SlotInv(s.(slots := s.slots[i := slot], workers := s.workers[w := to]), i)
  {
    var t := s.(slots := s.slots[i := slot], workers := s.workers[w := to]);
    assert forall v :: 0 <= v < |s.workers| && v != w ==> !Owns(s.workers[v], i) && t.workers[v] == s.workers[v];
  }

  lemma HandleKeepsSlot(s: State, h: nat, i: nat)
    requires OwnInv(s) && SlotInv(s, i) && Enabled(s, Handle(h))
    ensures SlotInv(Do(s, Handle(h)), i)
  {
    var t := Do(s, Handle(h));
    if s.handlers[h].i == i {
      assert t.slots[i].evflag == s.slots[i].evflag && t.slots[i].pid == s.slots[i].pid;
      assert Committed(s.handlers[h], i) || t.slots[i] == s.slots[i] || s.slots[i].step.Some?;
    } else {
      ElsewhereKeepsSlot(s, t, i);
    }
  }

  lemma UseKeepsSlot(s: State, w: nat, to: Slot, i: nat)
    requires OwnInv(s) && SlotInv(s, i) && Enabled(s, Use(w, to))
    ensures SlotInv(Do(s, Use(w, to)), i)
  {
    if s.workers[w].i == i {
      assert HolderSees(s.workers[w], s.slots[i]);
      assert forall v :: 0 <= v < |s.workers| && v != w ==> !Owns(s.workers[v], i);
    }
  }

  lemma StepKeepsSlot(s: State, a: Action, i: nat)
    requires OwnInv(s) && SlotInv(s, i) && Enabled(s, a) && Careful(s, a, i)
    ensures SlotInv(Do(s, a), i)
  {
    match a {
      case Begin(_, _) =>
      case Work(w, flag) => WorkKeepsSlot(s, w, flag, i);
      case Use(w, to) => UseKeepsSlot(s, w, to, i);
      case BeginReset(w) =>
        var t := Do(s, a);
        assert forall v :: 0 <= v < |s.workers| && v != w ==> t.workers[v] == s.workers[v];
      case Lookup(_, _, _) =>
      case Handle(h) => HandleKeepsSlot(s, h, i);
    }
  }

  ghost predicate CarefulRun(s: State, run: seq<Action>, t: State, i: nat)
    decreases |run|
  {
    if run == [] then t == s
    else Enabled(s, run[0]) && Careful(s, run[0], i) && CarefulRun(Do(s, run[0]), run[1..], t, i)
  }

  lemma {:induction false} CarefulRunKeepsSlot(s: State, run: seq<Action>, t: State, i: nat)
    requires OwnInv(s) && SlotInv(s, i) && CarefulRun(s, run, t, i)
    ensures OwnInv(t) && SlotInv(t, i)
    decreases |run|
  {
    if run != [] {
      StepKeepsOwn(s, run[0]);
      StepKeepsSlot(s, run[0], i);
      CarefulRunKeepsSlot(Do(s, run[0]), run[1..], t, i);
    }
  }

  /** The slot is clean when it is unused, and no callback on it has panicked. */
  predicate Good(s: State, i: nat) {
    && i < |s.slots| && (s.slots[i].pid == PID_UNUSED ==> Clean(s.slots[i]))
    && forall h :: 0 <= h < |s.handlers| ==> s.handlers[h] != Panicked(i)
  }

  /** Over every run in which the event flag of slot i is dropped only when nothing needs it, whatever happens
      to the other slots, slot i is clean whenever it is unused, and no callback on it panics. */
  lemma SlotStaysGood(s: State, run: seq<Action>, t: State, i: nat)
    requires Init(s) && i < MAX_SESSIONS && CarefulRun(s, run, t, i)
    ensures Good(t, i)
  {
    CarefulRunKeepsSlot(s, run, t, i);
  }

  lemma {:induction false} RunThen(s: State, run: seq<Action>, t: State, a: Action, i: nat)
    requires CarefulRun(s, run, t, i) && Enabled(t, a) && Careful(t, a, i)
    ensures CarefulRun(s, run + [a], Do(t, a), i)
    decreases |run|
  {
    if run == [] {
      assert (run + [a])[0] == a && (run + [a])[1..] == [];
    } else {
      RunThen(Do(s, run[0]), run[1..], t, a, i);
      assert (run + [a])[0] == run[0] && (run + [a])[1..] == run[1..] + [a];
    }
  }

  /** A reset left to itself frees the slot, clean but for the step result, which the slot's next session
      inherits. */
  lemma {:induction false} ResetFrees(s: State, w: nat, i: nat) returns (run: seq<Action>, t: State)
    requires w < |s.workers| && s.workers[w].Resetting? && 0 < s.workers[w].phase < RESET_STORES
    requires s.workers[w].i == i < |s.slots| && HasReset(s.slots[i], s.workers[w].phase)
    ensures CarefulRun(s, run, t, i) && t.handlers == s.handlers && |t.slots| == |s.slots|
    ensures t.workers == s.workers[w := Outside]
    ensures t.slots[i] == FRESH.(stepResult := s.slots[i].stepResult)
    decreases RESET_STORES - s.workers[w].phase
  {
    var d := Do(s, Work(w, 0));
    if s.workers[w].phase + 1 == RESET_STORES {
      run, t := [Work(w, 0)], d;
      assert run[1..] == [];
    } else {
      run, t := ResetFrees(d, w, i);
      run := [Work(w, 0)] + run;
    }
  }

  /** A callback past its check of the event flag stores after the reset: the slot is free and not clean. */
  lemma LateStoreDirtiesSlot(s: State, w: nat, h: nat, i: nat) returns (run: seq<Action>, t: State)
    requires w < |s.workers| && s.workers[w] == Resetting(i, 1) && i < |s.slots| && HasReset(s.slots[i], 1)
    requires h < |s.handlers| && s.handlers[h].Past? && s.handlers[h].i == i
    ensures CarefulRun(s, run, t, i) && !Good(t, i)
    ensures i < |t.slots| && t.slots[i].pid == PID_UNUSED && !Clean(t.slots[i])
  {
    var u: State;
    run, u := ResetFrees(s, w, i);
    t := Do(u, Handle(h));
    RunThen(s, run, u, Handle(h), i);
    run := run + [Handle(h)];
  }

  /** A step finished between the reset's first store and its fifth unwraps an event flag that is gone. */
  lemma LateStepPanics(s: State, h: nat, i: nat) returns (run: seq<Action>, t: State)
    requires i < |s.slots| && s.slots[i].evflag == None && s.slots[i].pid != PID_UNUSED && h < |s.handlers|
    requires (s.handlers[h].Idle? && s.slots[i].step.Some?)
             || ((s.handlers[h].StepTaken? || s.handlers[h].StepStored?) && s.handlers[h].i == i)
    ensures CarefulRun(s, run, t, i) && h < |t.handlers| && t.handlers[h] == Panicked(i) && !Good(t, i)
    decreases if s.handlers[h].Idle? then 2 else if s.handlers[h].StepTaken? then 1 else 0
  {
    if s.handlers[h].Idle? {
      var a, b := Lookup(h, i, Step), Handle(h);
      var u := Do(s, a);
      run, t := LateStepPanics(Do(u, b), h, i);
      assert CarefulRun(u, [b] + run, t, i);
      run := [a] + ([b] + run);
    } else if s.handlers[h].StepTaken? {
      run, t := LateStepPanics(Do(s, Handle(h)), h, i);
      run := [Handle(h)] + run;
    } else {
      run, t := [Handle(h)], Do(s, Handle(h));
      assert run[1..] == [];
    }
  }

  /** However the run goes on, unless the flag of slot i is dropped once more while something needs it, the
      slot stays good. */
  ghost predicate Safe(s: State, i: nat) {
    forall run, t :: CarefulRun(s, run, t, i) ==> Good(t, i)
  }

  /** The first store of a reset is safe exactly when nothing on the slot still needs its event flag. */
  lemma DropSafeExactly(s: State, w: nat, i: nat, idle: nat)
    requires OwnInv(s) && SlotInv(s, i) && w < |s.workers| && s.workers[w] == Resetting(i, 0)
    requires idle < |s.handlers| && s.handlers[idle] == Idle
    ensures Quiet(s, i) <==> Safe(Do(s, Work(w, 0)), i)
  {
    var d := Do(s, Work(w, 0));
    if Quiet(s, i) {
      StepKeepsOwn(s, Work(w, 0));
      StepKeepsSlot(s, Work(w, 0), i);
      forall run, t | CarefulRun(d, run, t, i) ensures Good(t, i) {
        CarefulRunKeepsSlot(d, run, t, i);
      }
    } else {
      var run, t := UnquietDrop(s, w, i, idle);
      assert CarefulRun(d, run, t, i) && !Good(t, i);
    }
  }

  lemma UnquietDrop(s: State, w: nat, i: nat, idle: nat) returns (run: seq<Action>, t: State)
    requires OwnInv(s) && SlotInv(s, i) && w < |s.workers| && s.workers[w] == Resetting(i, 0)
    requires idle < |s.handlers| && s.handlers[idle] == Idle && !Quiet(s, i)
    ensures CarefulRun(Do(s, Work(w, 0)), run, t, i) && !Good(t, i)
  {
    var d := Do(s, Work(w, 0));
    if s.slots[i].step.Some? {
      run, t := LateStepPanics(d, idle, i);
    } else {
      var h :| 0 <= h < |s.handlers| && Committed(s.handlers[h], i);
      if s.handlers[h].Past? {
        run, t := LateStoreDirtiesSlot(d, w, h, i);
      } else {
        run, t := LateStepPanics(d, h, i);
      }
    }
  }

  // ---- The failing runs are real

  lemma {:induction false} CarefulRunIsRun(s: State, run: seq<Action>, t: State, i: nat)
    requires CarefulRun(s, run, t, i)
    ensures IsRun(s, run, t) && RealPids(run)
    decreases |run|
  {
    if run != [] {
      CarefulRunIsRun(Do(s, run[0]), run[1..], t, i);
      assert forall k :: 0 < k < |run| ==> run[k] == run[1..][k - 1];
    }
  }

  lemma OneMore(s: State, a: Action, run: seq<Action>, t: State)
    requires Enabled(s, a) && (a.Begin? ==> a.pid != PID_UNUSED) && IsRun(Do(s, a), run, t) && RealPids(run)
    ensures IsRun(s, [a] + run, t) && RealPids([a] + run)
  {
    assert ([a] + run)[0] == a && ([a] + run)[1..] == run;
  }

  /** A session from its claim to its owner's reset, with `to` as what the owner makes of the slot in between
      and a callback that gets past its check before the reset: the first half of both failing runs. */
  function ReadyToDrop(s: State, pid: int, flag: nat, to: Slot, what: What): seq<State>
    requires Init(s) && |s.workers| > 0 && |s.handlers| > 0 && pid != PID_UNUSED && what != Step
    requires to.pid == pid && to.evflag == Some(flag)
  {
    var s1 := Do(s, Begin(0, pid));
    var s2 := Do(s1, Work(0, flag));
    var s3 := Do(s2, Work(0, flag));
    var s4 := Do(s3, Use(0, to));
    var s5 := Do(s4, Lookup(0, 0, what));
    var s6 := Do(s5, Handle(0));
    [s, s1, s2, s3, s4, s5, s6, Do(s6, BeginReset(0))]
  }

  /** From the start a process can die or fault while its debugger detaches, so that its slot is free and not
      clean. */
  lemma LateStoreReached(s: State, pid: int, flag: nat, what: What) returns (run: seq<Action>, t: State)
    requires Init(s) && |s.workers| > 0 && |s.handlers| > 0 && pid != PID_UNUSED && what != Step
    ensures IsRun(s, run, t) && RealPids(run)
    ensures |t.slots| > 0 && t.slots[0].pid == PID_UNUSED && !Clean(t.slots[0])
  {
    var c := ReadyToDrop(s, pid, flag, FRESH.(pid := pid, evflag := Some(flag)), what);
    var d := Do(c[7], Work(0, 0));
    run, t := LateStoreDirtiesSlot(d, 0, 0, 0);
    CarefulRunIsRun(d, run, t, 0);
    OneMore(c[7], Work(0, 0), run, t);
    run := [Work(0, 0)] + run;
    run := ReachFrom(c, pid, flag, c[4].slots[0], what, run, t);
  }

  lemma ReachFrom(c: seq<State>, pid: int, flag: nat, to: Slot, what: What, tail: seq<Action>, t: State)
    returns (run: seq<Action>)
    requires |c| == 8 && Init(c[0]) && |c[0].workers| > 0 && |c[0].handlers| > 0 && pid != PID_UNUSED && what != Step
    requires to.pid == pid && to.evflag == Some(flag) && c == ReadyToDrop(c[0], pid, flag, to, what)
    requires IsRun(c[7], tail, t) && RealPids(tail)
    ensures IsRun(c[0], run, t) && RealPids(run)
  {
    run := tail;
    OneMore(c[6], BeginReset(0), run, t);
    run := [BeginReset(0)] + run;
    OneMore(c[5], Handle(0), run, t);
    run := [Handle(0)] + run;
    OneMore(c[4], Lookup(0, 0, what), run, t);
    run := [Lookup(0, 0, what)] + run;
    OneMore(c[3], Use(0, to), run, t);
    run := [Use(0, to)] + run;
    OneMore(c[2], Work(0, flag), run, t);
    run := [Work(0, flag)] + run;
    OneMore(c[1], Work(0, flag), run, t);
    run := [Work(0, flag)] + run;
    OneMore(c[0], Begin(0, pid), run, t);
    run := [Begin(0, pid)] + run;
  }

  /** From the start a step can end while its debugger detaches, so that step_finished panics. */
  lemma LateStepReached(s: State, pid: int, flag: nat, addr: int) returns (run: seq<Action>, t: State)
    requires Init(s) && |s.workers| > 0 && |s.handlers| > 1 && pid != PID_UNUSED
    ensures IsRun(s, run, t) && RealPids(run) && |t.handlers| > 1 && t.handlers[1] == Panicked(0)
  {
    var to := FRESH.(pid := pid, evflag := Some(flag), step := Some(addr));
    var c := ReadyToDrop(s, pid, flag, to, Excp);
    var d := Do(c[7], Work(0, 0));
    run, t := LateStepPanics(d, 1, 0);
    CarefulRunIsRun(d, run, t, 0);
    OneMore(c[7], Work(0, 0), run, t);
    run := [Work(0, 0)] + run;
    run := ReachFrom(c, pid, flag, to, Excp, run, t);
  }

  // ---- Whose session an event reaches

  /** The last store of a reset frees slot i. */
  predicate Frees(s: State, a: Action, i: nat) {
    a.Work? && a.w < |s.workers| && s.workers[a.w] == Resetting(i, RESET_STORES - 1)
  }

  /** The compare-exchange that takes slot i for process p. */
  predicate Claims(s: State, a: Action, i: nat, p: int) {
    a.Work? && a.w < |s.workers| && s.workers[a.w] == Scanning(i, p) && i < |s.slots| && s.slots[i].pid == PID_UNUSED
  }

  ghost predicate Freed(s: State, run: seq<Action>, i: nat)
    decreases |run|
  {
    run != [] && Enabled(s, run[0]) && (Frees(s, run[0], i) || Freed(Do(s, run[0]), run[1..], i))
  }

  /** Slot i is claimed for process p and not freed again. */
  ghost predicate ClaimedFor(s: State, run: seq<Action>, i: nat, p: int)
    decreases |run|
  {
    run != [] && Enabled(s, run[0]) &&
    ((Claims(s, run[0], i, p) && !Freed(Do(s, run[0]), run[1..], i)) || ClaimedFor(Do(s, run[0]), run[1..], i, p))
  }

  lemma StepTellsPid(s: State, a: Action, i: nat, p: int)
    requires OwnInv(s) && Enabled(s, a) && i < |s.slots| && p != PID_UNUSED
    ensures |Do(s, a).slots| == |s.slots|
    ensures Do(s, a).slots[i].pid == p <==> (s.slots[i].pid == p && !Frees(s, a, i)) || Claims(s, a, i, p)
  {
    match a {
      case Work(w, flag) =>
        match s.workers[w] {
          case Resetting(j, phase) => assert ResetStore(s.slots[j], phase).pid == s.slots[j].pid || phase >= 7;
          case _ =>
        }
      case _ =>
    }
  }

  /** A slot is process p's exactly when it was and has not been freed, or has since been claimed for p. */
  lemma {:induction false} RunTellsPid(s: State, run: seq<Action>, t: State, i: nat, p: int)
    requires OwnInv(s) && IsRun(s, run, t) && RealPids(run) && i < |s.slots| && p != PID_UNUSED
    ensures i < |t.slots|
    ensures t.slots[i].pid == p <==> (s.slots[i].pid == p && !Freed(s, run, i)) || ClaimedFor(s, run, i, p)
    decreases |run|
  {
    if run != [] {
      StepKeepsOwn(s, run[0]);
      StepTellsPid(s, run[0], i, p);
      RunTellsPid(Do(s, run[0]), run[1..], t, i, p);
    }
  }

  /** A callback that found process p's session in slot i, and has not ended: what it stores next reaches p's
      session no more exactly when the slot has been freed since and not claimed for p again. */
  lemma StrayExactly(s: State, run: seq<Action>, t: State, h: nat, i: nat)
    requires OwnInv(s) && IsRun(s, run, t) && RealPids(run)
    requires h < |s.handlers| && s.handlers[h].Found? && s.handlers[h].i == i < |s.slots|
    requires s.slots[i].pid == s.handlers[h].pid != PID_UNUSED
    ensures i < |t.slots|
    ensures var p := s.handlers[h].pid;
            t.slots[i].pid != p <==> Freed(s, run, i) && !ClaimedFor(s, run, i, p)
  {
    var p := s.handlers[h].pid;
    RunTellsPid(s, run, t, i, p);
    if !Freed(s, run, i) {
      NotFreedNotClaimed(s, run, t, i, p);
    }
  }

  /** A slot that is taken and never freed is never claimed. */
  lemma {:induction false} NotFreedNotClaimed(s: State, run: seq<Action>, t: State, i: nat, p: int)
    requires OwnInv(s) && IsRun(s, run, t) && RealPids(run) && i < |s.slots| && p != PID_UNUSED
    requires s.slots[i].pid == p && !Freed(s, run, i)
    ensures !ClaimedFor(s, run, i, p)
    decreases |run|
  {
    if run != [] {
      StepKeepsOwn(s, run[0]);
      StepTellsPid(s, run[0], i, p);
      NotFreedNotClaimed(Do(s, run[0]), run[1..], t, i, p);
    }
  }

  /** From the start, and with every flag dropped only when nothing needs it: the exit of process p ends up in the
      session of process q. */
  lemma StrayEventReached(s: State, p: int, q: int) returns (run: seq<Action>, t: State)
    requires Init(s) && |s.workers| > 0 && |s.handlers| > 0 && p != PID_UNUSED && q != PID_UNUSED && p != q
    ensures CarefulRun(s, run, t, 0) && |t.slots| > 0 && t.slots[0].pid == q && t.slots[0].exited
  {
    var u := FoundThenReset(s, p);
    var d := Do(u, Work(0, 0));
    var freed: State;
    run, freed := ResetFrees(d, 0, 0);
    var tail: seq<Action>;
    tail, t := ClaimedThenStored(freed, q);
    RunsJoin(d, run, freed, tail, t, 0);
    OneMoreCareful(u, Work(0, 0), run + tail, t, 0);
    run := AfterFound(s, p, [Work(0, 0)] + (run + tail), t);
  }

  /** A session that is claimed and owned, found by a callback for an exit, and about to be reset. */
  function FoundThenReset(s: State, p: int): State
    requires Init(s) && |s.workers| > 0 && |s.handlers| > 0 && p != PID_UNUSED
  {
    var s3 := Do(Do(Do(s, Begin(0, p)), Work(0, 0)), Work(0, 0));
    Do(Do(s3, Lookup(0, 0, Exit)), BeginReset(0))
  }

  lemma AfterFound(s: State, p: int, tail: seq<Action>, t: State) returns (run: seq<Action>)
    requires Init(s) && |s.workers| > 0 && |s.handlers| > 0 && p != PID_UNUSED
    requires CarefulRun(FoundThenReset(s, p), tail, t, 0)
    ensures CarefulRun(s, run, t, 0)
  {
    var s1 := Do(s, Begin(0, p));
    var s2 := Do(s1, Work(0, 0));
    var s3 := Do(s2, Work(0, 0));
    var s4 := Do(s3, Lookup(0, 0, Exit));
    run := tail;
    OneMoreCareful(s4, BeginReset(0), run, t, 0);
    run := [BeginReset(0)] + run;
    OneMoreCareful(s3, Lookup(0, 0, Exit), run, t, 0);
    run := [Lookup(0, 0, Exit)] + run;
    OneMoreCareful(s2, Work(0, 0), run, t, 0);
    run := [Work(0, 0)] + run;
    OneMoreCareful(s1, Work(0, 0), run, t, 0);
    run := [Work(0, 0)] + run;
    OneMoreCareful(s, Begin(0, p), run, t, 0);
    run := [Begin(0, p)] + run;
  }

  /** The free slot is claimed for q, and the callback goes on. */
  lemma ClaimedThenStored(s: State, q: int) returns (run: seq<Action>, t: State)
    requires |s.slots| > 0 && s.slots[0].pid == PID_UNUSED && q != PID_UNUSED
    requires |s.workers| > 0 && s.workers[0].Outside?
    requires |s.handlers| > 0 && s.handlers[0].Found? && s.handlers[0].i == 0 && s.handlers[0].what == Exit
    ensures CarefulRun(s, run, t, 0) && |t.slots| > 0 && t.slots[0].pid == q && t.slots[0].exited
  {
    var s1 := Do(s, Begin(0, q));
    var s2 := Do(s1, Work(0, 0));
    var s3 := Do(s2, Work(0, 0));
    var s4 := Do(s3, Handle(0));
    t := Do(s4, Handle(0));
    run := [];
    OneMoreCareful(s4, Handle(0), run, t, 0);
    run := [Handle(0)] + run;
    OneMoreCareful(s3, Handle(0), run, t, 0);
    run := [Handle(0)] + run;
    OneMoreCareful(s2, Work(0, 0), run, t, 0);
    run := [Work(0, 0)] + run;
    OneMoreCareful(s1, Work(0, 0), run, t, 0);
    run := [Work(0, 0)] + run;
    OneMoreCareful(s, Begin(0, q), run, t, 0);
    run := [Begin(0, q)] + run;
  }

  lemma OneMoreCareful(s: State, a: Action, run: seq<Action>, t: State, i: nat)
    requires Enabled(s, a) && Careful(s, a, i) && CarefulRun(Do(s, a), run, t, i)
    ensures CarefulRun(s, [a] + run, t, i)
  {
    assert ([a] + run)[0] == a && ([a] + run)[1..] == run;
  }

  lemma {:induction false} RunsJoin(s: State, a: seq<Action>, m: State, b: seq<Action>, t: State, i: nat)
    requires CarefulRun(s, a, m, i) && CarefulRun(m, b, t, i)
    ensures CarefulRun(s, a + b, t, i)
    decreases |a|
  {
    if a == [] {
      assert a + b == b;
    } else {
      RunsJoin(Do(s, a[0]), a[1..], m, b, t, i);
      assert (a + b)[0] == a[0] && (a + b)[1..] == a[1..] + b;
    }
  }

  // ---- Left alone

  predicate HasFree(slots: seq<Slot>) {
    exists j :: 0 <= j < |slots| && slots[j].pid == PID_UNUSED
  }

  predicate NoneFree(slots: seq<Slot>, i: nat, j: nat) {
    forall k :: i <= k < j && k < |slots| ==> slots[k].pid != PID_UNUSED
  }

  /** What a claim that scans from slot i on comes to when nothing else moves. */
  ghost predicate ClaimEnds(s: State, w: nat, i: nat, pid: int, flag: nat, t: State, got: Option<nat>)
    requires w < |s.workers|
  {
    match got
    case None => NoneFree(s.slots, i, |s.slots|) && t == s.(workers := s.workers[w := Outside])
    case Some(j) =>
      && i <= j < |s.slots| && s.slots[j].pid == PID_UNUSED && NoneFree(s.slots, i, j)
      && t.slots == s.slots[j := s.slots[j].(pid := pid, evflag := Some(flag))]
      && t.workers == s.workers[w := Owner(j)] && t.handlers == s.handlers
  }

  lemma {:induction false} ScanAlone(s: State, w: nat, flag: nat) returns (run: seq<Action>, t: State, got: Option<nat>)
    requires w < |s.workers| && s.workers[w].Scanning? && s.workers[w].pid != PID_UNUSED
    requires s.workers[w].i <= |s.slots|
    ensures IsRun(s, run, t) && RealPids(run) && forall k :: 0 <= k < |run| ==> run[k] == Work(w, flag)
    ensures ClaimEnds(s, w, s.workers[w].i, s.workers[w].pid, flag, t, got)
    decreases |s.slots| - s.workers[w].i
  {
    var i, pid, a := s.workers[w].i, s.workers[w].pid, Work(w, flag);
    var d := Do(s, a);
    if i == |s.slots| {
      run, t, got := [], d, None;
    } else if s.slots[i].pid == PID_UNUSED {
      t, got := Do(d, a), Some(i);
      run := [];
      OneMore(d, a, run, t);
      run := [a] + run;
    } else {
      run, t, got := ScanAlone(d, w, flag);
      assert got.None? ==> NoneFree(s.slots, i, |s.slots|);
    }
    OneMore(s, a, run, t);
    run := [a] + run;
  }

  /** A worker whose claim nobody disturbs gets the first free slot, and fails exactly when there is none: then
      nothing has changed. */
  lemma ClaimAlone(s: State, w: nat, pid: int, flag: nat) returns (run: seq<Action>, t: State, got: Option<nat>)
    requires w < |s.workers| && s.workers[w].Outside? && pid != PID_UNUSED
    ensures IsRun(s, run, t) && run != [] && run[0] == Begin(w, pid)
    ensures forall k :: 1 <= k < |run| ==> run[k] == Work(w, flag)
    ensures got.Some? <==> HasFree(s.slots)
    ensures got.None? ==> t == s
    ensures ClaimEnds(s, w, 0, pid, flag, t, got)
  {
    var d := Do(s, Begin(w, pid));
    run, t, got := ScanAlone(d, w, flag);
    OneMore(s, Begin(w, pid), run, t);
    run := [Begin(w, pid)] + run;
    assert s.workers[w := Outside] == s.workers;
  }

  /** The actions of one callback. */
  predicate OnlyHandles(run: seq<Action>, h: nat, i: nat, what: What) {
    run != [] && run[0] == Lookup(h, i, what) && forall k :: 1 <= k < |run| ==> run[k] == Handle(h)
  }

  /** What one callback makes of its slot `a`. */
  predicate Delivers(what: What, a: Slot, b: Slot) {
    && b == a.(exited := b.exited, ring := b.ring, step := b.step, stepResult := b.stepResult)
    && (b.exited <==> a.exited || (what == Exit && a.evflag.Some?))
    && b.ring == (if what == Excp && a.evflag.Some? && a.ring < E.RING_ROOM then a.ring + 1 else a.ring)
    && b.step == (if what == Step then None else a.step)
    && (b.stepResult <==> a.stepResult || (what == Step && a.step.Some?))
  }

  /** Only callback h and slot i change. */
  predicate OnlyChanges(s: State, t: State, h: nat, i: nat, to: Handler)
    requires h < |s.handlers| && i < |s.slots|
  {
    i < |t.slots| && t == State(s.slots[i := t.slots[i]], s.workers, s.handlers[h := to])
  }

  /** A callback that nobody disturbs: an exit is marked, an exception joins the ring unless it is full, and the
      end of a step leaves its result in place of its record, panicking without an event flag. An exit or an
      exception without an event flag and the end of a step without a record change nothing. No other field or
      slot is touched. */
  lemma CallbackAlone(s: State, h: nat, i: nat, what: What) returns (run: seq<Action>, t: State)
    requires h < |s.handlers| && s.handlers[h].Idle? && i < |s.slots| && s.slots[i].pid != PID_UNUSED
    ensures IsRun(s, run, t) && OnlyHandles(run, h, i, what)
    ensures OnlyChanges(s, t, h, i, if what == Step && s.slots[i].step.Some? && s.slots[i].evflag.None?
                                    then Panicked(i) else Idle)
    ensures Delivers(what, s.slots[i], t.slots[i])
  {
    var d := Do(s, Lookup(h, i, what));
    if what == Step {
      run, t := StepAlone(d, h);
    } else {
      run, t := EventAlone(d, h);
    }
    OneMore(s, Lookup(h, i, what), run, t);
    run := [Lookup(h, i, what)] + run;
  }

  lemma StepAlone(s: State, h: nat) returns (run: seq<Action>, t: State)
    requires h < |s.handlers| && s.handlers[h].Found? && s.handlers[h].what == Step && s.handlers[h].i < |s.slots|
    ensures IsRun(s, run, t) && forall k :: 0 <= k < |run| ==> run[k] == Handle(h)
    ensures var i := s.handlers[h].i;
            && OnlyChanges(s, t, h, i, if s.slots[i].step.Some? && s.slots[i].evflag.None? then Panicked(i) else Idle)
            && Delivers(Step, s.slots[i], t.slots[i])
  {
    var a, i := Handle(h), s.handlers[h].i;
    var s1 := Do(s, a);
    run := [];
    if s.slots[i].step.None? {
      t := s1;
    } else {
      var s2 := Do(s1, a);
      t := Do(s2, a);
      OneMore(s2, a, run, t);
      run := [a] + run;
      OneMore(s1, a, run, t);
      run := [a] + run;
    }
    OneMore(s, a, run, t);
    run := [a] + run;
  }

  lemma EventAlone(s: State, h: nat) returns (run: seq<Action>, t: State)
    requires h < |s.handlers| && s.handlers[h].Found? && s.handlers[h].what != Step && s.handlers[h].i < |s.slots|
    ensures IsRun(s, run, t) && forall k :: 0 <= k < |run| ==> run[k] == Handle(h)
    ensures OnlyChanges(s, t, h, s.handlers[h].i, Idle)
    ensures Delivers(s.handlers[h].what, s.slots[s.handlers[h].i], t.slots[s.handlers[h].i])
  {
    var a, i := Handle(h), s.handlers[h].i;
    var s1 := Do(s, a);
    run := [];
    if s.slots[i].evflag.None? {
      t := s1;
    } else {
      t := Do(s1, a);
      OneMore(s1, a, run, t);
      run := [a] + run;
    }
    OneMore(s, a, run, t);
    run := [a] + run;
  }

  // ---- Events nobody hears of

  /** A callback that finds a session someone owns has already halted the process. It reports nothing exactly
      when the claim has not yet stored the event flag, or a reset has cleared it. */
  lemma UnheardExactly(s: State, h: nat, w: nat)
    requires OwnInv(s) && h < |s.handlers| && s.handlers[h].Found? && s.handlers[h].what != Step
    requires w < |s.workers| && Owns(s.workers[w], s.handlers[h].i) && SlotInv(s, s.handlers[h].i)
    ensures Enabled(s, Handle(h))
    ensures Do(s, Handle(h)).handlers[h] == Idle
            <==> s.workers[w].Claimed? || (s.workers[w].Resetting? && s.workers[w].phase > 0)
    ensures Do(s, Handle(h)).handlers[h] == Idle ==> Do(s, Handle(h)).slots == s.slots
  {
    assert HolderSees(s.workers[w], s.slots[s.handlers[h].i]);
  }

  /** From the start: a process that faults between the two stores of a claim is halted and never reported. */
  lemma UnheardReached(s: State, p: int) returns (run: seq<Action>, t: State)
    requires Init(s) && |s.workers| > 0 && |s.handlers| > 0 && p != PID_UNUSED
    ensures CarefulRun(s, run, t, 0) && Lookup(0, 0, Excp) in run && |t.handlers| > 0 && t.handlers[0] == Idle
    ensures |t.slots| > 0 && t.slots[0] == FRESH.(pid := p, evflag := Some(0))
  {
    var s1 := Do(s, Begin(0, p));
    var s2 := Do(s1, Work(0, 0));
    var s3 := Do(s2, Lookup(0, 0, Excp));
    var s4 := Do(s3, Handle(0));
    t := Do(s4, Work(0, 0));
    run := [];
    OneMoreCareful(s4, Work(0, 0), run, t, 0);
    run := [Work(0, 0)] + run;
    OneMoreCareful(s3, Handle(0), run, t, 0);
    run := [Handle(0)] + run;
    OneMoreCareful(s2, Lookup(0, 0, Excp), run, t, 0);
    run := [Lookup(0, 0, Excp)] + run;
    OneMoreCareful(s1, Work(0, 0), run, t, 0);
    run := [Work(0, 0)] + run;
    OneMoreCareful(s, Begin(0, p), run, t, 0);
    run := [Begin(0, p)] + run;
  }

  // ---- The pid that marks a slot as free

  /** Two workers that find the same slot free both come to own it exactly when the first claims it for the
      pid that marks a slot as free. */
  lemma SharedSlotExactly(s: State, v: nat, w: nat, i: nat, p: int, q: int)
    requires v < |s.workers| && w < |s.workers| && v != w
    requires OwnInv(s.(workers := s.workers[v := Outside][w := Outside]))
    requires s.workers[v] == Scanning(i, p) && s.workers[w] == Scanning(i, q)
    requires i < |s.slots| && s.slots[i].pid == PID_UNUSED
    ensures OneOwner(Do(Do(s, Work(v, 0)), Work(w, 0))) <==> p != PID_UNUSED
  {
    var t := Do(Do(s, Work(v, 0)), Work(w, 0));
    var u := s.(workers := s.workers[v := Outside][w := Outside]);
    assert forall k :: 0 <= k < |s.workers| && k != v && k != w ==> t.workers[k] == u.workers[k];
    assert t.workers[v] == Claimed(i) && t.workers[w] == if p == PID_UNUSED then Claimed(i) else Scanning(i + 1, q);
    assert OneOwner(u);
    assert forall k :: 0 <= k < |s.workers| && k != v && k != w && Holds(t.workers[k]) ==> u.workers[k].i != i;
  }

  /** From the start, two workers attaching to pid -1 and to any process share a slot. */
  lemma SharedSlotReached(s: State, q: int) returns (run: seq<Action>, t: State)
    requires Init(s) && |s.workers| > 1
    ensures IsRun(s, run, t) && !OneOwner(t)
  {
    var a, b, c, d := Begin(0, PID_UNUSED), Begin(1, q), Work(0, 0), Work(1, 0);
    var s1 := Do(s, a);
    var s2 := Do(s1, b);
    var s3 := Do(s2, c);
    run, t := [a, b, c, d], Do(s3, d);
    assert t.workers[0] == Claimed(0) && t.workers[1] == Claimed(0);
    assert run[1..] == [b, c, d] && [b, c, d][1..] == [c, d] && [c, d][1..] == [d] && [d][1..] == [];
    assert IsRun(t, [], t);
    assert IsRun(s3, [d], t);
    assert IsRun(s2, [c, d], t);
    assert IsRun(s1, [b, c, d], t);
  }
}
