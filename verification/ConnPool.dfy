/** The pool of four connection states: claimed by compare-exchange, released by close after joining the
    receive thread (acquire_state, release_state, TcpConn::new and TcpConn::close in
    vita-gdb/src/gdb/tcpconn.rs). Any number of workers. */
module ConnPool {
  const MAX_CONNS := 4

  datatype Worker =
    | Outside
    | Trying(i: nat)      // acquire_state: about to compare-exchange entry i
    | Acquired(i: nat)    // entry claimed, receive thread not yet started
    | Connected(i: nat)   // receive thread started
    | Closing(i: nat)     // close: `closed` and EV_WAKE_READER are set, waiting in join

  /** An entry, and how many receive threads use it. */
  datatype Entry = Entry(claimed: bool, readers: nat)

  datatype State = State(entries: seq<Entry>, workers: seq<Worker>)

  datatype Action =
    | Begin(w: nat)
    | Try(w: nat)
    | Start(w: nat, ok: bool)   // JoinableThread::create and start
    | Close(w: nat)
    | ReaderEnds(i: nat)
    | Join(w: nat, ok: bool)    // the join, then release_state whatever its outcome

  ghost predicate Init(s: State) {
    && s.entries == seq(MAX_CONNS, _ => Entry(false, 0))
    && forall w :: 0 <= w < |s.workers| ==> s.workers[w] == Outside
  }

  predicate Holds(w: Worker) {
    w.Acquired? || w.Connected? || w.Closing?
  }

  predicate Enabled(s: State, a: Action) {
    match a
    case Begin(w) => w < |s.workers| && s.workers[w].Outside?
    case Try(w) => w < |s.workers| && s.workers[w].Trying?
    case Start(w, _) => w < |s.workers| && s.workers[w].Acquired? && s.workers[w].i < |s.entries|
    case Close(w) => w < |s.workers| && s.workers[w].Connected?
    case ReaderEnds(i) => i < |s.entries| && s.entries[i].readers > 0
    case Join(w, ok) =>
      && w < |s.workers| && s.workers[w].Closing? && s.workers[w].i < |s.entries|
      && (ok ==> s.entries[s.workers[w].i].readers == 0)
  }

  function Move(s: State, w: nat, to: Worker, i: nat, e: Entry): State
    requires w < |s.workers| && i < |s.entries|
  {
    State(s.entries[i := e], s.workers[w := to])
  }

  function Do(s: State, a: Action): State
    requires Enabled(s, a)
  {
    match a
    case Begin(w) => s.(workers := s.workers[w := Trying(0)])
    case Try(w) =>
      var i := s.workers[w].i;
      if i >= |s.entries| then s.(workers := s.workers[w := Outside])
      else if s.entries[i].claimed then s.(workers := s.workers[w := Trying(i + 1)])
      else Move(s, w, Acquired(i), i, s.entries[i].(claimed := true))
    case Start(w, ok) =>
      var i := s.workers[w].i;
      if ok then Move(s, w, Connected(i), i, s.entries[i].(readers := s.entries[i].readers + 1))
      else s.(workers := s.workers[w := Outside])   // the entry stays claimed
    case Close(w) => s.(workers := s.workers[w := Closing(s.workers[w].i)])
    case ReaderEnds(i) => s.(entries := s.entries[i := s.entries[i].(readers := s.entries[i].readers - 1)])
    case Join(w, _) => Move(s, w, Outside, s.workers[w].i, s.entries[s.workers[w].i].(claimed := false))
  }

  ghost predicate IsRun(s: State, run: seq<Action>, t: State)
    decreases |run|
  {
    if run == [] then t == s else Enabled(s, run[0]) && IsRun(Do(s, run[0]), run[1..], t)
  }

  // ---- Holders

  predicate OneHolder(s: State) {
    forall v, w :: 0 <= v < w < |s.workers| && Holds(s.workers[v]) && Holds(s.workers[w]) ==>
      s.workers[v].i != s.workers[w].i
  }

  predicate OwnInv(s: State) {
    && |s.entries| == MAX_CONNS && OneHolder(s)
    && forall w :: 0 <= w < |s.workers| && Holds(s.workers[w]) ==>
         s.workers[w].i < |s.entries| && s.entries[s.workers[w].i].claimed
  }

  lemma MoveKeepsOwn(s: State, w: nat, to: Worker, i: nat, e: Entry)
    requires OwnInv(s) && w < |s.workers| && i < |s.entries|
    requires (Holds(s.workers[w]) && s.workers[w].i == i) || !s.entries[i].claimed
    requires Holds(to) ==> to.i == i && e.claimed
    ensures OwnInv(Move(s, w, to, i, e))
  {
    assert forall v :: 0 <= v < |s.workers| && v != w && Holds(s.workers[v]) ==> s.workers[v].i != i;
  }

  lemma LeaveKeepsOwn(s: State, w: nat, to: Worker)
    requires OwnInv(s) && w < |s.workers| && !Holds(to)
    ensures OwnInv(s.(workers := s.workers[w := to]))
  {
    var t := s.(workers := s.workers[w := to]);
    assert forall v :: 0 <= v < |t.workers| && Holds(t.workers[v]) ==> t.workers[v] == s.workers[v];
  }

  lemma StepKeepsOwn(s: State, a: Action)
    requires OwnInv(s) && Enabled(s, a)
    ensures OwnInv(Do(s, a))
  {
    match a {
      case Begin(w) => LeaveKeepsOwn(s, w, Trying(0));
      case Try(w) => TryKeepsOwn(s, w);
      case Start(w, ok) => StartKeepsOwn(s, w, ok);
      case Close(w) =>
        var i := s.workers[w].i;
        MoveKeepsOwn(s, w, Closing(i), i, s.entries[i]);
        assert Do(s, a) == Move(s, w, Closing(i), i, s.entries[i]);
      case Join(w, _) => MoveKeepsOwn(s, w, Outside, s.workers[w].i, s.entries[s.workers[w].i].(claimed := false));
      case ReaderEnds(i) =>
        var t := Do(s, a);
        assert forall j :: 0 <= j < |s.entries| ==> t.entries[j].claimed == s.entries[j].claimed;
    }
  }

  lemma TryKeepsOwn(s: State, w: nat)
    requires OwnInv(s) && Enabled(s, Try(w))
    ensures OwnInv(Do(s, Try(w)))
  {
    var i := s.workers[w].i;
    if i >= |s.entries| || s.entries[i].claimed {
      LeaveKeepsOwn(s, w, if i >= |s.entries| then Outside else Trying(i + 1));
    } else {
      MoveKeepsOwn(s, w, Acquired(i), i, s.entries[i].(claimed := true));
    }
  }

  lemma StartKeepsOwn(s: State, w: nat, ok: bool)
    requires OwnInv(s) && Enabled(s, Start(w, ok))
    ensures OwnInv(Do(s, Start(w, ok)))
  {
    var i := s.workers[w].i;
    if ok {
      MoveKeepsOwn(s, w, Connected(i), i, s.entries[i].(readers := s.entries[i].readers + 1));
    } else {
      LeaveKeepsOwn(s, w, Outside);
    }
  }

  /** Over every run whatever, no two workers hold one entry. */
  lemma {:induction false} OneHolderAlways(s: State, run: seq<Action>, t: State)
    requires OwnInv(s) && IsRun(s, run, t)
    ensures OwnInv(t) && OneHolder(t)
    decreases |run|
  {
    if run != [] {
      StepKeepsOwn(s, run[0]);
      OneHolderAlways(Do(s, run[0]), run[1..], t);
    }
  }

  // ---- Acquiring

  predicate AllClaimed(entries: seq<Entry>, i: nat, j: nat) {
    forall k :: i <= k < j && k < |entries| ==> entries[k].claimed
  }

  /** What acquire_state comes to from entry i on when nothing else moves. */
  ghost predicate AcquireEnds(s: State, w: nat, i: nat, t: State, got: bool, j: nat)
    requires w < |s.workers|
  {
    if got then
      && i <= j < |s.entries| && !s.entries[j].claimed && AllClaimed(s.entries, i, j)
      && t == Move(s, w, Acquired(j), j, s.entries[j].(claimed := true))
    else AllClaimed(s.entries, i, |s.entries|) && t == s.(workers := s.workers[w := Outside])
  }

  lemma {:induction false} TryAlone(s: State, w: nat) returns (run: seq<Action>, t: State, got: bool, j: nat)
    requires w < |s.workers| && s.workers[w].Trying? && s.workers[w].i <= |s.entries|
    ensures IsRun(s, run, t) && forall k :: 0 <= k < |run| ==> run[k] == Try(w)
    ensures AcquireEnds(s, w, s.workers[w].i, t, got, j)
    decreases |s.entries| - s.workers[w].i
  {
    var i, d := s.workers[w].i, Do(s, Try(w));
    if i == |s.entries| || !s.entries[i].claimed {
      run, t, got, j := [], d, i < |s.entries|, i;
    } else {
      run, t, got, j := TryAlone(d, w);
      assert AllClaimed(s.entries, i, if got then j else |s.entries|);
    }
    OneMore(s, Try(w), run, t);
    run := [Try(w)] + run;
  }

  /** A worker that nobody disturbs claims the first free entry, and fails exactly when there is none: then
      nothing has changed. */
  lemma AcquireAlone(s: State, w: nat) returns (run: seq<Action>, t: State, got: bool, j: nat)
    requires w < |s.workers| && s.workers[w].Outside?
    ensures IsRun(s, run, t) && run != [] && run[0] == Begin(w) && forall k :: 1 <= k < |run| ==> run[k] == Try(w)
    ensures got <==> exists k :: 0 <= k < |s.entries| && !s.entries[k].claimed
    ensures !got ==> t == s
    ensures AcquireEnds(s, w, 0, t, got, j)
  {
    var d := Do(s, Begin(w));
    run, t, got, j := TryAlone(d, w);
    OneMore(s, Begin(w), run, t);
    run := [Begin(w)] + run;
    assert s.workers[w := Outside] == s.workers;
  }

  // ---- Receive threads

  /** A join that fails does not let go of a running thread. */
  predicate Careful(s: State, a: Action)
    requires Enabled(s, a)
  {
    a.Join? ==> s.entries[s.workers[a.w].i].readers == 0
  }

  predicate ReaderInv(s: State) {
    && (forall i :: 0 <= i < |s.entries| ==>
         s.entries[i].readers <= 1 && (!s.entries[i].claimed ==> s.entries[i].readers == 0))
    && (forall w :: 0 <= w < |s.workers| && s.workers[w].Acquired? ==>
         s.workers[w].i < |s.entries| && s.entries[s.workers[w].i].readers == 0)
  }

  predicate Inv(s: State) {
    OwnInv(s) && ReaderInv(s)
  }

  lemma MoveKeepsReaders(s: State, w: nat, to: Worker, i: nat, e: Entry)
    requires Inv(s) && w < |s.workers| && i < |s.entries|
    requires (Holds(s.workers[w]) && s.workers[w].i == i) || !s.entries[i].claimed
    requires if Holds(to) then to.i == i && e.claimed && e.readers <= 1 && (to.Acquired? ==> e.readers == 0)
             else to.Outside? && e == Entry(false, 0)
    ensures ReaderInv(Move(s, w, to, i, e))
  {
    assert forall v :: 0 <= v < |s.workers| && v != w && Holds(s.workers[v]) ==> s.workers[v].i != i;
  }

  lemma ReaderEndKeepsReaders(s: State, i: nat)
    requires Inv(s) && Enabled(s, ReaderEnds(i))
    ensures ReaderInv(Do(s, ReaderEnds(i)))
  {
    var t := Do(s, ReaderEnds(i));
    assert forall j :: 0 <= j < |s.entries| ==>
      t.entries[j].claimed == s.entries[j].claimed && t.entries[j].readers <= s.entries[j].readers;
  }

  lemma StepKeepsReaders(s: State, a: Action)
    requires Inv(s) && Enabled(s, a) && Careful(s, a)
    ensures ReaderInv(Do(s, a))
  {
    match a {
      case Begin(_) =>
      case Try(w) =>
        var i := s.workers[w].i;
        if i < |s.entries| && !s.entries[i].claimed {
          MoveKeepsReaders(s, w, Acquired(i), i, s.entries[i].(claimed := true));
        }
      case Start(w, ok) =>
        if ok {
          MoveKeepsReaders(s, w, Connected(s.workers[w].i), s.workers[w].i, s.entries[s.workers[w].i].(readers := 1));
        }
      case Close(w) =>
        var i := s.workers[w].i;
        MoveKeepsReaders(s, w, Closing(i), i, s.entries[i]);
        assert Do(s, a) == Move(s, w, Closing(i), i, s.entries[i]);
      case Join(w, _) => MoveKeepsReaders(s, w, Outside, s.workers[w].i, Entry(false, 0));
      case ReaderEnds(i) => ReaderEndKeepsReaders(s, i);
    }
  }

  ghost predicate CarefulRun(s: State, run: seq<Action>, t: State)
    decreases |run|
  {
    if run == [] then t == s
    else Enabled(s, run[0]) && Careful(s, run[0]) && CarefulRun(Do(s, run[0]), run[1..], t)
  }

  lemma {:induction false} CarefulRunKeepsInv(s: State, run: seq<Action>, t: State)
    requires Inv(s) && CarefulRun(s, run, t)
    ensures Inv(t)
    decreases |run|
  {
    if run != [] {
      StepKeepsOwn(s, run[0]);
      StepKeepsReaders(s, run[0]);
      CarefulRunKeepsInv(Do(s, run[0]), run[1..], t);
    }
  }

  /** Over every run in which join waits for the thread, no two receive threads ever use one entry, and a free
      entry has no thread at all. */
  lemma OneReaderPerEntry(s: State, run: seq<Action>, t: State, i: nat)
    requires Init(s) && CarefulRun(s, run, t) && i < |t.entries|
    ensures t.entries[i].readers <= 1 && (!t.entries[i].claimed ==> t.entries[i].readers == 0)
  {
    CarefulRunKeepsInv(s, run, t);
  }

  /** One step keeps the receive threads in order exactly when it is not a join that lets go of a running one:
      the entry is then free with a thread on it. */
  lemma ReleaseExactly(s: State, a: Action)
    requires Inv(s) && Enabled(s, a)
    ensures ReaderInv(Do(s, a)) <==> Careful(s, a)
  {
    if Careful(s, a) {
      StepKeepsReaders(s, a);
    } else {
      var t, i := Do(s, a), s.workers[a.w].i;
      assert !t.entries[i].claimed && t.entries[i].readers > 0;
    }
  }

  /** At every point of the run. */
  ghost predicate AlwaysInOrder(s: State, run: seq<Action>)
    decreases |run|
  {
    ReaderInv(s) && (run == [] || (Enabled(s, run[0]) && AlwaysInOrder(Do(s, run[0]), run[1..])))
  }

  /** Over every run from the start, every entry has at most one receive thread and every free one none, at
      every point, exactly when no join lets go of a running thread. */
  lemma InOrderExactly(s: State, run: seq<Action>, t: State)
    requires Init(s) && IsRun(s, run, t)
    ensures AlwaysInOrder(s, run) <==> CarefulRun(s, run, t)
  {
    InOrderFrom(s, run, t);
  }

  lemma {:induction false} InOrderFrom(s: State, run: seq<Action>, t: State)
    requires Inv(s) && IsRun(s, run, t)
    ensures AlwaysInOrder(s, run) <==> CarefulRun(s, run, t)
    decreases |run|
  {
    if run != [] {
      var d := Do(s, run[0]);
      StepKeepsOwn(s, run[0]);
      ReleaseExactly(s, run[0]);
      if ReaderInv(d) {
        InOrderFrom(d, run[1..], t);
      }
    }
  }

  lemma OneMore(s: State, a: Action, run: seq<Action>, t: State)
    requires Enabled(s, a) && IsRun(Do(s, a), run, t)
    ensures IsRun(s, [a] + run, t)
  {
    assert ([a] + run)[0] == a && ([a] + run)[1..] == run;
  }

  /** From the start, one join that fails is enough for two receive threads to use one entry. */
  lemma EarlyJoinReached(s: State) returns (run: seq<Action>, t: State)
    requires Init(s) && |s.workers| > 1
    ensures IsRun(s, run, t) && |t.entries| > 0 && t.entries[0].readers == 2
  {
    var s1 := Do(s, Begin(0));
    var s2 := Do(s1, Try(0));
    var s3 := Do(s2, Start(0, true));
    var s4 := Do(s3, Close(0));
    var s5 := Do(s4, Begin(1));
    var s6 := Do(s5, Join(0, false));
    var s7 := Do(s6, Try(1));
    t := Do(s7, Start(1, true));
    run := [];
    OneMore(s7, Start(1, true), run, t);
    run := [Start(1, true)] + run;
    OneMore(s6, Try(1), run, t);
    run := [Try(1)] + run;
    OneMore(s5, Join(0, false), run, t);
    run := [Join(0, false)] + run;
    OneMore(s4, Begin(1), run, t);
    run := [Begin(1)] + run;
    OneMore(s3, Close(0), run, t);
    run := [Close(0)] + run;
    OneMore(s2, Start(0, true), run, t);
    run := [Start(0, true)] + run;
    OneMore(s1, Try(0), run, t);
    run := [Try(0)] + run;
    OneMore(s, Begin(0), run, t);
    run := [Begin(0)] + run;
  }

  // ---- Lost entries

  predicate Held(s: State, i: nat) {
    exists w :: 0 <= w < |s.workers| && Holds(s.workers[w]) && s.workers[w].i == i
  }

  /** An entry that stays claimed with nobody to release it. */
  predicate Lost(s: State, i: nat) {
    i < |s.entries| && s.entries[i].claimed && !Held(s, i)
  }

  predicate FailedStart(a: Action) {
    a.Start? && !a.ok
  }

  lemma FailedStartLoses(s: State, w: nat)
    requires OwnInv(s) && Enabled(s, Start(w, false))
    ensures Lost(Do(s, Start(w, false)), s.workers[w].i)
  {
    var i, t := s.workers[w].i, Do(s, Start(w, false));
    forall v | 0 <= v < |t.workers| && Holds(t.workers[v]) ensures t.workers[v].i != i {
      assert v != w && t.workers[v] == s.workers[v];
    }
  }

  lemma LostStays(s: State, a: Action, i: nat)
    requires OwnInv(s) && Lost(s, i) && Enabled(s, a)
    ensures Lost(Do(s, a), i)
  {
    var t := Do(s, a);
    forall v | 0 <= v < |t.workers| && Holds(t.workers[v]) ensures t.workers[v].i != i {
      assert Holds(s.workers[v]) ==> s.workers[v].i != i;
    }
    assert a.Join? ==> Holds(s.workers[a.w]) && s.workers[a.w].i != i;
  }

  lemma StartedStepKeeps(s: State, a: Action, i: nat)
    requires OwnInv(s) && Enabled(s, a) && !FailedStart(a) && !Lost(s, i)
    ensures !Lost(Do(s, a), i)
  {
    var t := Do(s, a);
    if Held(s, i) {
      var v :| 0 <= v < |s.workers| && Holds(s.workers[v]) && s.workers[v].i == i;
      assert t.workers[v] == s.workers[v] || Holds(t.workers[v]) || (a.Join? && a.w == v);
      assert Holds(t.workers[v]) ==> t.workers[v].i == i;
    } else if a.Try? && s.workers[a.w].i == i {
      assert i < |s.entries| ==> t.workers[a.w] == Acquired(i);
    }
  }

  lemma {:induction false} LostForEver(s: State, run: seq<Action>, t: State, i: nat)
    requires OwnInv(s) && Lost(s, i) && IsRun(s, run, t)
    ensures Lost(t, i)
    decreases |run|
  {
    if run != [] {
      StepKeepsOwn(s, run[0]);
      LostStays(s, run[0], i);
      LostForEver(Do(s, run[0]), run[1..], t, i);
    }
  }

  /** Over every run an entry is lost exactly when some receive thread could not be started, and then for
      good. */
  lemma LostExactly(s: State, run: seq<Action>, t: State)
    requires Init(s) && IsRun(s, run, t)
    ensures (exists i :: Lost(t, i)) <==> exists k :: 0 <= k < |run| && FailedStart(run[k])
  {
    LostFrom(s, run, t);
  }

  lemma {:induction false} LostFrom(s: State, run: seq<Action>, t: State)
    requires OwnInv(s) && IsRun(s, run, t) && forall i :: !Lost(s, i)
    ensures (exists i :: Lost(t, i)) <==> exists k :: 0 <= k < |run| && FailedStart(run[k])
    decreases |run|
  {
    if run != [] {
      var a, d := run[0], Do(s, run[0]);
      StepKeepsOwn(s, a);
      if FailedStart(a) {
        FailedStartLoses(s, a.w);
        LostForEver(d, run[1..], t, s.workers[a.w].i);
      } else {
        forall i: nat ensures !Lost(d, i) {
          StartedStepKeeps(s, a, i);
        }
        LostFrom(d, run[1..], t);
        assert forall k :: 0 < k < |run| ==> run[k] == run[1..][k - 1];
        assert forall k :: 0 <= k < |run| - 1 ==> run[1..][k] == run[k + 1];
      }
    }
  }
}
