/** A completed single step leaves no trace: two runs of one session, with and without the step, end with
    the same memory and the same breakpoints (vita-gdb/src/gdb/multi_thread.rs, vita-gdb/src/gdb/handlers.rs,
    vita-gdb/src/gdb/sessions.rs). */
module Stepping {
  import opened Words
  import opened Events
  import opened SlotTable
  import opened SwBreakpoints
  import opened SwOverlay
  import opened Session

  // ---- The table as a map from addresses

  predicate DistinctAddrs(table: Table) {
    forall i, j :: 0 <= i < j < |table| && table[i].Some? && table[j].Some? ==>
      table[i].value.addr != table[j].value.addr
  }

  function Addrs(table: Table): set<int> {
    set i | 0 <= i < |table| && table[i].Some? :: table[i].value.addr
  }

  /** Which breakpoints are set, whatever slots they are in. */
  function Slots(table: Table): map<int, SwBreakpoint> {
    map a | a in Addrs(table) :: table[Find(table, a).value].value
  }

  lemma FindInSlots(table: Table, addr: int)
    ensures Find(table, addr).Some? <==> addr in Slots(table)
    ensures addr in Slots(table) ==> table[Find(table, addr).value].value == Slots(table)[addr]
  {
  }

  lemma SlotAt(table: Table, i: nat)
    requires DistinctAddrs(table) && i < |table| && table[i].Some?
    ensures Find(table, table[i].value.addr) == Some(i)
  {
  }

  lemma AddrsFilled(table: Table, i: nat, b: SwBreakpoint)
    requires i < |table| && table[i] == None
    ensures Addrs(table[i := Some(b)]) == Addrs(table) + {b.addr}
  {
    var t := table[i := Some(b)];
    assert t[i].Some?;
    forall j | 0 <= j < |table| && table[j].Some? ensures table[j].value.addr in Addrs(t) {
      assert t[j] == table[j];
    }
  }

  lemma AddrsEmptied(table: Table, i: nat)
    requires DistinctAddrs(table) && i < |table| && table[i].Some?
    ensures Addrs(table[i := None]) == Addrs(table) - {table[i].value.addr}
  {
    var t := table[i := None];
    forall j | 0 <= j < |table| && table[j].Some? && j != i ensures table[j].value.addr in Addrs(t) {
      assert t[j] == table[j];
    }
  }

  lemma SlotsFilled(table: Table, i: nat, b: SwBreakpoint)
    requires DistinctAddrs(table) && i < |table| && table[i] == None && b.addr !in Slots(table)
    ensures DistinctAddrs(table[i := Some(b)])
    ensures Slots(table[i := Some(b)]) == Slots(table)[b.addr := b]
  {
    var t := table[i := Some(b)];
    assert forall j :: 0 <= j < |table| && table[j].Some? ==> table[j].value.addr in Addrs(table);
    AddrsFilled(table, i, b);
    var l, r := Slots(t), Slots(table)[b.addr := b];
    forall a | a in l ensures a in r && l[a] == r[a] {
      var j := Find(t, a).value;
      if j == i {
        assert a == b.addr;
      } else {
        SlotAt(table, j);
        assert a in Slots(table) && Slots(table)[a] == table[j].value;
      }
    }
    assert l.Keys == r.Keys;
  }

  lemma SlotsEmptied(table: Table, i: nat)
    requires DistinctAddrs(table) && i < |table| && table[i].Some?
    ensures DistinctAddrs(table[i := None])
    ensures Slots(table[i := None]) == Slots(table) - {table[i].value.addr}
  {
    var t := table[i := None];
    AddrsEmptied(table, i);
    forall a | a in Slots(t) ensures Slots(t)[a] == Slots(table)[a] {
      SlotAt(table, Find(t, a).value);
    }
  }

  function Occupied(table: Table): nat {
    if table == [] then 0 else Occupied(table[..|table| - 1]) + if table[|table| - 1].Some? then 1 else 0
  }

  lemma AddrsOfFront(table: Table)
    requires DistinctAddrs(table) && table != []
    ensures var last := table[|table| - 1];
            Addrs(table) == Addrs(table[..|table| - 1]) + (if last.Some? then {last.value.addr} else {})
    ensures var last := table[|table| - 1];
            last.Some? ==> last.value.addr !in Addrs(table[..|table| - 1])
  {
    var n := |table| - 1;
    var front := table[..n];
    forall j | 0 <= j < n && front[j].Some? ensures front[j].value.addr in Addrs(table) {
      assert front[j] == table[j];
    }
    forall j | 0 <= j < n && table[j].Some? ensures table[j].value.addr in Addrs(front) {
      assert front[j] == table[j];
    }
  }

  lemma {:induction false} CountSlots(table: Table)
    requires DistinctAddrs(table)
    ensures |Addrs(table)| == Occupied(table) <= |table|
    ensures Occupied(table) == |table| <==> forall j :: 0 <= j < |table| ==> table[j].Some?
    decreases |table|
  {
    if table != [] {
      var front := table[..|table| - 1];
      assert forall j :: 0 <= j < |front| ==> front[j] == table[j];
      CountSlots(front);
      AddrsOfFront(table);
    }
  }

  /** The smaller of two tables has a free slot when the larger has. */
  lemma RoomInSmaller(large: Table, small: Table, addr: int)
    requires DistinctAddrs(large) && DistinctAddrs(small) && |large| == |small|
    requires Addrs(large) == Addrs(small) + {addr} && FirstFree(large).Some?
    ensures FirstFree(small).Some?
  {
    CountSlots(large);
    CountSlots(small);
    assert Addrs(large) == if addr in Addrs(small) then Addrs(small) else Addrs(small) + {addr};
  }

  // ---- The two runs

  /** What may happen between the start of a step and its break. */
  datatype Between =
    | User(op: Op)
    | OtherBreak(addr: u32, tid: int, thumb: bool, io: Io)
    | ReportStep

  function Happens(s: Sess, e: Between): Sess
    requires Formed(s.w.table)
  {
    match e
    case User(op) => s.(w := Apply(s.w, op))
    case OtherBreak(addr, tid, thumb, io) => HandleBreak(s, addr, tid, thumb, io).0
    case ReportStep => PopStepFinished(s).0
  }

  /** The event keeps off the n bytes at addr. */
  predicate Beside(e: Between, addr: int, n: nat) {
    match e
    case User(Set(a, kind, _)) => a + PatchLen(kind) <= addr || addr + n <= a
    case User(Clear(a, _)) => a != addr
    case User(Write(a, bytes)) => a + |bytes| <= addr || addr + n <= a
    case OtherBreak(a, _, _, _) => a != addr
    case ReportStep => true
  }

  predicate TableShape(table: Table) {
    |table| == SLOTS && Formed(table) && DistinctAddrs(table)
  }

  predicate TablePlanted(w: Table, v: Table, b: SwBreakpoint) {
    && TableShape(w) && TableShape(v)
    && b.addr !in Slots(v) && Slots(w) == Slots(v)[b.addr := b]
    && RangeFree(v, b.addr, b.patchLen)
  }

  predicate MemoryPlanted(w: Memory, v: Memory, b: SwBreakpoint) {
    && SlotFormed(b) && Shows(v, b.addr, b.orig[..b.patchLen])
    && w == WriteBytes(v, b.addr, Patch(b.patchLen))
  }

  /** With b planted for the step: `w` is the run with the step and `v` the run without it. */
  predicate Planted(w: World, v: World, b: SwBreakpoint) {
    TablePlanted(w.table, v.table, b) && MemoryPlanted(w.mem, v.mem, b)
  }

  lemma WritesCommute(mem: Memory, a1: int, b1: seq<byte>, a2: int, b2: seq<byte>)
    requires a1 + |b1| <= a2 || a2 + |b2| <= a1
    ensures WriteBytes(WriteBytes(mem, a1, b1), a2, b2) == WriteBytes(WriteBytes(mem, a2, b2), a1, b1)
  {
  }

  lemma WriteBackRestores(mem: Memory, addr: int, orig: seq<byte>, patch: seq<byte>)
    requires |orig| == |patch| && Shows(mem, addr, orig)
    ensures WriteBytes(WriteBytes(mem, addr, patch), addr, orig) == mem
  {
  }

  lemma SameKeys(v: Memory, addr: int, bytes: seq<byte>)
    ensures WriteBytes(v, addr, bytes).Keys == v.Keys
    ensures forall a, n :: Mapped(WriteBytes(v, addr, bytes), a, n) <==> Mapped(v, a, n)
  {
    var w := WriteBytes(v, addr, bytes);
    assert forall a :: a in w <==> a in v;
  }

  lemma ShapeUpdated(table: Table, i: nat, slot: Option<SwBreakpoint>, addr: int, n: nat)
    requires |table| == SLOTS && Formed(table) && RangeFree(table, addr, n) && i < |table|
    requires slot.Some? ==> SlotFormed(slot.value) && Apart(slot.value, addr, n)
    ensures |table[i := slot]| == SLOTS && Formed(table[i := slot]) && RangeFree(table[i := slot], addr, n)
  {
  }

  lemma FillBoth(w: Table, v: Table, b: SwBreakpoint, i: nat, j: nat, slot: SwBreakpoint)
    requires TablePlanted(w, v, b) && i < |w| && w[i] == None && j < |v| && v[j] == None
    requires SlotFormed(slot) && slot.addr !in Slots(w) && Apart(slot, b.addr, b.patchLen)
    ensures TablePlanted(w[i := Some(slot)], v[j := Some(slot)], b)
  {
    var m := Slots(v);
    assert slot.addr != b.addr && slot.addr !in m;
    SlotsFilled(w, i, slot);
    SlotsFilled(v, j, slot);
    ShapeUpdated(v, j, Some(slot), b.addr, b.patchLen);
    ShapeUpdated(w, i, Some(slot), 0, 0);
    UpdatesCommute(m, b.addr, b, slot.addr, slot);
  }

  lemma EmptyBoth(w: Table, v: Table, b: SwBreakpoint, i: nat, j: nat)
    requires TablePlanted(w, v, b) && i < |w| && w[i].Some? && j < |v| && v[j].Some?
    requires w[i].value.addr == v[j].value.addr != b.addr
    ensures TablePlanted(w[i := None], v[j := None], b)
  {
    var m, a := Slots(v), v[j].value.addr;
    SlotsEmptied(w, i);
    SlotsEmptied(v, j);
    ShapeUpdated(v, j, None, b.addr, b.patchLen);
    ShapeUpdated(w, i, None, 0, 0);
    UpdateApart(m, b.addr, b, a);
  }

  lemma UpdatesCommute<K, V>(m: map<K, V>, k: K, v: V, a: K, u: V)
    requires a != k
    ensures m[k := v][a := u] == m[a := u][k := v]
  {
  }

  lemma RemoveUpdated<K, V>(m: map<K, V>, k: K, v: V)
    ensures m[k := v] - {k} == m - {k}
  {
  }

  lemma RemovesNothing<K, V>(m: map<K, V>, k: K)
    ensures m - {k} == m <==> k !in m
  {
    assert k !in m - {k};
  }

  lemma UpdateApart<K, V>(m: map<K, V>, k: K, v: V, a: K)
    requires a != k
    ensures m[k := v] - {a} == (m - {a})[k := v]
  {
  }

  lemma RoomWithout(w: Table, v: Table, b: SwBreakpoint)
    requires TablePlanted(w, v, b) && FirstFree(w).Some?
    ensures FirstFree(v).Some?
  {
    assert Addrs(w) == Slots(w).Keys && Addrs(v) == Slots(v).Keys;
    RoomInSmaller(w, v, b.addr);
  }

  lemma WriteBoth(w: Memory, v: Memory, b: SwBreakpoint, at: int, bytes: seq<byte>)
    requires MemoryPlanted(w, v, b) && (at + |bytes| <= b.addr || b.addr + b.patchLen <= at)
    ensures MemoryPlanted(WriteBytes(w, at, bytes), WriteBytes(v, at, bytes), b)
  {
    WritesCommute(v, b.addr, Patch(b.patchLen), at, bytes);
  }

  lemma SameSlot(w: Memory, v: Memory, b: SwBreakpoint, addr: u32, kind: Kind)
    requires MemoryPlanted(w, v, b) && (addr + PatchLen(kind) <= b.addr || b.addr + b.patchLen <= addr)
    ensures Mapped(w, addr, PatchLen(kind)) <==> Mapped(v, addr, PatchLen(kind))
    ensures Mapped(v, addr, PatchLen(kind)) ==> NewSlot(w, addr, kind) == NewSlot(v, addr, kind)
  {
    SameKeys(v, b.addr, Patch(b.patchLen));
    var n := PatchLen(kind);
    if Mapped(v, addr, n) {
      forall k | 0 <= k < n ensures BytesAt(w, addr, n)[k] == BytesAt(v, addr, n)[k] {
        WrittenAt(v, b.addr, Patch(b.patchLen), addr + k);
      }
      assert BytesAt(w, addr, n) == BytesAt(v, addr, n);
    }
  }

  lemma SetBeside(w: World, v: World, b: SwBreakpoint, addr: u32, kind: Kind, io: Io)
    requires Planted(w, v, b) && (addr + PatchLen(kind) <= b.addr || b.addr + b.patchLen <= addr)
    requires FirstFree(w.table).Some?
    ensures Planted(SetSw(w, addr, kind, io).0, SetSw(v, addr, kind, io).0, b)
    ensures SetSw(w, addr, kind, io).1 == SetSw(v, addr, kind, io).1
  {
    SameSlot(w.mem, v.mem, b, addr, kind);
    FindInSlots(w.table, addr);
    FindInSlots(v.table, addr);
    RoomWithout(w.table, v.table, b);
    if SetSw(w, addr, kind, io).0 != w {
      var slot := NewSlot(v.mem, addr, kind);
      FillBoth(w.table, v.table, b, FirstFree(w.table).value, FirstFree(v.table).value, slot);
      WriteBoth(w.mem, v.mem, b, addr, Patch(PatchLen(kind)));
    }
  }

  lemma ClearBeside(w: World, v: World, b: SwBreakpoint, addr: u32, writeOk: bool)
    requires Planted(w, v, b) && addr != b.addr
    ensures Planted(ClearSw(w, addr, writeOk).0, ClearSw(v, addr, writeOk).0, b)
    ensures ClearSw(w, addr, writeOk).1 == ClearSw(v, addr, writeOk).1
  {
    SameKeys(v.mem, b.addr, Patch(b.patchLen));
    FindInSlots(w.table, addr);
    FindInSlots(v.table, addr);
    if Find(v.table, addr).Some? {
      var i, j := Find(w.table, addr).value, Find(v.table, addr).value;
      var slot := v.table[j].value;
      assert w.table[i].value == slot && SlotFormed(slot) && Apart(slot, b.addr, b.patchLen);
      EmptyBoth(w.table, v.table, b, i, j);
      WriteBoth(w.mem, v.mem, b, addr, slot.orig[..slot.patchLen]);
    }
  }

  lemma PokeBeside(w: World, v: World, b: SwBreakpoint, at: int, bytes: seq<byte>)
    requires Planted(w, v, b) && (at + |bytes| <= b.addr || b.addr + b.patchLen <= at)
    ensures Planted(w.(mem := Poke(w.mem, at, bytes)), v.(mem := Poke(v.mem, at, bytes)), b)
  {
    SameKeys(v.mem, b.addr, Patch(b.patchLen));
    WriteBoth(w.mem, v.mem, b, at, bytes);
  }

  // ---- What one operation does to the map

  lemma SetSlots(w: World, addr: u32, kind: Kind, io: Io)
    requires TableShape(w.table)
    ensures var t := SetSw(w, addr, kind, io).0;
            TableShape(t.table)
            && (t == w || (addr !in Slots(w.table) && Mapped(w.mem, addr, PatchLen(kind))
                           && Slots(t.table) == Slots(w.table)[addr := NewSlot(w.mem, addr, kind)]))
  {
    FindInSlots(w.table, addr);
    if SetSw(w, addr, kind, io).0 != w {
      var slot, i := NewSlot(w.mem, addr, kind), FirstFree(w.table).value;
      SlotsFilled(w.table, i, slot);
      ShapeUpdated(w.table, i, Some(slot), 0, 0);
    }
  }

  lemma ClearSlots(w: World, addr: u32, writeOk: bool)
    requires TableShape(w.table)
    ensures var t := ClearSw(w, addr, writeOk).0;
            TableShape(t.table) && Slots(t.table) == Slots(w.table) - {addr}
  {
    FindInSlots(w.table, addr);
    if Find(w.table, addr).Some? {
      var i := Find(w.table, addr).value;
      SlotsEmptied(w.table, i);
      ShapeUpdated(w.table, i, None, 0, 0);
    }
  }

  lemma BreakElsewhere(s: Sess, addr: u32, tid: int, thumb: bool, io: Io)
    requires Formed(s.w.table) && !IsStep(s, addr)
    ensures var t := HandleBreak(s, addr, tid, thumb, io).0;
            t.w == s.w && t.step == s.step && t.stepResult == s.stepResult
  {
  }

  lemma BreakAtStep(s: Sess, addr: u32, tid: int, thumb: bool, io: Io)
    requires Formed(s.w.table) && IsStep(s, addr) && io.readOk && Mapped(s.w.mem, addr, 4)
    ensures HandleBreak(s, addr, tid, thumb, io) == (StepFinished(s, io.writeOk), true)
  {
  }

  // ---- Sessions

  /** `p` is the run with the step and `q` the run without it; b is the temporary breakpoint, if planting it
      succeeded. */
  predicate Related(p: Sess, q: Sess, tid: int, addr: u32, n: nat, b: Option<SwBreakpoint>) {
    && p.step == Some((tid, addr)) && q.step == None && n > 0
    && TableShape(q.w.table) && addr !in Slots(q.w.table) && RangeFree(q.w.table, addr, n)
    && match b
       case None => p.w == q.w
       case Some(slot) => slot.addr == addr && slot.patchLen == n && Planted(p.w, q.w, slot)
  }

  lemma StepStarts(s: Sess, tid: int, addr: u32, thumb: bool, io: Io) returns (b: Option<SwBreakpoint>)
    requires s.step == None && TableShape(s.w.table) && addr !in Slots(s.w.table)
    requires RangeFree(s.w.table, addr, if thumb then 2 else 4)
    ensures Related(BeginStep(s, tid, addr, thumb, io), s, tid, addr, if thumb then 2 else 4, b)
  {
    var kind := if thumb then Thumb16 else Arm32;
    FindInSlots(s.w.table, addr);
    if SetSw(s.w, addr, kind, io).0 == s.w {
      b := None;
    } else {
      var slot, i := NewSlot(s.w.mem, addr, kind), FirstFree(s.w.table).value;
      b := Some(slot);
      SlotsFilled(s.w.table, i, slot);
      ShapeUpdated(s.w.table, i, b, 0, 0);
      assert slot.orig[..slot.patchLen] == BytesAt(s.w.mem, addr, slot.patchLen);
    }
  }

  lemma SameWorldBeside(q: Sess, e: Between, addr: u32, n: nat)
    requires q.step == None && n > 0 && Beside(e, addr, n)
    requires TableShape(q.w.table) && addr !in Slots(q.w.table) && RangeFree(q.w.table, addr, n)
    ensures var t := Happens(q, e);
            t.step == None && TableShape(t.w.table) && addr !in Slots(t.w.table) && RangeFree(t.w.table, addr, n)
  {
    match e {
      case User(Set(a, kind, io)) =>
        FindInSlots(q.w.table, a);
        if SetSw(q.w, a, kind, io).0 != q.w {
          var slot, i := NewSlot(q.w.mem, a, kind), FirstFree(q.w.table).value;
          SlotsFilled(q.w.table, i, slot);
          ShapeUpdated(q.w.table, i, Some(slot), addr, n);
        }
      case User(Clear(a, _)) =>
        if Find(q.w.table, a).Some? {
          SlotsEmptied(q.w.table, Find(q.w.table, a).value);
          ShapeUpdated(q.w.table, Find(q.w.table, a).value, None, addr, n);
        }
      case _ =>
    }
  }

  lemma EventKeepsRelated(p: Sess, q: Sess, e: Between, tid: int, addr: u32, n: nat, b: Option<SwBreakpoint>)
    requires Related(p, q, tid, addr, n, b) && Formed(p.w.table) && Beside(e, addr, n)
    requires e.User? && e.op.Set? ==> FirstFree(p.w.table).Some?
    ensures Related(Happens(p, e), Happens(q, e), tid, addr, n, b)
  {
    SameWorldBeside(q, e, addr, n);
    match e {
      case User(op) =>
        if b.Some? {
          ApplyBeside(p.w, q.w, b.value, op);
        }
      case OtherBreak(a, t, thumb, io) =>
        BreakElsewhere(p, a, t, thumb, io);
        BreakElsewhere(q, a, t, thumb, io);
      case ReportStep =>
    }
  }

  lemma ApplyBeside(w: World, v: World, b: SwBreakpoint, op: Op)
    requires Planted(w, v, b) && Beside(User(op), b.addr, b.patchLen)
    requires op.Set? ==> FirstFree(w.table).Some?
    ensures Planted(Apply(w, op), Apply(v, op), b)
  {
    match op {
      case Set(a, kind, io) => SetBeside(w, v, b, a, kind, io);
      case Clear(a, writeOk) => ClearBeside(w, v, b, a, writeOk);
      case Write(at, bytes) => PokeBeside(w, v, b, at, bytes);
    }
  }

  /** The events of the stepping run keep off the step's n bytes, and its table has room for each set. */
  ghost predicate Meanwhile(p: Sess, events: seq<Between>, addr: int, n: nat)
    decreases |events|
  {
    events == [] ||
    (Formed(p.w.table) && Beside(events[0], addr, n)
     && (events[0].User? && events[0].op.Set? ==> FirstFree(p.w.table).Some?)
     && Meanwhile(Happens(p, events[0]), events[1..], addr, n))
  }

  /** `t` is where the events lead from `s`. */
  ghost predicate Leads(s: Sess, events: seq<Between>, t: Sess)
    decreases |events|
  {
    if events == [] then t == s else Formed(s.w.table) && Leads(Happens(s, events[0]), events[1..], t)
  }

  lemma {:induction false} EventsKeepRelated(
    p: Sess, q: Sess, events: seq<Between>, p': Sess, q': Sess, tid: int, addr: u32, n: nat, b: Option<SwBreakpoint>)
    requires Related(p, q, tid, addr, n, b) && Meanwhile(p, events, addr, n)
    requires Leads(p, events, p') && Leads(q, events, q')
    ensures Related(p', q', tid, addr, n, b)
    decreases |events|
  {
    if events != [] {
      EventKeepsRelated(p, q, events[0], tid, addr, n, b);
      EventsKeepRelated(Happens(p, events[0]), Happens(q, events[0]), events[1..], p', q', tid, addr, n, b);
    }
  }

  /** Clearing the temporary breakpoint gives back the run without it. */
  lemma ClearEndsStep(w: World, v: World, b: SwBreakpoint)
    requires Planted(w, v, b)
    ensures var r := ClearSw(w, b.addr, true).0; r.mem == v.mem && Slots(r.table) == Slots(v.table)
  {
    FindInSlots(w.table, b.addr);
    ClearSlots(w, b.addr, true);
    SameKeys(v.mem, b.addr, Patch(b.patchLen));
    WriteBackRestores(v.mem, b.addr, b.orig[..b.patchLen], Patch(b.patchLen));
    RemoveUpdated(Slots(v.table), b.addr, b);
    RemovesNothing(Slots(v.table), b.addr);
  }

  lemma BreakEnds(
    p: Sess, q: Sess, tid: int, addr: u32, n: nat, b: Option<SwBreakpoint>, breaker: int, thumb: bool, io: Io)
    requires Related(p, q, tid, addr, n, b) && Formed(p.w.table)
    requires io.readOk && io.writeOk && Mapped(p.w.mem, addr, 4)
    ensures var (r, handled) := HandleBreak(p, addr, breaker, thumb, io);
            handled && r.step == None && r.stepResult == Some(tid)
            && r.w.mem == q.w.mem && Slots(r.w.table) == Slots(q.w.table)
  {
    BreakAtStep(p, addr, breaker, thumb, io);
    if b.Some? {
      ClearEndsStep(p.w, q.w, b.value);
    } else {
      FindInSlots(q.w.table, addr);
    }
  }

  /** After the break at the step's target, by whichever thread, memory and breakpoints are those of the run
      without the step, whatever else was set, cleared and written beside it meanwhile; and the stepping
      thread is reported exactly once. The temporary breakpoint need not even have been planted. */
  lemma StepLeavesNoTrace(
    s: Sess, tid: int, addr: u32, thumb: bool, io: Io, events: seq<Between>, p: Sess, q: Sess, breaker: int, at: Io)
    requires s.step == None && TableShape(s.w.table) && addr !in Slots(s.w.table)
    requires RangeFree(s.w.table, addr, if thumb then 2 else 4)
    requires Meanwhile(BeginStep(s, tid, addr, thumb, io), events, addr, if thumb then 2 else 4)
    requires Leads(BeginStep(s, tid, addr, thumb, io), events, p) && Leads(s, events, q)
    requires at.readOk && at.writeOk && Mapped(p.w.mem, addr, 4) && Formed(p.w.table)
    ensures var (r, handled) := HandleBreak(p, addr, breaker, thumb, at);
            handled && r.w.mem == q.w.mem && Slots(r.w.table) == Slots(q.w.table) && r.step == q.step
    ensures var (r1, first) := PopStepFinished(HandleBreak(p, addr, breaker, thumb, at).0);
            first == Some(tid) && PopStepFinished(r1).1 == None
  {
    var n := if thumb then 2 else 4;
    var b := StepStarts(s, tid, addr, thumb, io);
    EventsKeepRelated(BeginStep(s, tid, addr, thumb, io), s, events, p, q, tid, addr, n, b);
    BreakEnds(p, q, tid, addr, n, b, breaker, thumb, at);
  }

  /** A step straight to its break keeps the set of breakpoints exactly when its target had none: otherwise
      the user's own breakpoint is the one that is removed. */
  lemma StepTraceExactly(s: Sess, tid: int, addr: u32, thumb: bool, io: Io, breaker: int, at: Io)
    requires TableShape(s.w.table) && at.readOk && Mapped(BeginStep(s, tid, addr, thumb, io).w.mem, addr, 4)
    ensures Formed(BeginStep(s, tid, addr, thumb, io).w.table)
    ensures var r := HandleBreak(BeginStep(s, tid, addr, thumb, io), addr, breaker, thumb, at).0;
            Slots(r.w.table) == Slots(s.w.table) <==> addr !in Slots(s.w.table)
  {
    var p := BeginStep(s, tid, addr, thumb, io);
    SetSlots(s.w, addr, if thumb then Thumb16 else Arm32, io);
    BreakAtStep(p, addr, breaker, thumb, at);
    ClearSlots(p.w, addr, at.writeOk);
    if p.w != s.w {
      RemoveUpdated(Slots(s.w.table), addr, NewSlot(s.w.mem, addr, if thumb then Thumb16 else Arm32));
    }
    RemovesNothing(Slots(s.w.table), addr);
  }

  /** A second step started before the first has ended replaces the record. After the break at its target the
      first temporary breakpoint is still planted exactly when the targets differ; its own break is then
      reported as an ordinary one and leaves it there. */
  lemma SecondStepStrandsFirst(
    s: Sess, t1: int, a1: u32, thumb1: bool, io1: Io, t2: int, a2: u32, thumb2: bool, io2: Io,
    state1: bool, state2: bool, at: Io)
    requires TableShape(s.w.table) && at.readOk && a1 in Slots(BeginStep(s, t1, a1, thumb1, io1).w.table)
    requires var q := BeginStep(BeginStep(s, t1, a1, thumb1, io1), t2, a2, thumb2, io2);
             Formed(q.w.table) && Mapped(q.w.mem, a2, 4)
    ensures var q := BeginStep(BeginStep(s, t1, a1, thumb1, io1), t2, a2, thumb2, io2);
            var r := HandleBreak(q, a2, t2, state2, at).0;
            && r.step == None && r.stepResult == Some(t2) && Formed(r.w.table)
            && (a1 in Slots(r.w.table) <==> a1 != a2)
            && HandleBreak(r, a1, t1, state1, at).0.w == r.w
  {
    SetSlots(s.w, a1, if thumb1 then Thumb16 else Arm32, io1);
    var p := BeginStep(s, t1, a1, thumb1, io1);
    var q := BeginStep(p, t2, a2, thumb2, io2);
    SetSlots(p.w, a2, if thumb2 then Thumb16 else Arm32, io2);
    BreakEndsStep(q, a2, t2, t2, state2, at);
    BreakElsewhere(HandleBreak(q, a2, t2, state2, at).0, a1, t1, state1, at);
  }

  lemma BreakEndsStep(q: Sess, addr: u32, tid: int, breaker: int, thumb: bool, at: Io)
    requires TableShape(q.w.table) && q.step == Some((tid, addr)) && at.readOk && Mapped(q.w.mem, addr, 4)
    ensures var r := HandleBreak(q, addr, breaker, thumb, at).0;
            r.step == None && r.stepResult == Some(tid) && TableShape(r.w.table)
            && Slots(r.w.table) == Slots(q.w.table) - {addr}
  {
    BreakAtStep(q, addr, breaker, thumb, at);
    ClearSlots(q.w, addr, at.writeOk);
  }
}
