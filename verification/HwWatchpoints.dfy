/** Hardware watchpoints: the three-slot table and its debug registers (set_hw_watchpoint,
    clear_hw_watchpoint and the second loop of clear_all in vita-gdb/src/gdb/sessions.rs). The first scan of a
    set compares no address: it stops at the first slot that is taken, whatever that slot watches. */
module HwWatchpoints {
  import opened Words
  import opened SlotTable
  import opened HwBreakpoints
  import E = Events

  const WATCH_SLOTS := 3

  datatype HwWatchpoint = HwWatchpoint(addr: u32, kind: E.WatchKind)

  type WatchTable = seq<Option<HwWatchpoint>>

  datatype WatchUnit = WatchUnit(regs: seq<Register>, table: WatchTable)

  /** The word wp_control builds. */
  function WpControl(kind: E.WatchKind): bv32 {
    var lsc: bv32 := match kind case Read => 1 case Write => 2 case ReadWrite => 3;
    1 | (1 << 1) | (lsc << 3) | (0xF << 5) | (1 << 14)
  }

  function FirstTaken(table: WatchTable): (r: Option<nat>)
    ensures r.Some? ==> r.value < |table| && table[r.value].Some? && forall j :: 0 <= j < r.value ==> table[j] == None
    ensures r.None? ==> forall j :: 0 <= j < |table| ==> table[j] == None
  {
    if table == [] then None
    else if table[0].Some? then Some(0)
    else Later(table, FirstTaken(table[1..]))
  }

  function FindWatch(table: WatchTable, addr: u32): (r: Option<nat>)
    ensures r.Some? ==> r.value < |table| && table[r.value].Some? && table[r.value].value.addr == addr
    ensures r.Some? ==> forall j :: 0 <= j < r.value && table[j].Some? ==> table[j].value.addr != addr
    ensures r.None? ==> forall j :: 0 <= j < |table| && table[j].Some? ==> table[j].value.addr != addr
  {
    if table == [] then None
    else if table[0].Some? && table[0].value.addr == addr then Some(0)
    else Later(table, FindWatch(table[1..], addr))
  }

  /** Only the kind of a slot that is found is updated, not its address. */
  function SetWatch(h: WatchUnit, debug: bool, addr: u32, kind: E.WatchKind, callOk: bool): (WatchUnit, HwResult)
    requires |h.regs| == |h.table|
  {
    if !debug then (h, Ok(false))
    else
      var taken, free := FirstTaken(h.table), FirstFree(h.table);
      if taken.Some? then
        var i := taken.value;
        if h.table[i].value.kind == kind then (h, Ok(true))
        else if !callOk then (h, Err)
        else
          (WatchUnit(h.regs[i := Register(addr, WpControl(kind))],
                 h.table[i := Some(h.table[i].value.(kind := kind))]), Ok(true))
      else if free.None? then (h, Ok(false))
      else if !callOk then (h, Err)
      else
        (WatchUnit(h.regs[free.value := Register(addr, WpControl(kind))],
               h.table[free.value := Some(HwWatchpoint(addr, kind))]), Ok(true))
  }

  function ClearWatch(h: WatchUnit, debug: bool, addr: u32, callOk: bool): (WatchUnit, HwResult)
    requires |h.regs| == |h.table|
  {
    if !debug then (h, Ok(false))
    else
      var found := FindWatch(h.table, addr);
      if found.None? then (h, Ok(false))
      else if !callOk then (h, Err)
      else (WatchUnit(h.regs[found.value := CLEARED], h.table[found.value := None]), Ok(true))
  }

  /** clear_all's loop clears the registers and leaves the slots. */
  function ClearAllWatch(h: WatchUnit, calls: seq<bool>): WatchUnit
    requires |h.regs| == |h.table| == |calls|
  {
    h.(regs := seq(|h.regs|, i requires 0 <= i < |h.regs| =>
      if h.table[i].Some? && calls[i] then CLEARED else h.regs[i]))
  }

  // ---- What holds

  /** Register i watches what slot i says, and nothing when slot i is free. */
  predicate WatchMirrors(h: WatchUnit) {
    && |h.regs| == |h.table| == WATCH_SLOTS
    && forall i :: 0 <= i < |h.table| ==>
         h.regs[i] == if h.table[i].Some? then Register(h.table[i].value.addr, WpControl(h.table[i].value.kind))
                      else CLEARED
  }

  lemma ControlsDiffer(a: E.WatchKind, b: E.WatchKind)
    ensures WpControl(a) == WpControl(b) <==> a == b
    ensures WpControl(a) != 0
  {
  }

  /** A set keeps registers and table together exactly when it does not re-kind the slot of another address. */
  lemma SetWatchKeepsMirrorExactly(h: WatchUnit, debug: bool, addr: u32, kind: E.WatchKind, callOk: bool)
    requires WatchMirrors(h)
    ensures var taken := FirstTaken(h.table);
            !WatchMirrors(SetWatch(h, debug, addr, kind, callOk).0)
            <==> debug && callOk && taken.Some?
                 && h.table[taken.value].value.kind != kind && h.table[taken.value].value.addr != addr
  {
    var t, taken := SetWatch(h, debug, addr, kind, callOk).0, FirstTaken(h.table);
    if t != h && taken.Some? {
      var i := taken.value;
      assert t.regs[i] == Register(addr, WpControl(kind));
      assert t.table[i].Some? && t.table[i].value == HwWatchpoint(h.table[i].value.addr, kind);
    }
  }

  lemma ClearWatchKeepsMirror(h: WatchUnit, debug: bool, addr: u32, callOk: bool)
    requires WatchMirrors(h)
    ensures WatchMirrors(ClearWatch(h, debug, addr, callOk).0)
  {
  }

  predicate Watches(h: WatchUnit, addr: u32, kind: E.WatchKind) {
    exists i :: 0 <= i < |h.regs| && h.regs[i] == Register(addr, WpControl(kind))
  }

  /** The debugger is told that a watchpoint was set although no register watches its address exactly when the
      first slot taken is of the same kind and no slot is for the address. */
  lemma WatchOverclaimsExactly(h: WatchUnit, debug: bool, addr: u32, kind: E.WatchKind, callOk: bool)
    requires WatchMirrors(h)
    ensures var (t, r) := SetWatch(h, debug, addr, kind, callOk);
            r == Ok(true) && !Watches(t, addr, kind)
            <==> debug && FirstTaken(h.table).Some? && h.table[FirstTaken(h.table).value].value.kind == kind
                 && forall i :: 0 <= i < |h.table| ==> h.table[i] != Some(HwWatchpoint(addr, kind))
  {
    var (t, r) := SetWatch(h, debug, addr, kind, callOk);
    var taken, free := FirstTaken(h.table), FirstFree(h.table);
    if t != h {
      var i := if taken.Some? then taken.value else free.value;
      assert t.regs[i] == Register(addr, WpControl(kind));
    }
    forall i | 0 <= i < |h.table|
      ensures h.regs[i] == Register(addr, WpControl(kind)) <==> h.table[i] == Some(HwWatchpoint(addr, kind))
    {
      ControlsDiffer(kind, kind);
      if h.table[i].Some? {
        ControlsDiffer(h.table[i].value.kind, kind);
      }
    }
  }

  datatype WatchOp =
    | SetWatchOp(debug: bool, addr: u32, kind: E.WatchKind, callOk: bool)
    | ClearWatchOp(debug: bool, addr: u32, callOk: bool)
    | ClearAllWatchOp(calls: seq<bool>)

  function ApplyWatch(h: WatchUnit, op: WatchOp): (t: WatchUnit)
    requires |h.regs| == |h.table| == WATCH_SLOTS
    ensures |t.regs| == |t.table| == WATCH_SLOTS
  {
    match op
    case SetWatchOp(debug, addr, kind, callOk) => SetWatch(h, debug, addr, kind, callOk).0
    case ClearWatchOp(debug, addr, callOk) => ClearWatch(h, debug, addr, callOk).0
    case ClearAllWatchOp(calls) => if |calls| == WATCH_SLOTS then ClearAllWatch(h, calls) else h
  }

  function WatchRun(h: WatchUnit, ops: seq<WatchOp>): (t: WatchUnit)
    requires |h.regs| == |h.table| == WATCH_SLOTS
    ensures |t.regs| == |t.table| == WATCH_SLOTS
    decreases |ops|
  {
    if ops == [] then h else WatchRun(ApplyWatch(h, ops[0]), ops[1..])
  }

  /** Of the three slots only the first is ever used, over every run. */
  lemma {:induction false} OnlyFirstSlotUsed(h: WatchUnit, ops: seq<WatchOp>)
    requires |h.regs| == |h.table| == WATCH_SLOTS && h.table[1] == h.table[2] == None
    ensures WatchRun(h, ops).table[1] == WatchRun(h, ops).table[2] == None
    decreases |ops|
  {
    if ops != [] {
      assert FirstTaken(h.table).Some? ==> FirstTaken(h.table).value == 0;
      assert FirstTaken(h.table).None? ==> FirstFree(h.table) == Some(0);
      OnlyFirstSlotUsed(ApplyWatch(h, ops[0]), ops[1..]);
    }
  }

  /** clear_all clears the registers of its successful calls and, unlike for breakpoints, no slot: the two agree
      afterwards exactly when no slot that was taken had its register cleared. */
  lemma ClearAllWatchKeepsMirrorExactly(h: WatchUnit, calls: seq<bool>)
    requires WatchMirrors(h) && |calls| == WATCH_SLOTS
    ensures WatchMirrors(ClearAllWatch(h, calls))
            <==> forall i :: 0 <= i < WATCH_SLOTS && calls[i] ==> h.table[i] == None
    ensures (forall i :: 0 <= i < WATCH_SLOTS ==> calls[i]) ==>
              ClearAllWatch(h, calls).regs == seq(WATCH_SLOTS, _ => CLEARED)
  {
    var t := ClearAllWatch(h, calls);
    forall i | 0 <= i < WATCH_SLOTS && calls[i] && h.table[i].Some?
      ensures t.regs[i] == CLEARED && h.regs[i] != CLEARED && t.table[i] == h.table[i]
    {
      ControlsDiffer(h.table[i].value.kind, E.Read);
    }
  }

  // ---- What each call does, slot by slot

  /** The control word by its fields in DBGWCR (chapter C11 of ARM DDI 0406C): enabled (bit 0), PAC 1 (bits 1 and
      2), loads and stores as the kind says (LSC, bits 3 and 4), four bytes (BAS, bits 5 to 12), SSC 1 (bits 14 and
      15), and nothing else. */
  lemma WatchControlFields(kind: E.WatchKind)
    ensures var c := WpControl(kind);
            && c & 1 == 1 && (c >> 1) & 3 == 1 && (c >> 5) & 0xFF == 0xF && (c >> 14) & 3 == 1 && c & 0xFFFF_2000 == 0
            && ((c >> 3) & 1 == 1 <==> kind == E.Read || kind == E.ReadWrite)
            && ((c >> 4) & 1 == 1 <==> kind == E.Write || kind == E.ReadWrite)
  {
  }

  predicate WatchedBy(h: WatchUnit, i: nat, addr: u32) {
    i < |h.table| && h.table[i].Some? && h.table[i].value.addr == addr
  }

  function WithoutWatch(h: WatchUnit, i: nat): WatchUnit
    requires i < |h.table| == |h.regs|
  {
    WatchUnit(h.regs[i := Register(0, 0)], h.table[i := None])
  }

  /** A clear empties the first slot for the address and clears its register, and nothing else; with none, or
      when its call fails, it changes nothing. */
  lemma ClearWatchExactly(h: WatchUnit, debug: bool, addr: u32, callOk: bool)
    requires |h.regs| == |h.table| == WATCH_SLOTS
    ensures var (t, r) := ClearWatch(h, debug, addr, callOk);
            var some := exists i: nat :: WatchedBy(h, i, addr);
            && (r == Ok(true) <==> debug && callOk && some)
            && (r == Err <==> debug && !callOk && some)
            && (r != Ok(true) ==> t == h)
            && (r == Ok(true) ==>
                  exists i: nat :: WatchedBy(h, i, addr) && t == WithoutWatch(h, i))
  {
    var found := FindWatch(h.table, addr);
    if found.Some? {
      assert WatchedBy(h, found.value, addr);
    }
  }

  /** With no watchpoint set, a set takes the first slot and its register for the address and kind, if its call
      succeeds. */
  lemma FirstWatchExactly(h: WatchUnit, addr: u32, kind: E.WatchKind, callOk: bool)
    requires |h.regs| == |h.table| == WATCH_SLOTS && forall i :: 0 <= i < WATCH_SLOTS ==> h.table[i] == None
    ensures SetWatch(h, true, addr, kind, callOk)
            == if callOk then
                 (WatchUnit(h.regs[0 := Register(addr, WpControl(kind))],
                            h.table[0 := Some(HwWatchpoint(addr, kind))]), Ok(true))
               else (h, Err)
    ensures SetWatch(h, false, addr, kind, callOk) == (h, Ok(false))
  {
    assert FirstTaken(h.table) == None && FirstFree(h.table) == Some(0);
  }

  lemma ClearWatchUndoesSet(h: WatchUnit, addr: u32, kind: E.WatchKind)
    requires WatchMirrors(h) && forall i :: 0 <= i < WATCH_SLOTS ==> h.table[i] == None
    ensures ClearWatch(SetWatch(h, true, addr, kind, true).0, true, addr, true) == (h, Ok(true))
  {
    FirstWatchExactly(h, addr, kind, true);
    var t := SetWatch(h, true, addr, kind, true).0;
    assert t.table[0].Some?;
    assert FindWatch(t.table, addr) == Some(0);
    assert t.regs[0 := CLEARED] == h.regs && t.table[0 := None] == h.table;
  }
}
