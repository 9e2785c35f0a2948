/** The slot table and the process memory agree over every run, and clearing restores the memory
    (vita-gdb/src/gdb/sessions.rs). */
module SwOverlay {
  import opened Words
  import opened SlotTable
  import opened SwBreakpoints

  // ---- One byte at a time

  lemma WrittenAt(mem: Memory, addr: int, bytes: seq<byte>, a: int)
    requires a in mem
    ensures WriteBytes(mem, addr, bytes)[a] == if addr <= a < addr + |bytes| then bytes[a - addr] else mem[a]
  {
  }

  lemma OverlaidAt(clean: Memory, table: Table, a: int)
    requires Formed(table) && a in clean
    ensures Overlay(clean, table)[a] == OverlayByte(table, a, clean[a])
  {
  }

  predicate CoveredBy(table: Table, i: nat, a: int) {
    i < |table| && table[i].Some? && Covers(table[i].value, a)
  }

  /** With disjoint slots it does not matter which slot is found first. */
  lemma OverlayWhere(table: Table, i: nat, a: int, under: byte)
    requires Formed(table) && Disjoint(table) && CoveredBy(table, i, a)
    ensures OverlayByte(table, a, under) == Patch(table[i].value.patchLen)[a - table[i].value.addr]
  {
    assert Cover(table, a).value == i;
  }

  lemma OverlayNowhere(table: Table, a: int, under: byte)
    requires Formed(table) && forall j :: !CoveredBy(table, j, a)
    ensures OverlayByte(table, a, under) == under
  {
    var c := Cover(table, a);
    assert c.Some? ==> CoveredBy(table, c.value, a);
  }

  /** Two tables that differ in a slot covering `a` in neither show the same byte there. */
  lemma OverlaySame(s: Table, t: Table, i: nat, a: int, under: byte)
    requires Formed(s) && Formed(t) && Disjoint(s) && Disjoint(t)
    requires i < |s| == |t| && forall j :: 0 <= j < |s| && j != i ==> s[j] == t[j]
    requires !CoveredBy(s, i, a) && !CoveredBy(t, i, a)
    ensures OverlayByte(s, a, under) == OverlayByte(t, a, under)
  {
    var c := Cover(s, a);
    if c.Some? {
      OverlayWhere(s, c.value, a, under);
      OverlayWhere(t, c.value, a, under);
    } else {
      OverlayNowhere(s, a, under);
      OverlayNowhere(t, a, under);
    }
  }

  // ---- Filling and emptying one slot

  lemma FilledTable(clean: Memory, table: Table, i: nat, b: SwBreakpoint)
    requires Formed(table) && Disjoint(table) && SavesOriginals(clean, table) && i < |table| && table[i] == None
    requires SlotFormed(b) && SlotSaves(clean, b)
    ensures var t := table[i := Some(b)];
            Formed(t) && SavesOriginals(clean, t) && (Disjoint(t) <==> RangeFree(table, b.addr, b.patchLen))
  {
    var t := table[i := Some(b)];
    assert forall j :: 0 <= j < |t| && j != i ==> t[j] == table[j];
    if Disjoint(t) {
      forall j | 0 <= j < |table| && table[j].Some? ensures Apart(table[j].value, b.addr, b.patchLen) {
        assert t[j].Some? && t[i].Some?;
      }
    }
  }

  lemma EmptiedTable(clean: Memory, table: Table, i: nat)
    requires Formed(table) && Disjoint(table) && SavesOriginals(clean, table) && i < |table|
    ensures Formed(table[i := None]) && Disjoint(table[i := None]) && SavesOriginals(clean, table[i := None])
  {
    var t := table[i := None];
    assert forall j :: 0 <= j < |t| && t[j].Some? ==> t[j] == table[j];
  }

  lemma FilledByte(clean: Memory, table: Table, i: nat, b: SwBreakpoint, a: int)
    requires Formed(table) && Disjoint(table) && i < |table| && table[i] == None && SlotFormed(b)
    requires Formed(table[i := Some(b)]) && Disjoint(table[i := Some(b)]) && a in clean
    ensures Overlay(clean, table[i := Some(b)])[a]
            == WriteBytes(Overlay(clean, table), b.addr, Patch(b.patchLen))[a]
  {
    var t := table[i := Some(b)];
    WrittenAt(Overlay(clean, table), b.addr, Patch(b.patchLen), a);
    OverlaidAt(clean, table, a);
    OverlaidAt(clean, t, a);
    if Covers(b, a) {
      OverlayWhere(t, i, a, clean[a]);
    } else {
      OverlaySame(table, t, i, a, clean[a]);
    }
  }

  lemma FilledMemory(clean: Memory, table: Table, i: nat, b: SwBreakpoint)
    requires Formed(table) && Disjoint(table) && i < |table| && table[i] == None && SlotFormed(b)
    requires Formed(table[i := Some(b)]) && Disjoint(table[i := Some(b)])
    ensures Overlay(clean, table[i := Some(b)]) == WriteBytes(Overlay(clean, table), b.addr, Patch(b.patchLen))
  {
    var l := Overlay(clean, table[i := Some(b)]);
    var r := WriteBytes(Overlay(clean, table), b.addr, Patch(b.patchLen));
    forall a | a in clean ensures l[a] == r[a] {
      FilledByte(clean, table, i, b, a);
    }
    assert l.Keys == clean.Keys == r.Keys;
  }

  lemma EmptiedByte(clean: Memory, table: Table, i: nat, a: int)
    requires Formed(table) && Disjoint(table) && SavesOriginals(clean, table) && i < |table| && table[i].Some?
    requires Formed(table[i := None]) && Disjoint(table[i := None]) && a in clean
    ensures var b := table[i].value;
            Overlay(clean, table[i := None])[a]
            == WriteBytes(Overlay(clean, table), b.addr, b.orig[..b.patchLen])[a]
  {
    var b, t := table[i].value, table[i := None];
    WrittenAt(Overlay(clean, table), b.addr, b.orig[..b.patchLen], a);
    OverlaidAt(clean, table, a);
    OverlaidAt(clean, t, a);
    if Covers(b, a) {
      assert SlotSaves(clean, b);
      OnlyCover(table, t, i, a);
      OverlayNowhere(t, a, clean[a]);
    } else {
      OverlaySame(table, t, i, a, clean[a]);
    }
  }

  lemma OnlyCover(table: Table, t: Table, i: nat, a: int)
    requires Formed(table) && Disjoint(table) && CoveredBy(table, i, a) && t == table[i := None]
    ensures forall j :: !CoveredBy(t, j, a)
  {
    forall j: nat ensures !CoveredBy(t, j, a) {
      assert CoveredBy(t, j, a) ==> j != i && CoveredBy(table, j, a);
    }
  }

  lemma EmptiedMemory(clean: Memory, table: Table, i: nat)
    requires Formed(table) && Disjoint(table) && SavesOriginals(clean, table) && i < |table| && table[i].Some?
    requires Formed(table[i := None]) && Disjoint(table[i := None])
    ensures var b := table[i].value;
            Overlay(clean, table[i := None]) == WriteBytes(Overlay(clean, table), b.addr, b.orig[..b.patchLen])
  {
    var b := table[i].value;
    var l := Overlay(clean, table[i := None]);
    var r := WriteBytes(Overlay(clean, table), b.addr, b.orig[..b.patchLen]);
    forall a | a in clean ensures l[a] == r[a] {
      EmptiedByte(clean, table, i, a);
    }
    assert l.Keys == clean.Keys == r.Keys;
  }

  // ---- One operation

  /** What stops a set: a shared address, bytes that cannot be read, a breakpoint that is there already, a full
      table, or a failed write. */
  predicate Refuses(w: World, addr: u32, kind: Kind, io: Io) {
    || IsSharedAddress(addr) || !io.readOk || !Mapped(w.mem, addr, PatchLen(kind))
    || HasAddress(w.table, addr) || (forall i :: 0 <= i < |w.table| ==> w.table[i].Some?) || !io.writeOk
  }

  predicate HasAddress(table: Table, addr: int) {
    exists i :: 0 <= i < |table| && table[i].Some? && table[i].value.addr == addr
  }

  lemma RefusedExactly(w: World, addr: u32, kind: Kind, io: Io)
    ensures SetSw(w, addr, kind, io).0 == w <==> Refuses(w, addr, kind, io)
  {
    var found, free := Find(w.table, addr), FirstFree(w.table);
    assert HasAddress(w.table, addr) <==> found.Some?;
    var t := SetSw(w, addr, kind, io).0;
    if !Refuses(w, addr, kind, io) {
      assert t.table[free.value].Some? && w.table[free.value] == None;
    }
  }

  predicate HasFree(table: Table) {
    exists i :: 0 <= i < |table| && table[i] == None
  }

  /** A set answers true exactly when the address is outside the shared region, whose addresses have the top
      digit 0xE, its bytes are there to be read, and it has a breakpoint already or gets one. Afterwards it
      has one. */
  lemma SetAnswersExactly(w: World, addr: u32, kind: Kind, io: Io)
    ensures var (t, ok) := SetSw(w, addr, kind, io);
            && (ok <==> addr / 0x1000_0000 != 0xE && io.readOk && Mapped(w.mem, addr, PatchLen(kind))
                        && (HasAddress(w.table, addr) || (HasFree(w.table) && io.writeOk)))
            && (ok ==> HasAddress(t.table, addr))
  {
    var found, free := Find(w.table, addr), FirstFree(w.table);
    assert HasAddress(w.table, addr) <==> found.Some?;
    assert HasFree(w.table) <==> free.Some?;
    var (t, ok) := SetSw(w, addr, kind, io);
    if ok && found.None? {
      assert t.table[free.value] == Some(NewSlot(w.mem, addr, kind));
    }
  }

  /** A set keeps the agreement exactly when something stops it, or no other breakpoint lies in its range. */
  lemma SetKeepsOverlay(w: World, clean: Memory, addr: u32, kind: Kind, io: Io)
    requires Overlaid(w, clean)
    ensures Overlaid(SetSw(w, addr, kind, io).0, clean)
            <==> Refuses(w, addr, kind, io) || RangeFree(w.table, addr, PatchLen(kind))
  {
    var t := SetSw(w, addr, kind, io).0;
    RefusedExactly(w, addr, kind, io);
    if t != w {
      var i, b := FirstFree(w.table).value, NewSlot(w.mem, addr, kind);
      if RangeFree(w.table, addr, PatchLen(kind)) {
        NewSlotSaves(w, clean, addr, kind);
        FilledTable(clean, w.table, i, b);
        FilledMemory(clean, w.table, i, b);
      } else {
        FilledOverlaps(w.table, i, b);
      }
    }
  }

  lemma FilledOverlaps(table: Table, i: nat, b: SwBreakpoint)
    requires i < |table| && table[i] == None && !RangeFree(table, b.addr, b.patchLen)
    ensures !Disjoint(table[i := Some(b)])
  {
    var t := table[i := Some(b)];
    var j :| 0 <= j < |table| && table[j].Some? && !Apart(table[j].value, b.addr, b.patchLen);
    assert t[j] == table[j] && t[i] == Some(b);
  }

  /** Where no breakpoint lies, memory is the unpatched memory. */
  lemma UncoveredByte(w: World, clean: Memory, a: int)
    requires Overlaid(w, clean) && a in w.mem && RangeFree(w.table, a, 1)
    ensures a in clean && w.mem[a] == clean[a]
  {
    OverlaidAt(clean, w.table, a);
    assert forall j {:trigger CoveredBy(w.table, j, a)} :: !CoveredBy(w.table, j, a);
    OverlayNowhere(w.table, a, clean[a]);
  }

  lemma NewSlotSaves(w: World, clean: Memory, addr: u32, kind: Kind)
    requires Overlaid(w, clean) && Mapped(w.mem, addr, PatchLen(kind)) && RangeFree(w.table, addr, PatchLen(kind))
    ensures SlotFormed(NewSlot(w.mem, addr, kind)) && SlotSaves(clean, NewSlot(w.mem, addr, kind))
  {
    var orig := BytesAt(w.mem, addr, PatchLen(kind));
    UncoveredRange(w, clean, addr, orig);
    assert NewSlot(w.mem, addr, kind).orig[..|orig|] == orig;
  }

  lemma UncoveredRange(w: World, clean: Memory, addr: int, bytes: seq<byte>)
    requires Overlaid(w, clean) && RangeFree(w.table, addr, |bytes|) && Shows(w.mem, addr, bytes)
    ensures Shows(clean, addr, bytes)
  {
    forall a | addr <= a < addr + |bytes| ensures a in clean && clean[a] == bytes[a - addr] {
      FreeInside(w.table, addr, |bytes|, a);
      UncoveredByte(w, clean, a);
    }
  }

  lemma FreeInside(table: Table, addr: int, n: nat, a: int)
    requires RangeFree(table, addr, n) && addr <= a < addr + n
    ensures RangeFree(table, a, 1)
  {
  }

  /** A write changes nothing exactly when it writes what is there. */
  lemma WriteChangesNothing(mem: Memory, addr: int, bytes: seq<byte>)
    requires Mapped(mem, addr, |bytes|)
    ensures WriteBytes(mem, addr, bytes) == mem <==> Shows(mem, addr, bytes)
  {
    var t := WriteBytes(mem, addr, bytes);
    forall a | a in mem ensures a in t && t[a] == if addr <= a < addr + |bytes| then bytes[a - addr] else mem[a] {
      WrittenAt(mem, addr, bytes, a);
    }
    assert t.Keys == mem.Keys;
  }

  lemma SlotShowsPatch(w: World, clean: Memory, i: nat)
    requires Overlaid(w, clean) && i < |w.table| && w.table[i].Some?
    ensures Shows(w.mem, w.table[i].value.addr, Patch(w.table[i].value.patchLen))
  {
    var b := w.table[i].value;
    assert SlotFormed(b) && SlotSaves(clean, b);
    forall a | b.addr <= a < b.addr + b.patchLen
      ensures a in w.mem && w.mem[a] == Patch(b.patchLen)[a - b.addr]
    {
      OverlayWhere(w.table, i, a, clean[a]);
      OverlaidAt(clean, w.table, a);
    }
  }

  lemma ShowsOnly(mem: Memory, addr: int, s: seq<byte>, t: seq<byte>)
    requires |s| == |t| && Shows(mem, addr, s)
    ensures Shows(mem, addr, t) <==> s == t
  {
    if Shows(mem, addr, t) {
      forall k | 0 <= k < |s| ensures s[k] == t[k] {
        assert mem[addr + k] == s[addr + k - addr] == t[addr + k - addr];
      }
    }
  }

  /** Emptying slot i keeps the agreement exactly when the write back succeeds, or had nothing to undo. */
  lemma RestoreKeepsOverlay(w: World, clean: Memory, i: nat, writeOk: bool)
    requires Overlaid(w, clean) && i < |w.table| && w.table[i].Some?
    ensures var b := w.table[i].value;
            var (t, ok) := RestoreSlot(w, i, writeOk);
            ok == writeOk && (Overlaid(t, clean) <==> ok || b.orig[..b.patchLen] == Patch(b.patchLen))
  {
    var b := w.table[i].value;
    EmptiedTable(clean, w.table, i);
    EmptiedMemory(clean, w.table, i);
    SlotShowsPatch(w, clean, i);
    WriteChangesNothing(w.mem, b.addr, b.orig[..b.patchLen]);
    ShowsOnly(w.mem, b.addr, Patch(b.patchLen), b.orig[..b.patchLen]);
  }

  /** Every byte written over a breakpoint is the byte already there, in memory and underneath. */
  predicate Harmless(w: World, clean: Memory, addr: int, bytes: seq<byte>) {
    Mapped(w.mem, addr, |bytes|) ==>
      forall a :: addr <= a < addr + |bytes| && Cover(w.table, a).Some? ==>
        a in clean && bytes[a - addr] == w.mem[a] == clean[a]
  }

  lemma PokedByte(w: World, clean: Memory, addr: int, bytes: seq<byte>, a: int)
    requires Overlaid(w, clean) && Mapped(w.mem, addr, |bytes|) && a in clean
    ensures Overlay(Poke(clean, addr, bytes), w.table)[a] == Poke(w.mem, addr, bytes)[a]
            <==> !(addr <= a < addr + |bytes| && Cover(w.table, a).Some?) || bytes[a - addr] == w.mem[a]
  {
    assert Mapped(clean, addr, |bytes|) by {
      assert forall x :: x in w.mem <==> x in clean;
    }
    WrittenAt(w.mem, addr, bytes, a);
    WrittenAt(clean, addr, bytes, a);
    OverlaidAt(clean, w.table, a);
    OverlaidAt(Poke(clean, addr, bytes), w.table, a);
    var c := Cover(w.table, a);
    if c.Some? {
      OverlayWhere(w.table, c.value, a, clean[a]);
      OverlayWhere(w.table, c.value, a, Poke(clean, addr, bytes)[a]);
    }
  }

  lemma PokedSlot(clean: Memory, b: SwBreakpoint, addr: int, bytes: seq<byte>)
    requires SlotSaves(clean, b) && Mapped(clean, addr, |bytes|)
    ensures SlotSaves(Poke(clean, addr, bytes), b)
            <==> forall a :: addr <= a < addr + |bytes| && Covers(b, a) ==> bytes[a - addr] == clean[a]
  {
    var t, orig := Poke(clean, addr, bytes), b.orig[..b.patchLen];
    forall a | a in clean ensures a in t && t[a] == if addr <= a < addr + |bytes| then bytes[a - addr] else clean[a] {
      WrittenAt(clean, addr, bytes, a);
    }
    if SlotSaves(t, b) {
      forall a | addr <= a < addr + |bytes| && Covers(b, a) ensures a in clean && bytes[a - addr] == clean[a] {
        assert t[a] == orig[a - b.addr] == clean[a];
      }
    }
  }

  lemma PokedMemory(w: World, clean: Memory, addr: int, bytes: seq<byte>)
    requires Overlaid(w, clean) && Mapped(w.mem, addr, |bytes|)
    ensures Poke(w.mem, addr, bytes) == Overlay(Poke(clean, addr, bytes), w.table)
            <==> forall a :: addr <= a < addr + |bytes| && Cover(w.table, a).Some? ==> bytes[a - addr] == w.mem[a]
  {
    var l, r := Poke(w.mem, addr, bytes), Overlay(Poke(clean, addr, bytes), w.table);
    forall a | a in clean
      ensures r[a] == l[a] <==> !(addr <= a < addr + |bytes| && Cover(w.table, a).Some?) || bytes[a - addr] == w.mem[a]
    {
      PokedByte(w, clean, addr, bytes, a);
    }
    assert l.Keys == clean.Keys == r.Keys;
    if l == r {
      forall a | addr <= a < addr + |bytes| && Cover(w.table, a).Some? ensures bytes[a - addr] == w.mem[a] {
        assert a in w.mem && a in clean && l[a] == r[a];
      }
    }
  }

  lemma PokedSlots(w: World, clean: Memory, addr: int, bytes: seq<byte>)
    requires SavesOriginals(clean, w.table) && Mapped(clean, addr, |bytes|)
    ensures SavesOriginals(Poke(clean, addr, bytes), w.table)
            <==> forall a :: addr <= a < addr + |bytes| && Cover(w.table, a).Some? ==> bytes[a - addr] == clean[a]
  {
    var c := Poke(clean, addr, bytes);
    forall i | 0 <= i < |w.table| && w.table[i].Some?
      ensures SlotSaves(c, w.table[i].value)
              <==> forall a :: addr <= a < addr + |bytes| && Covers(w.table[i].value, a) ==> bytes[a - addr] == clean[a]
    {
      PokedSlot(clean, w.table[i].value, addr, bytes);
    }
    if SavesOriginals(c, w.table) {
      forall a | addr <= a < addr + |bytes| && Cover(w.table, a).Some? ensures bytes[a - addr] == clean[a] {
        assert SlotSaves(c, w.table[Cover(w.table, a).value].value);
      }
    }
  }

  /** A write keeps the agreement exactly when it is harmless. */
  lemma PokeKeepsOverlay(w: World, clean: Memory, addr: int, bytes: seq<byte>)
    requires Overlaid(w, clean)
    ensures Overlaid(w.(mem := Poke(w.mem, addr, bytes)), Poke(clean, addr, bytes)) <==> Harmless(w, clean, addr, bytes)
  {
    assert w.mem.Keys == clean.Keys;
    assert Mapped(w.mem, addr, |bytes|) <==> Mapped(clean, addr, |bytes|) by {
      assert forall x :: x in w.mem <==> x in clean;
    }
    if Mapped(w.mem, addr, |bytes|) {
      PokedMemory(w, clean, addr, bytes);
      PokedSlots(w, clean, addr, bytes);
    }
  }

  // ---- Runs

  datatype Op =
    | Set(addr: u32, kind: Kind, io: Io)
    | Clear(addr: u32, writeOk: bool)
    | Write(at: int, bytes: seq<byte>)

  function Apply(w: World, op: Op): (t: World)
    requires Formed(w.table)
    ensures Formed(t.table) && |t.table| == |w.table|
  {
    match op
    case Set(addr, kind, io) => SetSw(w, addr, kind, io).0
    case Clear(addr, writeOk) => ClearSw(w, addr, writeOk).0
    case Write(at, bytes) => w.(mem := Poke(w.mem, at, bytes))
  }

  /** What the same operation does to a memory without breakpoints. */
  function Unpatched(clean: Memory, op: Op): Memory {
    if op.Write? then Poke(clean, op.at, op.bytes) else clean
  }

  /** A set is stopped or plants beside the other breakpoints, a clear writes back or has nothing to undo,
      a write keeps off the breakpoints or changes nothing there. */
  predicate Keeps(w: World, clean: Memory, op: Op)
    requires Formed(w.table)
  {
    match op
    case Set(addr, kind, io) => Refuses(w, addr, kind, io) || RangeFree(w.table, addr, PatchLen(kind))
    case Clear(addr, writeOk) =>
      var found := Find(w.table, addr);
      found.None? || writeOk ||
      (var b := w.table[found.value].value; b.orig[..b.patchLen] == Patch(b.patchLen))
    case Write(at, bytes) => Harmless(w, clean, at, bytes)
  }

  /** One operation keeps memory equal to the overlay exactly under the condition Keeps. */
  lemma StepKeepsOverlay(w: World, clean: Memory, op: Op)
    requires Overlaid(w, clean)
    ensures Overlaid(Apply(w, op), Unpatched(clean, op)) <==> Keeps(w, clean, op)
  {
    match op {
      case Set(addr, kind, io) => SetKeepsOverlay(w, clean, addr, kind, io);
      case Clear(addr, writeOk) =>
        if Find(w.table, addr).Some? {
          RestoreKeepsOverlay(w, clean, Find(w.table, addr).value, writeOk);
        }
      case Write(at, bytes) => PokeKeepsOverlay(w, clean, at, bytes);
    }
  }

  // ---- Runs

  /** The world and the unpatched memory after the operations. */
  function Run(w: World, clean: Memory, ops: seq<Op>): (r: (World, Memory))
    requires Formed(w.table)
    ensures Formed(r.0.table) && |r.0.table| == |w.table|
    decreases |ops|
  {
    if ops == [] then (w, clean) else Run(Apply(w, ops[0]), Unpatched(clean, ops[0]), ops[1..])
  }

  /** Memory is the overlay at every point of the run. */
  ghost predicate AlwaysOverlaid(w: World, clean: Memory, ops: seq<Op>)
    decreases |ops|
  {
    Overlaid(w, clean) && (ops == [] || AlwaysOverlaid(Apply(w, ops[0]), Unpatched(clean, ops[0]), ops[1..]))
  }

  datatype Range = Range(addr: int, n: nat)

  predicate Asunder(r: Range, addr: int, n: nat) {
    r.addr + r.n <= addr || addr + n <= r.addr
  }

  ghost predicate EqualOrDisjoint(ranges: iset<Range>) {
    forall p, q :: p in ranges && q in ranges ==> p == q || Asunder(p, q.addr, q.n)
  }

  /** The operation by itself: a set of one of the ranges, a clear whose write succeeds, a write away from all
      of them. */
  ghost predicate KeepsTo(op: Op, ranges: iset<Range>) {
    match op
    case Set(addr, kind, _) => Range(addr, PatchLen(kind)) in ranges
    case Clear(_, writeOk) => writeOk
    case Write(at, bytes) => forall r :: r in ranges ==> Asunder(r, at, |bytes|)
  }

  ghost predicate SlotsIn(table: Table, ranges: iset<Range>) {
    forall i :: 0 <= i < |table| && table[i].Some? ==> Range(table[i].value.addr, table[i].value.patchLen) in ranges
  }

  lemma RangedOpKeeps(w: World, clean: Memory, op: Op, ranges: iset<Range>)
    requires Overlaid(w, clean) && EqualOrDisjoint(ranges) && SlotsIn(w.table, ranges) && KeepsTo(op, ranges)
    ensures Keeps(w, clean, op) && SlotsIn(Apply(w, op).table, ranges)
  {
    match op {
      case Set(addr, kind, io) =>
        RefusedExactly(w, addr, kind, io);
        if !Refuses(w, addr, kind, io) {
          RangeIsFree(w.table, ranges, addr, PatchLen(kind));
        }
      case Clear(_, _) =>
      case Write(at, bytes) =>
        forall i | 0 <= i < |w.table| && w.table[i].Some? ensures Apart(w.table[i].value, at, |bytes|) {
          assert Asunder(Range(w.table[i].value.addr, w.table[i].value.patchLen), at, |bytes|);
        }
    }
  }

  lemma RangeIsFree(table: Table, ranges: iset<Range>, addr: int, n: nat)
    requires EqualOrDisjoint(ranges) && SlotsIn(table, ranges) && Range(addr, n) in ranges && !HasAddress(table, addr)
    ensures RangeFree(table, addr, n)
  {
    forall i | 0 <= i < |table| && table[i].Some? ensures Apart(table[i].value, addr, n) {
      var r := Range(table[i].value.addr, table[i].value.patchLen);
      assert r == Range(addr, n) || Asunder(r, addr, n);
    }
  }

  /** Over every run of operations whose ranges are pairwise equal or disjoint, memory is at every point the
      unpatched memory overlaid with BKPT bytes at exactly the occupied slots. */
  lemma {:induction false} RunKeepsOverlay(w: World, clean: Memory, ops: seq<Op>, ranges: iset<Range>)
    requires Overlaid(w, clean) && EqualOrDisjoint(ranges) && SlotsIn(w.table, ranges)
    requires forall k :: 0 <= k < |ops| ==> KeepsTo(ops[k], ranges)
    ensures AlwaysOverlaid(w, clean, ops)
    ensures Overlaid(Run(w, clean, ops).0, Run(w, clean, ops).1)
    decreases |ops|
  {
    if ops != [] {
      RangedOpKeeps(w, clean, ops[0], ranges);
      StepKeepsOverlay(w, clean, ops[0]);
      RunKeepsOverlay(Apply(w, ops[0]), Unpatched(clean, ops[0]), ops[1..], ranges);
    }
  }

  /** From the start, with an empty table: after any such run clear_all puts back what the same writes make of
      a memory that was never patched. */
  lemma RunThenClearAllRestores(mem: Memory, ops: seq<Op>, ranges: iset<Range>, writes: seq<bool>)
    requires EqualOrDisjoint(ranges) && forall k :: 0 <= k < |ops| ==> KeepsTo(ops[k], ranges)
    requires |writes| == SLOTS && forall k :: 0 <= k < SLOTS ==> writes[k]
    ensures var empty := World(mem, seq(SLOTS, _ => None));
            var (t, clean) := Run(empty, mem, ops);
            ClearFrom(t, 0, writes) == World(clean, empty.table)
  {
    var empty := World(mem, seq(SLOTS, _ => None));
    EmptyIsOverlaid(mem);
    RunKeepsOverlay(empty, mem, ops, ranges);
    var (t, clean) := Run(empty, mem, ops);
    ClearAllRestores(t, clean, writes);
    assert ClearFrom(t, 0, writes).table == empty.table;
  }

  lemma EmptyIsOverlaid(mem: Memory)
    ensures Overlaid(World(mem, seq(SLOTS, _ => None)), mem)
  {
    var table: Table := seq(SLOTS, _ => None);
    OverlayIsClean(Overlay(mem, table), table, mem);
  }

  // ---- Setting twice, setting and clearing

  /** Setting an address that has a breakpoint changes nothing: the BKPT bytes are never saved as original. */
  lemma SetAgainKeepsSlot(w: World, clean: Memory, addr: u32, kind: Kind, io: Io)
    requires Overlaid(w, clean) && Find(w.table, addr).Some?
    ensures SetSw(w, addr, kind, io).0 == w
    ensures var b := w.table[Find(w.table, addr).value].value;
            Shows(clean, addr, b.orig[..b.patchLen])
  {
    assert SlotSaves(clean, w.table[Find(w.table, addr).value].value);
  }

  /** A clear undoes a set: the whole memory and the whole table come back. */
  lemma ClearUndoesSet(w: World, clean: Memory, addr: u32, kind: Kind, io: Io)
    requires Overlaid(w, clean) && Find(w.table, addr).None? && RangeFree(w.table, addr, PatchLen(kind))
    requires SetSw(w, addr, kind, io).1
    ensures Formed(SetSw(w, addr, kind, io).0.table)
    ensures ClearSw(SetSw(w, addr, kind, io).0, addr, true) == (w, true)
  {
    SetKeepsOverlay(w, clean, addr, kind, io);
    var i := SetPlants(w, addr, kind, io);
    ClearFindsSlot(w, SetSw(w, addr, kind, io).0, clean, addr, i);
  }

  /** A clear answers true exactly when the address has a breakpoint and its bytes go back. Either way the
      address has none afterwards, and every other breakpoint stays. */
  lemma ClearAnswersExactly(w: World, clean: Memory, addr: u32, writeOk: bool)
    requires Overlaid(w, clean)
    ensures var (t, ok) := ClearSw(w, addr, writeOk);
            && (ok <==> HasAddress(w.table, addr) && writeOk)
            && |t.table| == |w.table| && !HasAddress(t.table, addr)
            && (forall j :: 0 <= j < |w.table| && w.table[j].Some? && w.table[j].value.addr != addr ==>
                 t.table[j] == w.table[j])
            && (ok || !HasAddress(w.table, addr) ==> Overlaid(t, clean))
  {
    var found := Find(w.table, addr);
    assert HasAddress(w.table, addr) <==> found.Some?;
    if found.Some? {
      var i := found.value;
      SlotIsMapped(w, clean, i);
      RestoreKeepsOverlay(w, clean, i, writeOk);
      assert forall j :: 0 <= j < |w.table| && j != i && w.table[j].Some? ==> w.table[j].value.addr != addr;
    }
  }

  lemma SlotIsMapped(w: World, clean: Memory, i: nat)
    requires Overlaid(w, clean) && i < |w.table| && w.table[i].Some?
    ensures Mapped(w.mem, w.table[i].value.addr, w.table[i].value.patchLen)
  {
    SlotShowsPatch(w, clean, i);
  }

  lemma SetPlants(w: World, addr: u32, kind: Kind, io: Io) returns (i: nat)
    requires Find(w.table, addr).None? && SetSw(w, addr, kind, io).1
    ensures i < |w.table| && w.table[i] == None && Mapped(w.mem, addr, PatchLen(kind))
    ensures SetSw(w, addr, kind, io).0.table == w.table[i := Some(NewSlot(w.mem, addr, kind))]
  {
    i := FirstFree(w.table).value;
  }

  lemma ClearFindsSlot(w: World, t: World, clean: Memory, addr: u32, i: nat)
    requires Overlaid(w, clean) && Overlaid(t, clean) && Find(w.table, addr).None?
    requires i < |w.table| == |t.table| && w.table[i] == None && t.table[i].Some? && t.table[i].value.addr == addr
    requires t.table == w.table[i := t.table[i]]
    ensures ClearSw(t, addr, true) == (w, true)
  {
    FoundWhereSet(w.table, t.table, addr, i);
    assert t.table[i := None] == w.table;
    RestoreUndoes(w, t, clean, i);
  }

  /** Two worlds over the same unpatched memory differ only by a breakpoint that one of them has. */
  lemma RestoreUndoes(w: World, t: World, clean: Memory, i: nat)
    requires Overlaid(w, clean) && Overlaid(t, clean)
    requires i < |t.table| && t.table[i].Some? && t.table[i := None] == w.table
    ensures RestoreSlot(t, i, true) == (w, true)
  {
    RestoreKeepsOverlay(t, clean, i, true);
    SameTable(RestoreSlot(t, i, true).0, w, clean);
  }

  lemma SameTable(v: World, w: World, clean: Memory)
    requires Overlaid(v, clean) && Overlaid(w, clean) && v.table == w.table
    ensures v == w
  {
  }

  lemma FoundWhereSet(table: Table, filled: Table, addr: u32, i: nat)
    requires Find(table, addr).None? && i < |table| == |filled|
    requires filled[i].Some? && filled[i].value.addr == addr
    requires forall j :: 0 <= j < |table| && j != i ==> filled[j] == table[j]
    ensures Find(filled, addr) == Some(i)
  {
    assert Find(filled, addr).Some?;
  }

  // ---- Clearing everything

  /** The slots left in memory when restoring slot k from i on has outcome writes[k]. */
  function Kept(table: Table, i: nat, writes: seq<bool>): Table
    requires |writes| == |table|
  {
    seq(|table|, k requires 0 <= k < |table| => if i <= k && writes[k] then None else table[k])
  }

  lemma {:induction false} ClearFromLeaves(w: World, shadow: Table, clean: Memory, i: nat, writes: seq<bool>)
    requires Overlaid(World(w.mem, shadow), clean) && Formed(w.table)
    requires i <= |w.table| == |shadow| == |writes|
    requires forall k :: 0 <= k < |shadow| ==> w.table[k] == if k < i then None else shadow[k]
    ensures forall k :: 0 <= k < |shadow| ==> ClearFrom(w, i, writes).table[k] == None
    ensures Overlaid(World(ClearFrom(w, i, writes).mem, Kept(shadow, i, writes)), clean)
    decreases |shadow| - i
  {
    if i == |shadow| {
      assert Kept(shadow, i, writes) == shadow;
    } else if w.table[i].None? {
      assert Kept(shadow, i, writes) == Kept(shadow, i + 1, writes);
      ClearFromLeaves(w, shadow, clean, i + 1, writes);
    } else {
      var t := RestoreSlot(w, i, writes[i]).0;
      var left := if writes[i] then shadow[i := None] else shadow;
      RestoreKeepsOverlay(World(w.mem, shadow), clean, i, true);
      SlotShowsPatch(World(w.mem, shadow), clean, i);
      assert Kept(shadow, i, writes) == Kept(left, i + 1, writes);
      ClearFromLeaves(t, left, clean, i + 1, writes);
    }
  }

  /** clear_all empties the table, and restores the unpatched memory exactly when every slot whose write
      fails had nothing to undo. */
  lemma ClearAllRestores(w: World, clean: Memory, writes: seq<bool>)
    requires Overlaid(w, clean) && |writes| == |w.table|
    ensures forall k :: 0 <= k < |w.table| ==> ClearFrom(w, 0, writes).table[k] == None
    ensures ClearFrom(w, 0, writes).mem == clean
            <==> forall k :: 0 <= k < |w.table| && w.table[k].Some? ==>
              writes[k] || w.table[k].value.orig[..w.table[k].value.patchLen] == Patch(w.table[k].value.patchLen)
  {
    var r, kept := ClearFrom(w, 0, writes), Kept(w.table, 0, writes);
    ClearFromLeaves(w, w.table, clean, 0, writes);
    OverlayIsClean(r.mem, kept, clean);
    assert forall k :: 0 <= k < |w.table| ==> kept[k] == if writes[k] then None else w.table[k];
  }

  lemma OverlayIsClean(mem: Memory, table: Table, clean: Memory)
    requires Overlaid(World(mem, table), clean)
    ensures mem == clean <==> forall k :: 0 <= k < |table| && table[k].Some? ==>
      table[k].value.orig[..table[k].value.patchLen] == Patch(table[k].value.patchLen)
  {
    forall k | 0 <= k < |table| && table[k].Some?
      ensures Shows(mem, table[k].value.addr, Patch(table[k].value.patchLen))
      ensures Shows(clean, table[k].value.addr, table[k].value.orig[..table[k].value.patchLen])
      ensures Shows(clean, table[k].value.addr, Patch(table[k].value.patchLen))
              <==> table[k].value.orig[..table[k].value.patchLen] == Patch(table[k].value.patchLen)
    {
      var b := table[k].value;
      SlotShowsPatch(World(mem, table), clean, k);
      assert SlotSaves(clean, b) && SlotFormed(b);
      ShowsOnly(clean, b.addr, b.orig[..b.patchLen], Patch(b.patchLen));
    }
    if forall k :: 0 <= k < |table| && table[k].Some? ==>
        table[k].value.orig[..table[k].value.patchLen] == Patch(table[k].value.patchLen) {
      forall a | a in clean ensures mem[a] == clean[a] {
        OverlaidAt(clean, table, a);
        var c := Cover(table, a);
        if c.Some? {
          OverlayWhere(table, c.value, a, clean[a]);
        }
      }
      assert mem.Keys == clean.Keys;
    }
  }

  /** clear_all empties every slot whether or not its bytes could be written back. */
  lemma {:induction false} ClearAllEmpties(w: World, i: nat, writes: seq<bool>)
    requires Formed(w.table) && i <= |w.table| == |writes| && forall k :: 0 <= k < i ==> w.table[k] == None
    ensures forall k :: 0 <= k < |w.table| ==> ClearFrom(w, i, writes).table[k] == None
    decreases |w.table| - i
  {
    if i < |w.table| {
      ClearAllEmpties(if w.table[i].Some? then RestoreSlot(w, i, writes[i]).0 else w, i + 1, writes);
    }
  }

  /** A second clear_all writes no memory, whatever the process has made of it meanwhile. */
  lemma {:induction false} SecondClearAllWritesNothing(w: World, i: nat, writes: seq<bool>)
    requires Formed(w.table) && i <= |w.table| == |writes| && forall k :: 0 <= k < |w.table| ==> w.table[k] == None
    ensures ClearFrom(w, i, writes) == w
    decreases |w.table| - i
  {
    if i < |w.table| {
      SecondClearAllWritesNothing(w, i + 1, writes);
    }
  }
}
