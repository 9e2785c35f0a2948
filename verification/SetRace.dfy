/** set_sw_breakpoint step by step: the original bytes are read before the table is locked and the patch is
    written after it is unlocked (vita-gdb/src/gdb/sessions.rs:300-356), so that step_finished, on a callback,
    can clear a breakpoint in between. */
module SetRace {
  import opened Words
  import opened SlotTable
  import opened SwBreakpoints
  import opened SwOverlay
  import St = Stepping

  /** Before the lock. */
  function Originals(w: World, addr: u32, kind: Kind): seq<byte>
    requires Mapped(w.mem, addr, PatchLen(kind))
  {
    BytesAt(w.mem, addr, PatchLen(kind))
  }

  function SlotFor(addr: u32, kind: Kind, orig: seq<byte>): SwBreakpoint {
    SwBreakpoint(addr, if kind == Thumb16 then orig + [0, 0] else orig, PatchLen(kind))
  }

  /** Under the lock: the world, and the slot claimed. */
  function Claim(w: World, addr: u32, kind: Kind, orig: seq<byte>): (World, Option<nat>) {
    var free := FirstFree(w.table);
    if Find(w.table, addr).Some? || free.None? then (w, None)
    else (w.(table := w.table[free.value := Some(SlotFor(addr, kind, orig))]), free)
  }

  /** After the lock: the write of the patch. */
  function Plant(w: World, addr: u32, kind: Kind, claimed: Option<nat>, writeOk: bool): World
    requires claimed.Some? ==> claimed.value < |w.table|
  {
    if claimed.None? then w
    else if writeOk then w.(mem := WriteBytes(w.mem, addr, Patch(PatchLen(kind))))
    else w.(table := w.table[claimed.value := None])
  }

  /** Nothing that stops a set before its lock. */
  predicate Reads(w: World, addr: u32, kind: Kind) {
    !IsSharedAddress(addr) && Mapped(w.mem, addr, PatchLen(kind))
  }

  /** With nobody in between the three parts are one set. */
  lemma PartsAreSet(w: World, addr: u32, kind: Kind, writeOk: bool)
    requires Reads(w, addr, kind)
    ensures var (v, claimed) := Claim(w, addr, kind, Originals(w, addr, kind));
            Plant(v, addr, kind, claimed, writeOk) == SetSw(w, addr, kind, Io(true, writeOk)).0
  {
    var (v, claimed) := Claim(w, addr, kind, Originals(w, addr, kind));
    if claimed.Some? {
      assert v.table[claimed.value := None] == w.table;
    }
  }

  /** A clear of `a` between the read and the lock. */
  function ClearedBeforeLock(w: World, addr: u32, kind: Kind, a: u32): World
    requires Reads(w, addr, kind) && Formed(w.table)
  {
    var (v, claimed) := Claim(ClearSw(w, a, true).0, addr, kind, Originals(w, addr, kind));
    Plant(v, addr, kind, claimed, true)
  }

  /** A clear of `a` between the lock and the write of the patch. */
  function ClearedBeforePatch(w: World, addr: u32, kind: Kind, a: u32): World
    requires Reads(w, addr, kind) && Formed(w.table)
  {
    var (v, claimed) := Claim(w, addr, kind, Originals(w, addr, kind));
    Plant(ClearSw(v, a, true).0, addr, kind, claimed, true)
  }

  /** Every breakpoint is the one to set or lies apart from it. */
  predicate EqualOrApart(table: Table, addr: int, n: nat) {
    forall i :: 0 <= i < |table| && table[i].Some? ==>
      (table[i].value.addr == addr && table[i].value.patchLen == n) || Apart(table[i].value, addr, n)
  }

  lemma FreeUnlessSet(table: Table, addr: int, n: nat)
    requires EqualOrApart(table, addr, n) && Find(table, addr).None?
    ensures RangeFree(table, addr, n)
  {
  }

  /** Restoring a breakpoint that lies apart leaves the bytes of the range. */
  lemma RestoreApart(w: World, i: nat, addr: u32, n: nat)
    requires i < |w.table| && w.table[i].Some? && SlotFormed(w.table[i].value)
    requires Apart(w.table[i].value, addr, n) && Mapped(w.mem, addr, n)
    ensures Mapped(RestoreSlot(w, i, true).0.mem, addr, n)
    ensures BytesAt(RestoreSlot(w, i, true).0.mem, addr, n) == BytesAt(w.mem, addr, n)
  {
  }

  // ---- Cleared before the lock

  lemma ClearElsewhereBeforeLock(w: World, clean: Memory, addr: u32, kind: Kind, a: u32)
    requires Overlaid(w, clean) && Reads(w, addr, kind) && EqualOrApart(w.table, addr, PatchLen(kind)) && a != addr
    ensures Overlaid(ClearedBeforeLock(w, addr, kind, a), clean)
  {
    var n, v := PatchLen(kind), ClearSw(w, a, true).0;
    var found := Find(w.table, a);
    if found.Some? {
      RestoreApart(w, found.value, addr, n);
      RestoreKeepsOverlay(w, clean, found.value, true);
    }
    assert EqualOrApart(v.table, addr, n);
    PartsAreSet(v, addr, kind, true);
    SetKeepsOverlay(v, clean, addr, kind, Io(true, true));
    if Find(v.table, addr).None? {
      FreeUnlessSet(v.table, addr, n);
    }
  }

  /** A claim with BKPT bytes as the originals, where no breakpoint is. */
  lemma StaleClaim(v: World, clean: Memory, addr: u32, kind: Kind)
    requires Overlaid(v, clean) && Mapped(v.mem, addr, PatchLen(kind)) && Find(v.table, addr).None?
    requires RangeFree(v.table, addr, PatchLen(kind)) && FirstFree(v.table).Some?
    ensures var patch := Patch(PatchLen(kind));
            var (u, claimed) := Claim(v, addr, kind, patch);
            var t := Plant(u, addr, kind, claimed, true);
            && Find(t.table, addr).Some? && t.table[Find(t.table, addr).value] == Some(SlotFor(addr, kind, patch))
            && (Overlaid(t, clean) <==> Shows(clean, addr, patch))
  {
    var n, free := PatchLen(kind), FirstFree(v.table).value;
    var patch := Patch(n);
    var b := SlotFor(addr, kind, patch);
    var t := World(WriteBytes(v.mem, addr, patch), v.table[free := Some(b)]);
    FoundWhereSet(v.table, t.table, addr, free);
    assert b.orig[..n] == patch;
    if Shows(clean, addr, patch) {
      FilledTable(clean, v.table, free, b);
      FilledMemory(clean, v.table, free, b);
    } else {
      assert !SlotSaves(clean, b) && t.table[free] == Some(b);
    }
  }

  /** The breakpoint that is cleared is the one whose BKPT bytes have just been read as the original. */
  lemma ClearSameBeforeLock(w: World, clean: Memory, addr: u32, kind: Kind)
    requires Overlaid(w, clean) && Reads(w, addr, kind) && EqualOrApart(w.table, addr, PatchLen(kind))
    requires HasAddress(w.table, addr)
    ensures var t, patch := ClearedBeforeLock(w, addr, kind, addr), Patch(PatchLen(kind));
            && Find(t.table, addr).Some? && t.table[Find(t.table, addr).value] == Some(SlotFor(addr, kind, patch))
            && (Overlaid(t, clean) <==> Shows(clean, addr, patch))
  {
    var i := Find(w.table, addr).value;
    ReadsBkpt(w, clean, addr, kind, i);
    RestoreKeepsOverlay(w, clean, i, true);
    var v := ClearSw(w, addr, true).0;
    GoneAfterClear(w, clean, v, addr, PatchLen(kind), i);
    assert w.mem.Keys == v.mem.Keys;
    StaleClaim(v, clean, addr, kind);
  }

  lemma ReadsBkpt(w: World, clean: Memory, addr: u32, kind: Kind, i: nat)
    requires Overlaid(w, clean) && Reads(w, addr, kind) && EqualOrApart(w.table, addr, PatchLen(kind))
    requires i < |w.table| && w.table[i].Some? && w.table[i].value.addr == addr
    ensures Originals(w, addr, kind) == Patch(PatchLen(kind))
  {
    SlotShowsPatch(w, clean, i);
    assert SlotFormed(w.table[i].value);
  }

  lemma GoneAfterClear(w: World, clean: Memory, v: World, addr: u32, n: nat, i: nat)
    requires Overlaid(w, clean) && EqualOrApart(w.table, addr, n)
    requires i < |w.table| && w.table[i].Some? && w.table[i].value.addr == addr
    requires n > 0 && v.table == w.table[i := None]
    ensures Find(v.table, addr).None? && FirstFree(v.table).Some? && RangeFree(v.table, addr, n)
  {
    assert v.table[i] == None && SlotFormed(w.table[i].value);
    forall j | 0 <= j < |v.table| && v.table[j].Some?
      ensures v.table[j].value.addr != addr && Apart(v.table[j].value, addr, n)
    {
      var b := w.table[j].value;
      assert v.table[j] == w.table[j] && SlotFormed(b);
      assert if j < i then Apart(b, addr, w.table[i].value.patchLen)
             else Apart(w.table[i].value, b.addr, b.patchLen);
    }
  }

  /** A clear between the read and the lock breaks the agreement exactly when it clears the very address: the
      breakpoint set anew then has BKPT bytes as its original. */
  lemma BeforeLockExactly(w: World, clean: Memory, addr: u32, kind: Kind, a: u32)
    requires Overlaid(w, clean) && Reads(w, addr, kind) && EqualOrApart(w.table, addr, PatchLen(kind))
    ensures Overlaid(ClearedBeforeLock(w, addr, kind, a), clean)
            <==> a != addr || !HasAddress(w.table, addr) || Shows(clean, addr, Patch(PatchLen(kind)))
  {
    if a != addr {
      ClearElsewhereBeforeLock(w, clean, addr, kind, a);
    } else if HasAddress(w.table, addr) {
      ClearSameBeforeLock(w, clean, addr, kind);
    } else {
      assert Find(w.table, addr).None?;
      PartsAreSet(w, addr, kind, true);
      FreeUnlessSet(w.table, addr, PatchLen(kind));
      SetKeepsOverlay(w, clean, addr, kind, Io(true, true));
    }
  }

  // ---- Cleared before the patch

  lemma ClearElsewhereBeforePatch(w: World, clean: Memory, addr: u32, kind: Kind, a: u32)
    requires Overlaid(w, clean) && Reads(w, addr, kind) && EqualOrApart(w.table, addr, PatchLen(kind)) && a != addr
    ensures Overlaid(ClearedBeforePatch(w, addr, kind, a), clean)
  {
    var (v, claimed) := Claim(w, addr, kind, Originals(w, addr, kind));
    if claimed.None? {
      ClearKeeps(w, clean, a);
    } else {
      var s := SetSw(w, addr, kind, Io(true, true)).0;
      FreeUnlessSet(w.table, addr, PatchLen(kind));
      SetKeepsOverlay(w, clean, addr, kind, Io(true, true));
      assert s == v.(mem := WriteBytes(w.mem, addr, Patch(PatchLen(kind))));
      ClearKeeps(s, clean, a);
      PatchAndClearCommute(v, s, addr, kind, claimed, a);
    }
  }

  lemma ClearKeeps(w: World, clean: Memory, a: u32)
    requires Overlaid(w, clean)
    ensures Overlaid(ClearSw(w, a, true).0, clean)
  {
    if Find(w.table, a).Some? {
      RestoreKeepsOverlay(w, clean, Find(w.table, a).value, true);
    }
  }

  /** `s` is `v` with the patch written: clearing another breakpoint before or after that is the same. */
  lemma PatchAndClearCommute(v: World, s: World, addr: u32, kind: Kind, claimed: Option<nat>, a: u32)
    requires Formed(v.table) && a != addr && claimed.Some? && claimed.value < |v.table|
    requires v.table[claimed.value].Some? && v.table[claimed.value].value.addr == addr
    requires s == v.(mem := WriteBytes(v.mem, addr, Patch(PatchLen(kind))))
    requires forall i :: 0 <= i < |v.table| && v.table[i].Some? && v.table[i].value.addr != addr ==>
      Apart(v.table[i].value, addr, PatchLen(kind))
    ensures Plant(ClearSw(v, a, true).0, addr, kind, claimed, true) == ClearSw(s, a, true).0
  {
    var found := Find(v.table, a);
    assert s.mem.Keys == v.mem.Keys;
    if found.Some? {
      var b := v.table[found.value].value;
      assert SlotFormed(b);
      St.WritesCommute(v.mem, addr, Patch(PatchLen(kind)), b.addr, b.orig[..b.patchLen]);
    }
  }

  /** The slot just claimed is cleared before its patch is written: BKPT bytes without a slot. */
  lemma ClearSameBeforePatch(w: World, clean: Memory, addr: u32, kind: Kind)
    requires Overlaid(w, clean) && Reads(w, addr, kind) && EqualOrApart(w.table, addr, PatchLen(kind))
    requires !HasAddress(w.table, addr) && FirstFree(w.table).Some?
    ensures var t, patch := ClearedBeforePatch(w, addr, kind, addr), Patch(PatchLen(kind));
            && t == w.(mem := WriteBytes(w.mem, addr, patch)) && Find(t.table, addr).None? && Shows(t.mem, addr, patch)
            && (Overlaid(t, clean) <==> Shows(clean, addr, patch))
  {
    var patch, orig := Patch(PatchLen(kind)), Originals(w, addr, kind);
    var (v, claimed) := Claim(w, addr, kind, orig);
    assert Find(w.table, addr).None?;
    FoundWhereSet(w.table, v.table, addr, claimed.value);
    RestoresNothing(w, v, addr, kind, orig, claimed.value);
    assert ClearedBeforePatch(w, addr, kind, addr) == w.(mem := WriteBytes(w.mem, addr, patch));
    BkptWithoutSlot(w, clean, addr, kind);
  }

  lemma BkptWithoutSlot(w: World, clean: Memory, addr: u32, kind: Kind)
    requires Overlaid(w, clean) && Reads(w, addr, kind) && EqualOrApart(w.table, addr, PatchLen(kind))
    requires Find(w.table, addr).None?
    ensures var patch := Patch(PatchLen(kind));
            var t := w.(mem := WriteBytes(w.mem, addr, patch));
            Shows(t.mem, addr, patch) && (Overlaid(t, clean) <==> Shows(clean, addr, patch))
  {
    var patch := Patch(PatchLen(kind));
    FreeUnlessSet(w.table, addr, PatchLen(kind));
    WriteChangesNothing(w.mem, addr, patch);
    UncoveredSame(w, clean, addr, patch);
  }

  /** Restoring a slot whose patch was never written writes what is there. */
  lemma RestoresNothing(w: World, v: World, addr: u32, kind: Kind, orig: seq<byte>, i: nat)
    requires Mapped(w.mem, addr, PatchLen(kind)) && orig == BytesAt(w.mem, addr, PatchLen(kind))
    requires i < |w.table| && w.table[i] == None && v == w.(table := w.table[i := Some(SlotFor(addr, kind, orig))])
    ensures RestoreSlot(v, i, true).0 == w
  {
    var b := SlotFor(addr, kind, orig);
    assert b.orig[..b.patchLen] == orig;
    WriteChangesNothing(w.mem, addr, orig);
    assert v.table[i := None] == w.table;
  }

  /** Where no breakpoint lies the two memories show the same. */
  lemma UncoveredSame(w: World, clean: Memory, addr: u32, bytes: seq<byte>)
    requires Overlaid(w, clean) && RangeFree(w.table, addr, |bytes|) && Mapped(w.mem, addr, |bytes|)
    ensures Shows(w.mem, addr, bytes) <==> Shows(clean, addr, bytes)
  {
    forall a | addr <= a < addr + |bytes| ensures a in clean && clean[a] == w.mem[a] {
      FreeInside(w.table, addr, |bytes|, a);
      UncoveredByte(w, clean, a);
    }
  }

  /** A clear between the lock and the write of the patch breaks the agreement exactly when it clears the slot
      just claimed. */
  lemma BeforePatchExactly(w: World, clean: Memory, addr: u32, kind: Kind, a: u32)
    requires Overlaid(w, clean) && Reads(w, addr, kind) && EqualOrApart(w.table, addr, PatchLen(kind))
    ensures Overlaid(ClearedBeforePatch(w, addr, kind, a), clean)
            <==> a != addr || HasAddress(w.table, addr) || (forall i :: 0 <= i < |w.table| ==> w.table[i].Some?)
                 || Shows(clean, addr, Patch(PatchLen(kind)))
  {
    if a != addr {
      ClearElsewhereBeforePatch(w, clean, addr, kind, a);
    } else if HasAddress(w.table, addr) || FirstFree(w.table).None? {
      assert HasAddress(w.table, addr) ==> Find(w.table, addr).Some?;
      ClearKeeps(w, clean, a);
    } else {
      ClearSameBeforePatch(w, clean, addr, kind);
    }
  }
}
