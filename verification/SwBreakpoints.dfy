/** Software breakpoints over a process memory: what set_sw_breakpoint, clear_sw_breakpoint, restore_sw_slot
    and clear_all compute (vita-gdb/src/gdb/sessions.rs), and how the slot table and the memory agree.

    Each kernel call takes its outcome as a parameter. A failed write_user_text leaves memory as it was. */
module SwBreakpoints {
  import opened Words
  import opened SlotTable

  const SLOTS := 16

  datatype Kind = Arm32 | Thumb16 | Thumb32

  datatype SwBreakpoint = SwBreakpoint(addr: u32, orig: seq<byte>, patchLen: nat)

  type Memory = map<int, byte>
  type Table = seq<Option<SwBreakpoint>>

  datatype World = World(mem: Memory, table: Table)

  // ---- Memory

  predicate Mapped(mem: Memory, addr: int, n: nat) {
    forall a :: addr <= a < addr + n ==> a in mem
  }

  /** The bytes at addr are these. */
  predicate Shows(mem: Memory, addr: int, bytes: seq<byte>) {
    forall a :: addr <= a < addr + |bytes| ==> a in mem && mem[a] == bytes[a - addr]
  }

  function BytesAt(mem: Memory, addr: int, n: nat): (bytes: seq<byte>)
    requires Mapped(mem, addr, n)
    ensures |bytes| == n && Shows(mem, addr, bytes)
  {
    seq(n, k requires 0 <= k < n => mem[addr + k])
  }

  function WriteBytes(mem: Memory, addr: int, bytes: seq<byte>): Memory {
    map a | a in mem :: if addr <= a < addr + |bytes| then bytes[a - addr] else mem[a]
  }

  // ---- The table

  function PatchLen(kind: Kind): nat {
    if kind == Thumb16 then 2 else 4
  }

  /** BKPT #0: 0xBE00 in two bytes, 0xE1200070 in four. */
  function Patch(patchLen: nat): (bytes: seq<byte>) {
    if patchLen == 2 then [0x00, 0xbe] else [0x70, 0x00, 0x20, 0xE1]
  }

  predicate IsSharedAddress(addr: u32) {
    0xE000_0000 <= addr < 0xF000_0000
  }

  /** The first slot with a breakpoint at addr. */
  function Find(table: Table, addr: int): (r: Option<nat>)
    ensures r.Some? ==> r.value < |table| && table[r.value].Some? && table[r.value].value.addr == addr
    ensures r.Some? ==> forall j :: 0 <= j < r.value && table[j].Some? ==> table[j].value.addr != addr
    ensures r.None? ==> forall j :: 0 <= j < |table| && table[j].Some? ==> table[j].value.addr != addr
  {
    if table == [] then None
    else if table[0].Some? && table[0].value.addr == addr then Some(0)
    else Later(table, Find(table[1..], addr))
  }

  // ---- Operations

  /** Outcomes of the read of the original bytes and of the write of the patch. */
  datatype Io = Io(readOk: bool, writeOk: bool)

  function NewSlot(mem: Memory, addr: u32, kind: Kind): (b: SwBreakpoint)
    requires Mapped(mem, addr, PatchLen(kind))
  {
    var orig := BytesAt(mem, addr, PatchLen(kind));
    SwBreakpoint(addr, if kind == Thumb16 then orig + [0, 0] else orig, PatchLen(kind))
  }

  function SetSw(w: World, addr: u32, kind: Kind, io: Io): (World, bool) {
    if IsSharedAddress(addr) || !io.readOk || !Mapped(w.mem, addr, PatchLen(kind)) then (w, false)
    else if Find(w.table, addr).Some? then (w, true)
    else
      var free := FirstFree(w.table);
      if free.None? || !io.writeOk then (w, false)
      else
        (World(WriteBytes(w.mem, addr, Patch(PatchLen(kind))),
               w.table[free.value := Some(NewSlot(w.mem, addr, kind))]), true)
  }

  /** The slot is emptied before its bytes are written back, so a failed write loses it. */
  function RestoreSlot(w: World, i: nat, writeOk: bool): (World, bool)
    requires i < |w.table| && w.table[i].Some? && w.table[i].value.patchLen <= |w.table[i].value.orig|
  {
    var b := w.table[i].value;
    var ok := writeOk && Mapped(w.mem, b.addr, b.patchLen);
    (World(if ok then WriteBytes(w.mem, b.addr, b.orig[..b.patchLen]) else w.mem, w.table[i := None]), ok)
  }

  predicate SlotFormed(b: SwBreakpoint) {
    |b.orig| == 4 && (b.patchLen == 2 || b.patchLen == 4)
  }

  /** Every slot the session fills has this shape. */
  predicate Formed(table: Table) {
    forall i :: 0 <= i < |table| && table[i].Some? ==> SlotFormed(table[i].value)
  }

  function ClearSw(w: World, addr: u32, writeOk: bool): (World, bool)
    requires Formed(w.table)
  {
    var found := Find(w.table, addr);
    if found.None? then (w, false) else RestoreSlot(w, found.value, writeOk)
  }

  /** clear_all from slot i on; writes[k] is the outcome of restoring slot k. */
  function ClearFrom(w: World, i: nat, writes: seq<bool>): (r: World)
    requires Formed(w.table) && i <= |w.table| == |writes|
    ensures |r.table| == |w.table|
    decreases |w.table| - i
  {
    if i == |w.table| then w
    else ClearFrom(if w.table[i].Some? then RestoreSlot(w, i, writes[i]).0 else w, i + 1, writes)
  }

  /** A write by the debugger or by the process itself; it fails as a whole when part of it is unmapped. */
  function Poke(mem: Memory, addr: int, bytes: seq<byte>): Memory {
    if Mapped(mem, addr, |bytes|) then WriteBytes(mem, addr, bytes) else mem
  }

  // ---- The overlay

  predicate Covers(b: SwBreakpoint, a: int) {
    b.addr <= a < b.addr + b.patchLen
  }

  predicate Apart(b: SwBreakpoint, addr: int, n: nat) {
    b.addr + b.patchLen <= addr || addr + n <= b.addr
  }

  /** No breakpoint of the table touches the n bytes at addr. */
  predicate RangeFree(table: Table, addr: int, n: nat) {
    forall i :: 0 <= i < |table| && table[i].Some? ==> Apart(table[i].value, addr, n)
  }

  predicate Disjoint(table: Table) {
    forall i, j :: 0 <= i < j < |table| && table[i].Some? && table[j].Some? ==>
      Apart(table[i].value, table[j].value.addr, table[j].value.patchLen)
  }

  predicate SlotSaves(clean: Memory, b: SwBreakpoint) {
    b.patchLen <= |b.orig| && Shows(clean, b.addr, b.orig[..b.patchLen])
  }

  predicate SavesOriginals(clean: Memory, table: Table) {
    forall i :: 0 <= i < |table| && table[i].Some? ==> SlotSaves(clean, table[i].value)
  }

  /** The first slot whose patch covers the byte at a. */
  function Cover(table: Table, a: int): (r: Option<nat>)
    ensures r.Some? ==> r.value < |table| && table[r.value].Some? && Covers(table[r.value].value, a)
    ensures r.None? ==> forall j :: 0 <= j < |table| && table[j].Some? ==> !Covers(table[j].value, a)
  {
    if table == [] then None
    else if table[0].Some? && Covers(table[0].value, a) then Some(0)
    else Later(table, Cover(table[1..], a))
  }

  function OverlayByte(table: Table, a: int, under: byte): byte
    requires Formed(table)
  {
    var c := Cover(table, a);
    if c.Some? then Patch(table[c.value].value.patchLen)[a - table[c.value].value.addr] else under
  }

  /** `clean` with BKPT bytes at the occupied slots. */
  function Overlay(clean: Memory, table: Table): Memory
    requires Formed(table)
  {
    map a | a in clean :: OverlayByte(table, a, clean[a])
  }

  /** Memory is the unpatched memory `clean` overlaid with BKPT bytes at exactly the occupied slots, which
      hold the true original bytes and do not overlap. */
  predicate Overlaid(w: World, clean: Memory) {
    && |w.table| == SLOTS && Formed(w.table) && Disjoint(w.table) && SavesOriginals(clean, w.table)
    && w.mem == Overlay(clean, w.table)
  }
}
