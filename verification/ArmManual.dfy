/** What the ARMv7-A Architecture Reference Manual (DDI 0406C) says, on integers: AddWithCarry and the shifts
    of section A2.2.1, the load-multiple loop of sections A8.8.57 to A8.8.61, and the writes to the PC of
    section A2.3.1. */
module ArmManual {
  import opened Words

  function Pow2(k: nat): (p: nat)
    ensures p > 0
  {
    if k == 0 then 1 else 2 * Pow2(k - 1)
  }

  /** The powers of two that masks and sign tests use. */
  lemma WordSize()
    ensures Pow2(0) == 1 && Pow2(1) == 2 && Pow2(2) == 4 && Pow2(5) == 0x20
    ensures Pow2(15) == 0x8000 && Pow2(16) == 0x1_0000
    ensures Pow2(28) == 0x1000_0000 && Pow2(29) == 0x2000_0000 && Pow2(30) == 0x4000_0000
    ensures Pow2(31) == 0x8000_0000 && Pow2(32) == TWO_TO_THE_32
  {
  }

  predicate Bit(x: nat, k: nat) {
    x / Pow2(k) % 2 == 1
  }

  function SInt(x: u32): int {
    if x >= 0x8000_0000 then x - TWO_TO_THE_32 else x
  }

  datatype Sum = Sum(result: u32, carry: bool, overflow: bool)

  function AddWithCarry(x: u32, y: u32, carry: bool): Sum {
    var c := if carry then 1 else 0;
    var unsignedSum := x + y + c;
    var signedSum := SInt(x) + SInt(y) + c;
    var result: u32 := unsignedSum % TWO_TO_THE_32;
    Sum(result, result != unsignedSum, SInt(result) != signedSum)
  }

  function Not(x: u32): u32 {
    TWO_TO_THE_32 - 1 - x
  }

  datatype Flags = Flags(n: bool, z: bool, c: bool, v: bool)

  /** The flags left by CMP: those of AddWithCarry(a, NOT(b), '1'). */
  function Compare(a: u32, b: u32): Flags {
    var s := AddWithCarry(a, Not(b), true);
    Flags(s.result >= 0x8000_0000, s.result == 0, s.carry, s.overflow)
  }

  /** ConditionPassed (section A8.3.1), by the four bits of the condition field. */
  predicate ConditionPassed(cond: nat, f: Flags)
    requires cond < 16
  {
    var result := match cond / 2
      case 0 => f.z
      case 1 => f.c
      case 2 => f.n
      case 3 => f.v
      case 4 => f.c && !f.z
      case 5 => f.n == f.v
      case 6 => f.n == f.v && !f.z
      case _ => true;
    if cond % 2 == 1 && cond != 15 then !result else result
  }

  /** The address of LDR (immediate) (section A8.8.63). */
  function LoadAddress(rn: u32, imm: nat, add: bool, index: bool): u32 {
    var offset := (if add then rn + imm else rn - imm) % TWO_TO_THE_32;
    if index then offset else rn
  }

  function RotateOnce(x: u32): u32 {
    x / 2 + x % 2 * 0x8000_0000
  }

  function Rotate(x: u32, n: nat): u32 {
    if n == 0 then x else RotateOnce(Rotate(x, n - 1))
  }

  // ---- Load multiple

  datatype Mode = IncrementAfter | IncrementBefore | DecrementAfter | DecrementBefore

  function BitCount(list: nat): nat {
    if list == 0 then 0 else list % 2 + BitCount(list / 2)
  }

  function StartAddress(mode: Mode, base: u32, list: nat): u32 {
    match mode
    case IncrementAfter => base
    case IncrementBefore => (base + 4) % TWO_TO_THE_32
    case DecrementAfter => (base - 4 * BitCount(list) + 4) % TWO_TO_THE_32
    case DecrementBefore => (base - 4 * BitCount(list)) % TWO_TO_THE_32
  }

  /** Where the loop over registers 0, 1, 2, ... stands when it reaches register n. */
  function AddressOf(list: nat, n: nat, start: u32): u32 {
    if n == 0 then start
    else
      var a := AddressOf(list, n - 1, start);
      if Bit(list, n - 1) then (a + 4) % TWO_TO_THE_32 else a
  }

  type Memory = u32 -> Option<byte>

  /** A little-endian word, when all four bytes can be read. */
  function MemU32(mem: Memory, addr: u32): Option<u32> {
    var b0, b1 := mem(addr), mem((addr + 1) % TWO_TO_THE_32);
    var b2, b3 := mem((addr + 2) % TWO_TO_THE_32), mem((addr + 3) % TWO_TO_THE_32);
    if b0.None? || b1.None? || b2.None? || b3.None? then None
    else
      Some(b0.value as int + b1.value as int * 0x100 + b2.value as int * 0x1_0000 + b3.value as int * 0x100_0000)
  }

  /** Register by register, lowest first: registers n to 15 of the list, loaded from `addr` on. */
  function LoadFrom(mem: Memory, list: nat, n: nat, addr: u32, regs: map<nat, u32>): Option<map<nat, u32>>
    requires n <= 16
    decreases 16 - n
  {
    if n == 16 then Some(regs)
    else if !Bit(list, n) then LoadFrom(mem, list, n + 1, addr, regs)
    else
      var v := MemU32(mem, addr);
      if v.None? then None else LoadFrom(mem, list, n + 1, (addr + 4) % TWO_TO_THE_32, regs[n := v.value])
  }

  /** Where TBB and TBH (section A8.8.237) find the entry for an index, in a table of bytes or halfwords. */
  function TableEntry(halfwords: bool, base: u32, index: u32): u32 {
    (base + if halfwords then index * 2 else index) % TWO_TO_THE_32
  }

  // ---- The instruction and the PC (section A2.3)

  /** What the PC reads as in the instruction at `at`. */
  function PcRead(at: u32, thumb: bool): u32 {
    (at + if thumb then 4 else 8) % TWO_TO_THE_32
  }

  function InsnLength(thumb: bool, wide: bool): nat {
    if thumb && !wide then 2 else 4
  }

  // ---- Writes to the PC; None is UNPREDICTABLE

  datatype Target = Target(addr: u32, thumb: bool)

  function BXWritePC(address: u32): Option<Target> {
    if address % 2 == 1 then Some(Target(address - 1, true))
    else if address % 4 == 0 then Some(Target(address, false))
    else None
  }

  function BranchWritePC(address: u32, thumb: bool): Target {
    if thumb then Target(address - address % 2, true) else Target(address - address % 4, false)
  }

  function ALUWritePC(address: u32, thumb: bool): Option<Target> {
    if thumb then Some(BranchWritePC(address, true)) else BXWritePC(address)
  }
}
