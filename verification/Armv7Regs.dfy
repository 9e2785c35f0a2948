/** The register packet of the remote protocol (vita-gdb/src/gdb/armv7.rs). */
module Armv7Regs {
  import opened Words

  type u64 = x: int | 0 <= x < 0x1_0000_0000_0000_0000

  const EXPECTED_LEN := 17 * 4 + 32 * 8 + 1 * 4

  /** A register file as a value. */
  datatype RegFile = RegFile(
    r: seq<u32>, sp: u32, lr: u32, pc: u32, cpsr: u32, d: seq<u64>, fpscr: u32)

  predicate Shaped(v: RegFile) {
    |v.r| == 13 && |v.d| == 32
  }

  // ---- Register numbers

  datatype Armv7RegId = Gpr(n: nat) | Sp | Lr | Pc | Cpsr | Dpr(n: nat) | Fpscr

  function FromRawId(id: nat): Option<(Armv7RegId, nat)> {
    if id <= 12 then Some((Gpr(id), 4))
    else if id == 13 then Some((Sp, 4))
    else if id == 14 then Some((Lr, 4))
    else if id == 15 then Some((Pc, 4))
    else if id == 16 then Some((Cpsr, 4))
    else if id <= 48 then Some((Dpr(id - 17), 8))
    else if id == 49 then Some((Fpscr, 4))
    else None
  }

  type RawId = id: nat | id < 50

  function Size(id: RawId): nat {
    FromRawId(id).value.1
  }

  function Value(v: RegFile, id: RawId): (value: nat)
    requires Shaped(v)
    ensures value < Span(Size(id))
  {
    Widths();
    match FromRawId(id).value.0
    case Gpr(n) => v.r[n]
    case Sp => v.sp
    case Lr => v.lr
    case Pc => v.pc
    case Cpsr => v.cpsr
    case Dpr(n) => v.d[n]
    case Fpscr => v.fpscr
  }

  lemma Widths()
    ensures Span(4) == TWO_TO_THE_32 && Span(8) == 0x1_0000_0000_0000_0000
  {
  }

  /** The sizes of all registers below id, added up. */
  function Offset(id: nat): nat
    requires id <= 50
  {
    if id == 0 then 0 else Offset(id - 1) + Size(id - 1)
  }

  /** The registers below n, in order of their numbers, each little-endian in its own size. */
  function Below(v: RegFile, n: nat): seq<byte>
    requires Shaped(v) && n <= 50
    decreases v, n
  {
    if n == 0 then [] else Below(v, n - 1) + ToLe(Value(v, n - 1), Size(n - 1))
  }

  function Packet(v: RegFile): seq<byte>
    requires Shaped(v)
  {
    Below(v, 50)
  }

  // ---- What the layout promises

  /** Offsets in closed form. */
  function Start(n: nat): nat {
    if n <= 17 then 4 * n else if n <= 49 then 68 + 8 * (n - 17) else EXPECTED_LEN
  }

  lemma {:induction false} OffsetIs(n: nat)
    requires n <= 50
    ensures Offset(n) == Start(n)
  {
    if n > 0 {
      OffsetIs(n - 1);
    }
  }

  lemma {:induction false} LengthBelow(v: RegFile, n: nat)
    requires Shaped(v) && n <= 50
    ensures |Below(v, n)| == Start(n)
  {
    if n > 0 {
      LengthBelow(v, n - 1);
    }
  }

  /** Every packet is as long as gdb_deserialize demands. */
  lemma PacketLength(v: RegFile)
    requires Shaped(v)
    ensures |Packet(v)| == EXPECTED_LEN
  {
    LengthBelow(v, 50);
  }

  /** Each register sits at the sum of the sizes of all lower ones. */
  lemma RegisterAtItsOffset(v: RegFile, id: RawId)
    requires Shaped(v)
    ensures Offset(id + 1) == Offset(id) + Size(id) <= |Packet(v)|
    ensures Packet(v)[Offset(id)..Offset(id + 1)] == ToLe(Value(v, id), Size(id))
  {
    RegisterInPrefix(v, 50, id);
  }

  /** The n bytes at an offset are the number, lowest byte first. */
  predicate HoldsAt(bytes: seq<byte>, at: nat, value: nat, n: nat) {
    at + n <= |bytes| && bytes[at..at + n] == ToLe(value, n)
  }

  /** Where every register is: r0 to r12, sp, lr, pc and cpsr a word each, d0 to d31 a doubleword each, and fpscr
      in the last word. */
  lemma RegistersByName(v: RegFile, i: nat, k: nat)
    requires Shaped(v) && i < 13 && k < 32
    ensures var p := Packet(v);
            && |p| == 328 && HoldsAt(p, 4 * i, v.r[i], 4)
            && HoldsAt(p, 52, v.sp, 4) && HoldsAt(p, 56, v.lr, 4)
            && HoldsAt(p, 60, v.pc, 4) && HoldsAt(p, 64, v.cpsr, 4)
            && HoldsAt(p, 68 + 8 * k, v.d[k], 8) && HoldsAt(p, 324, v.fpscr, 4)
  {
    PacketLength(v);
    RegisterHeld(v, i);
    RegisterHeld(v, 13);
    RegisterHeld(v, 14);
    RegisterHeld(v, 15);
    RegisterHeld(v, 16);
    RegisterHeld(v, 17 + k);
    RegisterHeld(v, 49);
  }

  lemma RegisterHeld(v: RegFile, id: RawId)
    requires Shaped(v)
    ensures HoldsAt(Packet(v), Start(id), Value(v, id), Size(id))
  {
    RegisterAtItsOffset(v, id);
    OffsetIs(id);
  }

  lemma {:induction false} RegisterInPrefix(v: RegFile, n: nat, id: RawId)
    requires Shaped(v) && id < n <= 50
    ensures Offset(id) <= Offset(id + 1) <= |Below(v, n)|
    ensures Below(v, n)[Offset(id)..Offset(id + 1)] == ToLe(Value(v, id), Size(id))
    decreases n
  {
    if id == n - 1 {
      LastRegister(v, id);
    } else {
      RegisterInPrefix(v, n - 1, id);
      var last := ToLe(Value(v, n - 1), Size(n - 1));
      assert Below(v, n) == Below(v, n - 1) + last;
      Inside(Below(v, n - 1), last, Offset(id), Offset(id + 1));
    }
  }

  lemma LastRegister(v: RegFile, id: RawId)
    requires Shaped(v)
    ensures Offset(id) <= Offset(id + 1) == |Below(v, id + 1)|
    ensures Below(v, id + 1)[Offset(id)..Offset(id + 1)] == ToLe(Value(v, id), Size(id))
  {
    OffsetIs(id);
    LengthBelow(v, id);
    AtEnd(Below(v, id), ToLe(Value(v, id), Size(id)));
  }

  lemma AtEnd(a: seq<byte>, b: seq<byte>)
    ensures (a + b)[|a|..|a| + |b|] == b
  {
  }

  lemma Inside(a: seq<byte>, b: seq<byte>, i: nat, j: nat)
    requires i <= j <= |a|
    ensures (a + b)[i..j] == a[i..j]
  {
  }

  /** The packet tells every register: equal packets come from equal register files. */
  lemma PacketIsInjective(v: RegFile, w: RegFile)
    requires Shaped(v) && Shaped(w) && Packet(v) == Packet(w)
    ensures v == w
  {
    forall id: RawId ensures Value(v, id) == Value(w, id) {
      SameRegister(v, w, id);
    }
    SameFile(v, w);
  }

  lemma SameRegister(v: RegFile, w: RegFile, id: RawId)
    requires Shaped(v) && Shaped(w) && Packet(v) == Packet(w)
    ensures Value(v, id) == Value(w, id)
  {
    RegisterAtItsOffset(v, id);
    RegisterAtItsOffset(w, id);
    FromLeToLe(Value(v, id), Size(id));
    FromLeToLe(Value(w, id), Size(id));
  }

  lemma SameFile(v: RegFile, w: RegFile)
    requires Shaped(v) && Shaped(w) && forall id: RawId :: Value(v, id) == Value(w, id)
    ensures v == w
  {
    forall i | 0 <= i < 13 ensures v.r[i] == w.r[i] {
      assert Value(v, i) == Value(w, i);
    }
    forall i | 0 <= i < 32 ensures v.d[i] == w.d[i] {
      assert Value(v, 17 + i) == Value(w, 17 + i);
    }
    assert Value(v, 13) == Value(w, 13) && Value(v, 14) == Value(w, 14) && Value(v, 15) == Value(w, 15);
    assert Value(v, 16) == Value(w, 16) && Value(v, 49) == Value(w, 49);
  }

  /** Registers from n on do not show below n. */
  lemma {:induction false} BelowIgnoresRest(v: RegFile, w: RegFile, n: nat)
    requires Shaped(v) && Shaped(w) && n <= 50
    requires forall id: RawId :: id < n ==> Value(v, id) == Value(w, id)
    ensures Below(v, n) == Below(w, n)
  {
    if n > 0 {
      BelowIgnoresRest(v, w, n - 1);
    }
  }

  /** One more register, of the core group and of the vector group. */
  lemma NextCore(v: RegFile, n: RawId)
    requires Shaped(v) && (n < 17 || n == 49)
    ensures Below(v, n + 1) == Below(v, n) + ToLe(Value(v, n), 4)
  {
  }

  lemma NextVector(v: RegFile, n: RawId)
    requires Shaped(v) && 17 <= n < 49
    ensures Below(v, n + 1) == Below(v, n) + ToLe(Value(v, n), 8)
  {
  }

  /** v with another value in register n. */
  function With(v: RegFile, n: RawId, value: nat): (w: RegFile)
    requires Shaped(v) && value < Span(Size(n))
    ensures Shaped(w)
  {
    Widths();
    match FromRawId(n).value.0
    case Gpr(k) => v.(r := v.r[k := value])
    case Sp => v.(sp := value)
    case Lr => v.(lr := value)
    case Pc => v.(pc := value)
    case Cpsr => v.(cpsr := value)
    case Dpr(k) => v.(d := v.d[k := value])
    case Fpscr => v.(fpscr := value)
  }

  lemma WithOnlyChanges(v: RegFile, n: RawId, value: nat, id: RawId)
    requires Shaped(v) && value < Span(Size(n))
    ensures Value(With(v, n, value), id) == if id == n then value else Value(v, id)
  {
  }

  /** Taking the next register off the bytes. */
  lemma Advance(bytes: seq<byte>, v: RegFile, n: RawId, value: nat, left: seq<byte>)
    requires Shaped(v) && value < Span(Size(n))
    requires bytes == Below(v, n) + (ToLe(value, Size(n)) + left)
    ensures var w := With(v, n, value);
            bytes == Below(w, n + 1) + left && |bytes| == Start(n + 1) + |left|
  {
    var w := With(v, n, value);
    forall id: RawId ensures id < n ==> Value(v, id) == Value(w, id) {
      WithOnlyChanges(v, n, value, id);
    }
    WithOnlyChanges(v, n, value, n);
    BelowIgnoresRest(v, w, n);
    LengthBelow(w, n + 1);
    assert Below(v, n) + (ToLe(value, Size(n)) + left) == Below(v, n) + ToLe(value, Size(n)) + left;
  }

  lemma NextR(bytes: seq<byte>, v: RegFile, i: nat, value: u32, left: seq<byte>) returns (w: RegFile)
    requires Shaped(v) && i < 13 && bytes == Below(v, i) + (ToLe(value, 4) + left)
    ensures w == v.(r := v.r[i := value])
    ensures bytes == Below(w, i + 1) + left && |bytes| == 4 * (i + 1) + |left|
  {
    Widths();
    Advance(bytes, v, i, value, left);
    w := With(v, i, value);
  }

  lemma NextD(bytes: seq<byte>, v: RegFile, i: nat, value: u64, left: seq<byte>) returns (w: RegFile)
    requires Shaped(v) && i < 32 && bytes == Below(v, 17 + i) + (ToLe(value, 8) + left)
    ensures w == v.(d := v.d[i := value])
    ensures bytes == Below(w, 17 + i + 1) + left && |bytes| == 68 + 8 * (i + 1) + |left|
  {
    Widths();
    Advance(bytes, v, 17 + i, value, left);
    w := With(v, 17 + i, value);
  }

  lemma NextSp(bytes: seq<byte>, v: RegFile, value: u32, left: seq<byte>) returns (w: RegFile)
    requires Shaped(v) && bytes == Below(v, 13) + (ToLe(value, 4) + left)
    ensures w == v.(sp := value)
    ensures bytes == Below(w, 14) + left && |bytes| == 56 + |left|
  {
    Widths();
    Advance(bytes, v, 13, value, left);
    w := With(v, 13, value);
  }

  lemma NextLr(bytes: seq<byte>, v: RegFile, value: u32, left: seq<byte>) returns (w: RegFile)
    requires Shaped(v) && bytes == Below(v, 14) + (ToLe(value, 4) + left)
    ensures w == v.(lr := value)
    ensures bytes == Below(w, 15) + left && |bytes| == 60 + |left|
  {
    Widths();
    Advance(bytes, v, 14, value, left);
    w := With(v, 14, value);
  }

  lemma NextPc(bytes: seq<byte>, v: RegFile, value: u32, left: seq<byte>) returns (w: RegFile)
    requires Shaped(v) && bytes == Below(v, 15) + (ToLe(value, 4) + left)
    ensures w == v.(pc := value)
    ensures bytes == Below(w, 16) + left && |bytes| == 64 + |left|
  {
    Widths();
    Advance(bytes, v, 15, value, left);
    w := With(v, 15, value);
  }

  lemma NextCpsr(bytes: seq<byte>, v: RegFile, value: u32, left: seq<byte>) returns (w: RegFile)
    requires Shaped(v) && bytes == Below(v, 16) + (ToLe(value, 4) + left)
    ensures w == v.(cpsr := value)
    ensures bytes == Below(w, 17) + left && |bytes| == 68 + |left|
  {
    Widths();
    Advance(bytes, v, 16, value, left);
    w := With(v, 16, value);
  }

  /** Any 328 bytes are the packet of some register file, which by PacketIsInjective is the only one. */
  lemma EveryPacketHasRegisters(bytes: seq<byte>) returns (v: RegFile)
    requires |bytes| == EXPECTED_LEN
    ensures Shaped(v) && Packet(v) == bytes
  {
    v := RegistersOfPrefix(bytes, 50);
    assert bytes[..Start(50)] == bytes;
  }

  lemma {:induction false} RegistersOfPrefix(bytes: seq<byte>, n: nat) returns (v: RegFile)
    requires |bytes| == EXPECTED_LEN && n <= 50
    ensures Shaped(v) && Below(v, n) == bytes[..Start(n)]
    decreases n
  {
    if n == 0 {
      v := RegFile(seq(13, _ => 0), 0, 0, 0, 0, seq(32, _ => 0), 0);
    } else {
      v := RegistersOfPrefix(bytes, n - 1);
      StartNext(n - 1);
      v := TakeWord(bytes, v, n - 1, Start(n - 1), Start(n));
    }
  }

  lemma StartNext(n: RawId)
    ensures Start(n + 1) == Start(n) + Size(n) <= EXPECTED_LEN
  {
  }

  lemma TakeWord(bytes: seq<byte>, v: RegFile, n: RawId, i: nat, j: nat) returns (w: RegFile)
    requires Shaped(v) && j == i + Size(n) <= |bytes| && Below(v, n) == bytes[..i]
    ensures Shaped(w) && Below(w, n + 1) == bytes[..j]
  {
    var word := bytes[i..j];
    FromLeBound(word);
    ToLeFromLe(word);
    assert bytes[..j] == bytes[..i] + (word + []);
    Advance(bytes[..j], v, n, FromLe(word), []);
    w := With(v, n, FromLe(word));
  }

  // ---- Reading words off a slice

  /** The slice after the word, or the slice as it was when it is too short. */
  method NextU32(bytes: seq<byte>) returns (value: Option<u32>, rest: seq<byte>)
    ensures value.Some? <==> |bytes| >= 4
    ensures bytes == if value.Some? then ToLe(value.value, 4) + rest else rest
  {
    if |bytes| < 4 {
      return None, bytes;
    }
    FromLeBound(bytes[..4]);
    ToLeFromLe(bytes[..4]);
    Widths();
    value, rest := Some(FromLe(bytes[..4])), bytes[4..];
  }

  method NextU64(bytes: seq<byte>) returns (value: Option<u64>, rest: seq<byte>)
    ensures value.Some? <==> |bytes| >= 8
    ensures bytes == if value.Some? then ToLe(value.value, 8) + rest else rest
  {
    if |bytes| < 8 {
      return None, bytes;
    }
    FromLeBound(bytes[..8]);
    ToLeFromLe(bytes[..8]);
    Widths();
    value, rest := Some(FromLe(bytes[..8])), bytes[8..];
  }

  class Armv7Regs {
    const r: array<u32>
    var sp: u32
    var lr: u32
    var pc: u32
    var cpsr: u32
    const d: array<u64>
    var fpscr: u32

    ghost predicate Valid() {
      r.Length == 13 && d.Length == 32
    }

    function View(): (v: RegFile)
      reads this, r, d
      requires Valid()
      ensures Shaped(v)
    {
      RegFile(r[..], sp, lr, pc, cpsr, d[..], fpscr)
    }

    constructor ()
      ensures Valid() && fresh(r) && fresh(d)
      ensures View() == RegFile(seq(13, _ => 0), 0, 0, 0, 0, seq(32, _ => 0), 0)
    {
      r := new u32[13](_ => 0);
      d := new u64[32](_ => 0);
      sp, lr, pc, cpsr, fpscr := 0, 0, 0, 0, 0;
    }

    /** The bytes handed to write_byte, in order. */
    method GdbSerialize() returns (out: seq<byte>)
      requires Valid()
      ensures out == Packet(View()) && |out| == EXPECTED_LEN
    {
      out := [];
      for i := 0 to 13
        invariant out == Below(View(), i)
      {
        NextCore(View(), i);
        out := out + ToLe(r[i], 4);
      }
      out := out + ToLe(sp, 4);
      NextCore(View(), 13);
      out := out + ToLe(lr, 4);
      NextCore(View(), 14);
      out := out + ToLe(pc, 4);
      NextCore(View(), 15);
      out := out + ToLe(cpsr, 4);
      NextCore(View(), 16);
      for i := 0 to 32
        invariant out == Below(View(), 17 + i)
      {
        NextVector(View(), 17 + i);
        out := out + ToLe(d[i], 8);
      }
      out := out + ToLe(fpscr, 4);
      NextCore(View(), 49);
      PacketLength(View());
    }

    /** Fails exactly on a wrong length and then changes nothing; otherwise the registers become those whose
        packet the bytes are. The length checks on the single words never fail. */
    method GdbDeserialize(bytes: seq<byte>) returns (ok: bool)
      requires Valid()
      modifies this, r, d
      ensures Valid()
      ensures ok <==> |bytes| == EXPECTED_LEN
      ensures ok ==> Packet(View()) == bytes
      ensures !ok ==> View() == old(View())
    {
      if |bytes| != EXPECTED_LEN {
        return false;
      }
      var rest := ReadCore(bytes);
      rest := ReadSpecial(bytes, rest);
      rest := ReadVector(bytes, rest);
      ghost var v := View();
      var value;
      value, rest := NextU32(rest);
      assert value.Some?;
      fpscr := value.value;
      Advance(bytes, v, 49, value.value, rest);
      assert View() == With(v, 49, value.value);
      assert rest == [];
      return true;
    }

    method ReadCore(bytes: seq<byte>) returns (rest: seq<byte>)
      requires Valid() && |bytes| == EXPECTED_LEN
      modifies r
      ensures bytes == Below(View(), 13) + rest && |rest| == EXPECTED_LEN - 52
    {
      rest := bytes;
      for i := 0 to 13
        invariant bytes == Below(View(), i) + rest && |rest| == EXPECTED_LEN - 4 * i
      {
        ghost var v := View();
        var value;
        value, rest := NextU32(rest);
        assert value.Some?;
        v := NextR(bytes, v, i, value.value, rest);
        r[i] := value.value;
        assert View() == v;
      }
    }

    /** sp, lr, pc and cpsr. */
    method ReadSpecial(ghost bytes: seq<byte>, tail: seq<byte>) returns (rest: seq<byte>)
      requires Valid() && bytes == Below(View(), 13) + tail && |tail| == EXPECTED_LEN - 52
      modifies this
      ensures bytes == Below(View(), 17) + rest && |rest| == EXPECTED_LEN - 68
    {
      rest := ReadSpLr(bytes, tail);
      rest := ReadPcCpsr(bytes, rest);
    }

    method ReadSpLr(ghost bytes: seq<byte>, tail: seq<byte>) returns (rest: seq<byte>)
      requires Valid() && bytes == Below(View(), 13) + tail && |tail| == EXPECTED_LEN - 52
      modifies this`sp, this`lr
      ensures bytes == Below(View(), 15) + rest && |rest| == EXPECTED_LEN - 60
    {
      ghost var v := View();
      var value;
      value, rest := NextU32(tail);
      sp := value.value;
      v := NextSp(bytes, v, sp, rest);
      value, rest := NextU32(rest);
      lr := value.value;
      v := NextLr(bytes, v, lr, rest);
    }

    method ReadPcCpsr(ghost bytes: seq<byte>, tail: seq<byte>) returns (rest: seq<byte>)
      requires Valid() && bytes == Below(View(), 15) + tail && |tail| == EXPECTED_LEN - 60
      modifies this`pc, this`cpsr
      ensures bytes == Below(View(), 17) + rest && |rest| == EXPECTED_LEN - 68
    {
      ghost var v := View();
      var value;
      value, rest := NextU32(tail);
      pc := value.value;
      v := NextPc(bytes, v, pc, rest);
      value, rest := NextU32(rest);
      cpsr := value.value;
      v := NextCpsr(bytes, v, cpsr, rest);
    }

    method ReadVector(ghost bytes: seq<byte>, tail: seq<byte>) returns (rest: seq<byte>)
      requires Valid() && bytes == Below(View(), 17) + tail && |tail| == EXPECTED_LEN - 68
      modifies d
      ensures bytes == Below(View(), 49) + rest && |rest| == 4
    {
      rest := tail;
      for i := 0 to 32
        invariant bytes == Below(View(), 17 + i) + rest && |rest| == EXPECTED_LEN - 68 - 8 * i
      {
        ghost var v := View();
        var value;
        value, rest := NextU64(rest);
        assert value.Some?;
        v := NextD(bytes, v, i, value.value, rest);
        d[i] := value.value;
        assert View() == v;
      }
    }
  }
}
