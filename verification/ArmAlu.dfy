/** What the arithmetic, bitwise and shift opcodes compute (arm-next-pc/src/lib.rs:273-320), against section
    A2.2.1 of ARM DDI 0406C. */
module ArmAlu {
  import opened Words
  import opened ArmManual
  import opened ArmNextPc
  import opened WordBits

  // ---- Arithmetic

  /** ADD and ADC are the manual's AddWithCarry. */
  lemma AdditionIsAddWithCarry(first: u32, second: u32, c: bool)
    ensures Alu2(ADD, first, second, c) == Some(AddWithCarry(first, second, false).result)
    ensures Alu2(ADC, first, second, c) == Some(AddWithCarry(first, second, c).result)
  {
    WrapsOnce(first + second, if c then 1 else 0);
  }

  /** SUB, SBC, RSB and RSC are AddWithCarry with one operand complemented. */
  lemma SubtractionIsAddWithCarry(first: u32, second: u32, c: bool)
    ensures Alu2(SUB, first, second, c) == Some(AddWithCarry(first, Not(second), true).result)
    ensures Alu2(SBC, first, second, c) == Some(AddWithCarry(first, Not(second), c).result)
    ensures Alu2(RSB, first, second, c) == Some(AddWithCarry(Not(first), second, true).result)
    ensures Alu2(RSC, first, second, c) == Some(AddWithCarry(Not(first), second, c).result)
  {
    Subtraction(first, second, if c then 1 else 0);
    Subtraction(second, first, if c then 1 else 0);
  }

  /** Subtracting is adding the complement and 1, or the carry when there is a borrow. */
  lemma Subtraction(a: u32, b: u32, carry: nat)
    requires carry <= 1
    ensures WrappingSub(a, b) == (a + Not(b) + 1) % TWO_TO_THE_32
    ensures WrappingSub(WrappingSub(a, b), 1 - carry) == (a + Not(b) + carry) % TWO_TO_THE_32
  {
    WrapsOnce(a - b, carry - 1);
    WrapOf(a - b);
    WrapOf(a - b + TWO_TO_THE_32);
    WrapOf(a - b + carry - 1);
    WrapOf(a - b + carry - 1 + TWO_TO_THE_32);
  }

  // ---- Shifts

  /** A power of two past the word size is a multiple of the word size. */
  lemma LargePower(s: nat)
    requires s >= 32
    ensures exists k :: k > 0 && Pow2(s) == TWO_TO_THE_32 * k
  {
    Pow2Adds(32, s - 32);
    WordSize();
    var k := Pow2(s - 32);
    assert k > 0 && Pow2(s) == TWO_TO_THE_32 * k;
  }

  lemma LslIs(x: u32, s: nat)
    ensures Lsl(x, s) == x * Pow2(s) % TWO_TO_THE_32
  {
    if s == 0 {
      WrapOf(x);
    } else if s <= 31 {
      ShiftLeftIs(x, s);
    } else {
      LargePower(s);
      var k :| k > 0 && Pow2(s) == TWO_TO_THE_32 * k;
      Multiple(x, k);
    }
  }

  lemma Multiple(x: nat, k: nat)
    ensures x * (TWO_TO_THE_32 * k) % TWO_TO_THE_32 == 0
  {
    DivMod(x * (TWO_TO_THE_32 * k), TWO_TO_THE_32, x * k, 0);
  }

  lemma LsrIs(x: u32, s: nat)
    ensures Lsr(x, s) == x / Pow2(s)
  {
    if 0 < s <= 31 {
      ShiftRightIs(x, s);
    } else if s >= 32 {
      LargePower(s);
      SignOnly(x, Pow2(s));
    }
  }

  lemma AsrIs(x: u32, s: nat)
    ensures Asr(x, s) == SInt(x) / Pow2(s) % TWO_TO_THE_32
  {
    if s == 0 {
      WrapOf(SInt(x));
    } else if s <= 31 {
      AsrWithin(x, s);
    } else {
      LargePower(s);
      SignOnly(SInt(x), Pow2(s));
      WrapOf(-1);
    }
  }

  lemma AsrWithin(x: u32, s: nat)
    requires 0 < s <= 31
    ensures Asr(x, s) == SInt(x) / Pow2(s) % TWO_TO_THE_32
  {
    TopBit(x);
    if x >= 0x8000_0000 {
      SignedShiftRightIs(x, s);
    } else {
      ShiftRightIs(x, s);
      WrapOf(x / Pow2(s));
    }
  }

  lemma TopBit(x: u32)
    ensures Bits(x)[31] <==> x >= 0x8000_0000
  {
    BitAt(x, 32, 31);
    WordSize();
  }

  lemma SignOnly(x: int, p: nat)
    requires 0 <= x + p && x < p
    ensures x / p == if x < 0 then -1 else 0
  {
    if x < 0 {
      DivMod(x, p, -1, x + p);
    } else {
      DivMod(x, p, 0, x);
    }
  }

  /** LSL by 0 to 255, bits moved up, multiplies by a power of two. */
  lemma LslScales(x: u32, second: u32, c: bool)
    ensures Alu2(LSL, x, second, c) == Some(x * Pow2(second % 0x100) % TWO_TO_THE_32)
  {
    LslIs(x, second % 0x100);
  }

  /** LSR by 0 to 255, bits moved down, is floor division by a power of two. */
  lemma LsrScales(x: u32, second: u32, c: bool)
    ensures Alu2(LSR, x, second, c) == Some(x / Pow2(second % 0x100))
  {
    LsrIs(x, second % 0x100);
  }

  /** ASR by 0 to 255, bits moved down under copies of the sign, is floor division of the signed number. */
  lemma AsrScales(x: u32, second: u32, c: bool)
    ensures Alu2(ASR, x, second, c) == Some(SInt(x) / Pow2(second % 0x100) % TWO_TO_THE_32)
  {
    AsrIs(x, second % 0x100);
  }

  // ---- Rotation

  lemma RorIterates(x: u32, shift: nat)
    ensures Ror(x, shift) == Rotate(x, shift)
  {
    RotateBitsIterates(x, shift, shift / 32, shift % 32);
    if shift % 32 == 0 {
      WordOfBits(x);
      assert RotateBits(Bits(x), 0) == Bits(x);
    }
  }

  /** ROR by 0 to 255 is that many one-bit rotations. */
  lemma RotationIterates(first: u32, second: u32, c: bool)
    ensures Alu2(ROR, first, second, c) == Some(Rotate(first, second % 0x100))
  {
    RorIterates(first, second % 0x100);
  }

  /** RRX is one rotation of the word whose bit 0 is replaced by the carry. */
  lemma RrxRotatesThroughCarry(insn: Insn, regs: RegContext)
    requires insn.opcode == RRX && ValueOf(insn.op1, regs).Some?
    ensures var x := ValueOf(insn.op1, regs).value;
            EvalAlu(insn, regs) == Some(RotateOnce(x - x % 2 + if CondFlags(regs).c then 1 else 0))
  {
    var x, carry := ValueOf(insn.op1, regs).value, CondFlags(regs).c;
    RrxEvaluates(insn, regs, x, carry);
    RrxIs(x, carry);
  }

  lemma RrxEvaluates(insn: Insn, regs: RegContext, x: u32, carry: bool)
    requires insn.opcode == RRX && ValueOf(insn.op1, regs) == Some(x) && CondFlags(regs).c == carry
    ensures EvalAlu(insn, regs) == Some(Rrx(x, carry))
  {
  }

  lemma RrxIs(x: u32, carry: bool)
    ensures Rrx(x, carry) == RotateOnce(x - x % 2 + if carry then 1 else 0)
  {
    var c := if carry then 1 else 0;
    var b, top := Bits(x), x - x % 2 + c;
    var high := b[1..];
    assert top / 2 == x / 2 && top % 2 == c;
    assert Bits(top) == [carry] + high;
    assert RotateBits(Bits(top), 1) == high + [carry];
    CarryOnTop(b, Bits(c), carry);
    RotateBitsOnce(top);
  }

  lemma CarryOnTop(b: Bits32, low: Bits32, carry: bool)
    requires low[0] == carry
    ensures CombineBits(ORR, ShiftRight(b, 1, false), ShiftLeft(low, 31)) == b[1..] + [carry]
  {
  }

  // ---- Bitwise

  /** AND, EOR, ORR and BIC act on each of the 32 bits by itself. */
  lemma BitwiseActsBitByBit(op: Opcode, first: u32, second: u32, c: bool, j: nat)
    requires op in {AND, EOR, ORR, BIC} && j < 32
    ensures Alu2(op, first, second, c).Some?
    ensures Bit(Alu2(op, first, second, c).value, j) == BitOf(op, Bit(first, j), Bit(second, j))
  {
    var r := CombineBits(op, Bits(first), Bits(second));
    BitsOfWord(r);
    BitAt(Word(r), 32, j);
    BitAt(first, 32, j);
    BitAt(second, 32, j);
  }

  lemma {:induction false} CombinedNumbers(a: seq<bool>, b: seq<bool>)
    requires |a| == |b|
    ensures NumberOf(CombineBits(AND, a, b)) + NumberOf(CombineBits(ORR, a, b)) == NumberOf(a) + NumberOf(b)
    ensures NumberOf(CombineBits(EOR, a, b)) + 2 * NumberOf(CombineBits(AND, a, b)) == NumberOf(a) + NumberOf(b)
    ensures NumberOf(CombineBits(BIC, a, b)) + NumberOf(CombineBits(AND, a, b)) == NumberOf(a)
    decreases |a|
  {
    if a != [] {
      CombinedNumbers(a[1..], b[1..]);
    }
  }

  /** As numbers: AND holds what is in both, ORR what is in either, EOR what is in one, BIC what is in the first
      only. */
  lemma BitwiseAddsUp(first: u32, second: u32, c: bool)
    ensures Alu2(AND, first, second, c).Some? && Alu2(ORR, first, second, c).Some?
    ensures Alu2(EOR, first, second, c).Some? && Alu2(BIC, first, second, c).Some?
    ensures var both := Alu2(AND, first, second, c).value;
            && both + Alu2(ORR, first, second, c).value == first + second
            && 2 * both + Alu2(EOR, first, second, c).value == first + second
            && both + Alu2(BIC, first, second, c).value == first
  {
    CombinedNumbers(Bits(first), Bits(second));
    WordOfBits(first);
    WordOfBits(second);
  }

  lemma MaskedBits(b: Bits32, k: nat)
    requires k <= 32
    ensures CombineBits(AND, b, Fill(true, k) + Fill(false, 32 - k)) == b[..k] + Fill(false, 32 - k)
  {
  }

  /** The word with the k lowest bits set. */
  lemma MaskWord(k: nat)
    requires k <= 32
    ensures 0 <= Pow2(k) - 1 < TWO_TO_THE_32
    ensures Bits(Pow2(k) - 1) == Fill(true, k) + Fill(false, 32 - k)
  {
    var low: Bits32 := Fill(true, k) + Fill(false, 32 - k);
    NumberOfFill(true, k);
    ZerosOnTop(Fill(true, k), 32 - k);
    assert Word(low) == Pow2(k) - 1;
    BitsOfWord(low);
  }

  lemma LowBits(x: u32, k: nat)
    requires k <= 32
    ensures NumberOf(Bits(x)[..k] + Fill(false, 32 - k)) == x % Pow2(k)
  {
    ZerosOnTop(Bits(x)[..k], 32 - k);
    NumberOfParts(Bits(x), k);
    WordOfBits(x);
  }

  /** A mask of the k lowest bits takes the remainder by 2^k, and clearing them takes it away. */
  lemma LowMask(x: u32, k: nat, c: bool)
    requires k <= 32
    ensures 0 <= Pow2(k) - 1 < TWO_TO_THE_32
    ensures Alu2(AND, x, Pow2(k) - 1, c) == Some(x % Pow2(k))
    ensures Alu2(BIC, x, Pow2(k) - 1, c) == Some(x - x % Pow2(k))
  {
    MaskWord(k);
    MaskedBits(Bits(x), k);
    LowBits(x, k);
    BitwiseAddsUp(x, Pow2(k) - 1, c);
  }

  lemma InvertedIs(x: u32, ones: Bits32)
    requires ones == Fill(true, 32)
    ensures Inverted(x) == Not(x)
  {
    CombinedNumbers(ones, Bits(x));
    NumberOfFill(true, 32);
    WordSize();
    WordOfBits(x);
    AllOnes(ones, Bits(x));
  }

  lemma AllOnes(ones: Bits32, b: Bits32)
    requires forall j :: 0 <= j < 32 ==> ones[j]
    ensures CombineBits(AND, ones, b) == b
  {
  }

  /** MVN takes the operand from 2^32 - 1. */
  lemma MvnIsNot(insn: Insn, regs: RegContext)
    requires insn.opcode == MVN && ValueOf(insn.op1, regs).Some?
    ensures EvalAlu(insn, regs) == Some(Not(ValueOf(insn.op1, regs).value))
  {
    var x := ValueOf(insn.op1, regs).value;
    MvnEvaluates(insn, regs, x);
    InvertedIs(x, Fill(true, 32));
  }

  lemma MvnEvaluates(insn: Insn, regs: RegContext, x: u32)
    requires insn.opcode == MVN && ValueOf(insn.op1, regs) == Some(x)
    ensures EvalAlu(insn, regs) == Some(Inverted(x))
  {
  }
}
