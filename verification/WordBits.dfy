/** Numbers as their bits, lowest first, and the shift and rotate operators on bits. */
module WordBits {
  import opened Words
  import opened ArmManual

  /** The lowest k bits of a number. */
  function BitsOf(x: nat, k: nat): (b: seq<bool>)
    ensures |b| == k
    decreases x, k
  {
    if k == 0 then [] else [x % 2 == 1] + BitsOf(x / 2, k - 1)
  }

  function NumberOf(b: seq<bool>): nat {
    if b == [] then 0 else (if b[0] then 1 else 0) + 2 * NumberOf(b[1..])
  }

  type Bits32 = b: seq<bool> | |b| == 32 witness seq(32, _ => false)

  function Bits(x: u32): Bits32 {
    BitsOf(x, 32)
  }

  function Word(b: Bits32): u32 {
    NumberBelow(b);
    WordSize();
    NumberOf(b)
  }

  function Fill(bit: bool, n: nat): seq<bool> {
    seq(n, _ => bit)
  }

  /** Bit j of the result is bit j - s; the lowest s are clear. */
  function ShiftLeft(b: Bits32, s: nat): Bits32
    requires s <= 32
  {
    Fill(false, s) + b[..32 - s]
  }

  /** Bit j of the result is bit j + s; the highest s are `fill`: clear, or copies of the sign. */
  function ShiftRight(b: Bits32, s: nat, fill: bool): Bits32
    requires s <= 32
  {
    b[s..] + Fill(fill, s)
  }

  /** The lowest s bits come back in at the top. */
  function RotateBits(b: Bits32, s: nat): Bits32
    requires s <= 32
  {
    b[s..] + b[..s]
  }

  // ---- Numbers and bits

  lemma {:induction false} NumberBelow(b: seq<bool>)
    ensures NumberOf(b) < Pow2(|b|)
  {
    if b != [] {
      NumberBelow(b[1..]);
    }
  }

  lemma {:induction false} NumberOfBits(x: nat, k: nat)
    requires x < Pow2(k)
    ensures NumberOf(BitsOf(x, k)) == x
    decreases k
  {
    if k > 0 {
      NumberOfBits(x / 2, k - 1);
      assert BitsOf(x, k)[1..] == BitsOf(x / 2, k - 1);
    }
  }

  lemma {:induction false} BitsOfNumber(b: seq<bool>)
    ensures BitsOf(NumberOf(b), |b|) == b
  {
    if b != [] {
      BitsOfNumber(b[1..]);
    }
  }

  lemma WordOfBits(x: u32)
    ensures Word(Bits(x)) == x
  {
    WordSize();
    NumberOfBits(x, 32);
  }

  lemma BitsOfWord(b: Bits32)
    ensures Bits(Word(b)) == b
  {
    BitsOfNumber(b);
  }

  lemma {:induction false} Pow2Adds(m: nat, n: nat)
    ensures Pow2(m + n) == Pow2(m) * Pow2(n)
    decreases m
  {
    if m > 0 {
      Pow2Adds(m - 1, n);
      Regrouped(Pow2(m - 1), Pow2(n));
    }
  }

  lemma Regrouped(p: nat, x: nat)
    ensures 2 * (p * x) == 2 * p * x
  {
  }

  lemma {:induction false} NumberOfBoth(a: seq<bool>, b: seq<bool>)
    ensures NumberOf(a + b) == NumberOf(a) + Pow2(|a|) * NumberOf(b)
    decreases |a|
  {
    if a == [] {
      assert a + b == b;
    } else {
      NumberOfBoth(a[1..], b);
      assert (a + b)[1..] == a[1..] + b;
      Regrouped(Pow2(|a| - 1), NumberOf(b));
    }
  }

  lemma {:induction false} NumberOfFill(bit: bool, n: nat)
    ensures NumberOf(Fill(bit, n)) == if bit then Pow2(n) - 1 else 0
  {
    if n > 0 {
      NumberOfFill(bit, n - 1);
      assert Fill(bit, n)[1..] == Fill(bit, n - 1);
    }
  }

  lemma ZerosOnTop(b: seq<bool>, n: nat)
    ensures NumberOf(b + Fill(false, n)) == NumberOf(b)
  {
    NumberOfBoth(b, Fill(false, n));
    NumberOfFill(false, n);
  }

  /** The bits above s are the quotient by 2^s, those below the remainder. */
  lemma NumberOfParts(b: seq<bool>, s: nat)
    requires s <= |b|
    ensures NumberOf(b[s..]) == NumberOf(b) / Pow2(s) && NumberOf(b[..s]) == NumberOf(b) % Pow2(s)
  {
    assert b == b[..s] + b[s..];
    NumberOfBoth(b[..s], b[s..]);
    NumberBelow(b[..s]);
    DivMod(NumberOf(b), Pow2(s), NumberOf(b[s..]), NumberOf(b[..s]));
  }

  lemma {:induction false} BitAt(x: nat, k: nat, j: nat)
    requires j < k
    ensures BitsOf(x, k)[j] == Bit(x, j)
    decreases k
  {
    if j > 0 {
      BitAt(x / 2, k - 1, j - 1);
      HalfDiv(x, Pow2(j - 1));
    }
  }

  // ---- Halving

  lemma HalfDiv(a: int, p: nat)
    requires p > 0
    ensures a / (2 * p) == a / p / 2 == a / 2 / p
  {
    var q, r := a / (2 * p), a % (2 * p);
    assert a == 2 * p * q + r;
    if r < p {
      assert a == p * (2 * q) + r;
      DivMod(a, p, 2 * q, r);
    } else {
      assert a == p * (2 * q + 1) + (r - p);
      DivMod(a, p, 2 * q + 1, r - p);
    }
    assert a / 2 == p * q + r / 2;
    DivMod(a / 2, p, q, r / 2);
  }

  lemma HalfMod(x: nat, p: nat)
    requires p > 0
    ensures x % (2 * p) / 2 == x / 2 % p && x % (2 * p) % 2 == x % 2
  {
    var q, r := x / (2 * p), x % (2 * p);
    assert x == 2 * (p * q) + r;
    assert x / 2 == p * q + r / 2;
    DivMod(x / 2, p, q, r / 2);
  }

  // ---- What the operators compute

  lemma ShiftLeftIs(x: u32, s: nat)
    requires s <= 32
    ensures Word(ShiftLeft(Bits(x), s)) == x * Pow2(s) % TWO_TO_THE_32
  {
    var p, w := Pow2(s), Pow2(32 - s);
    WholeWord(s);
    ZerosBelow(x, s, p, w);
    Scaled(x, p, w);
  }

  lemma ZerosBelow(x: u32, s: nat, p: nat, w: nat)
    requires s <= 32 && p == Pow2(s) && w == Pow2(32 - s)
    ensures Word(ShiftLeft(Bits(x), s)) == p * (x % w)
  {
    var b := Bits(x);
    WordOfBits(x);
    NumberOfFill(false, s);
    NumberOfBoth(Fill(false, s), b[..32 - s]);
    NumberOfParts(b, 32 - s);
  }

  lemma Scaled(x: nat, p: nat, w: nat)
    requires w > 0 && p * w == TWO_TO_THE_32
    ensures x * p % TWO_TO_THE_32 == p * (x % w)
  {
    var q, r := x / w, x % w;
    assert x * p == (w * q + r) * p == (p * w) * q + p * r;
    assert p * r <= p * (w - 1) == p * w - p;
    DivMod(x * p, TWO_TO_THE_32, q, p * r);
  }

  lemma ShiftRightIs(x: u32, s: nat)
    requires s <= 32
    ensures Word(ShiftRight(Bits(x), s, false)) == x / Pow2(s)
  {
    var b := Bits(x);
    WordOfBits(x);
    ZerosOnTop(b[s..], s);
    NumberOfParts(b, s);
  }

  lemma SignedShiftRightIs(x: u32, s: nat)
    requires s <= 32 && x >= 0x8000_0000
    ensures Word(ShiftRight(Bits(x), s, true)) == SInt(x) / Pow2(s) % TWO_TO_THE_32
  {
    var p, w := Pow2(s), Pow2(32 - s);
    WholeWord(s);
    OnesOnTop(x, s, p, w);
    SignedQuotient(x, p, w);
  }

  lemma WholeWord(s: nat)
    requires s <= 32
    ensures Pow2(32 - s) * Pow2(s) == TWO_TO_THE_32 && Pow2(s) * Pow2(32 - s) == TWO_TO_THE_32
  {
    WordSize();
    Pow2Adds(32 - s, s);
    Pow2Adds(s, 32 - s);
  }

  lemma OnesOnTop(x: u32, s: nat, p: nat, w: nat)
    requires s <= 32 && p == Pow2(s) && w == Pow2(32 - s)
    ensures Word(ShiftRight(Bits(x), s, true)) == x / p + w * (p - 1)
  {
    var b := Bits(x);
    WordOfBits(x);
    NumberOfFill(true, s);
    NumberOfBoth(b[s..], Fill(true, s));
    NumberOfParts(b, s);
  }

  lemma SignedQuotient(x: u32, p: nat, w: nat)
    requires x >= 0x8000_0000 && p > 0 && w * p == TWO_TO_THE_32
    ensures SInt(x) / p % TWO_TO_THE_32 == x / p + w * (p - 1)
  {
    var q, r := x / p, x % p;
    assert x == p * q + r;
    Below(p, q, w);
    assert SInt(x) == p * (q - w) + r;
    DivMod(SInt(x), p, q - w, r);
    assert w * (p - 1) == TWO_TO_THE_32 - w;
    AtLeast(p, w);
    WrapOf(q - w);
  }

  lemma AtLeast(p: nat, q: int)
    requires p > 0
    ensures q >= 0 ==> p * q >= q
    ensures q < 0 ==> p * q + p <= 0
  {
    if q >= 0 {
      Grows(p, q);
    } else {
      Grows(p, -q);
      assert p * q == -(p * -q);
      Positive(p, -q - 1);
      assert p * (-q - 1) == p * -q - p;
    }
  }

  lemma Positive(p: nat, q: nat)
    ensures p * q >= 0
  {
  }

  lemma {:induction false} Grows(p: nat, q: nat)
    requires p > 0
    ensures p * q >= q
    decreases q
  {
    if q > 0 {
      Grows(p, q - 1);
      assert p * q == p * (q - 1) + p;
    }
  }

  lemma Below(p: nat, q: int, w: nat)
    requires p > 0 && 0 < p * q + p && p * q < p * w
    ensures 0 <= q < w
  {
    var d := q - w;
    assert p * d == p * q - p * w;
    AtLeast(p, d);
    AtLeast(p, q);
  }

  lemma RotateBitsOnce(x: u32)
    ensures Word(RotateBits(Bits(x), 1)) == RotateOnce(x)
  {
    var b := Bits(x);
    WordOfBits(x);
    NumberOfBoth(b[1..], b[..1]);
    NumberOfParts(b, 1);
    WordSize();
  }

  /** Rotating bit by bit goes round after 32. */
  lemma {:induction false} RotateBitsIterates(x: u32, n: nat, q: int, s: nat)
    requires n == 32 * q + s && s < 32
    ensures Word(RotateBits(Bits(x), s)) == Rotate(x, n)
    decreases n
  {
    if n == 0 {
      WordOfBits(x);
      assert RotateBits(Bits(x), 0) == Bits(x);
    } else {
      var before := if s == 0 then 31 else s - 1;
      RotateBitsIterates(x, n - 1, if s == 0 then q - 1 else q, before);
      OneBitFurther(x, before);
    }
  }

  lemma OneBitFurther(x: u32, s: nat)
    requires s < 32
    ensures Word(RotateBits(Bits(x), if s == 31 then 0 else s + 1)) == RotateOnce(Word(RotateBits(Bits(x), s)))
  {
    var r := RotateBits(Bits(x), s);
    BitsOfWord(r);
    RotateBitsOnce(Word(r));
    OneFurther(Bits(x), s);
  }

  lemma OneFurther(b: Bits32, s: nat)
    requires s < 32
    ensures RotateBits(RotateBits(b, s), 1) == RotateBits(b, if s == 31 then 0 else s + 1)
  {
  }
}
