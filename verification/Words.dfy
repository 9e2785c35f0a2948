/** Machine words as integers, their little-endian byte layout, and optional values. */
module Words {
  const TWO_TO_THE_32 := 0x1_0000_0000

  type byte = x: int | 0 <= x < 0x100
  type u32 = x: int | 0 <= x < TWO_TO_THE_32

  /** A quotient and remainder that fit are the quotient and remainder. */
  lemma DivMod(a: int, p: int, q: int, r: int)
    requires p > 0 && a == p * q + r && 0 <= r < p
    ensures a / p == q && a % p == r
  {
    var d := a / p - q;
    assert p * d == r - a % p;
    assert d >= 1 ==> p * d >= p;
    assert d <= -1 ==> p * d <= -p;
  }

  /** Reducing modulo 2^32 in between changes nothing. */
  lemma WrapsOnce(x: int, d: int)
    ensures (x % TWO_TO_THE_32 + d) % TWO_TO_THE_32 == (x + d) % TWO_TO_THE_32
  {
    var y := x % TWO_TO_THE_32 + d;
    DivMod(x + d, TWO_TO_THE_32, x / TWO_TO_THE_32 + y / TWO_TO_THE_32, y % TWO_TO_THE_32);
  }

  /** Wrapping a number that is at most one word out. */
  lemma WrapOf(x: int)
    requires -TWO_TO_THE_32 <= x < 2 * TWO_TO_THE_32
    ensures x < 0 ==> x % TWO_TO_THE_32 == x + TWO_TO_THE_32
    ensures 0 <= x < TWO_TO_THE_32 ==> x % TWO_TO_THE_32 == x
    ensures TWO_TO_THE_32 <= x ==> x % TWO_TO_THE_32 == x - TWO_TO_THE_32
  {
    if x < 0 {
      DivMod(x, TWO_TO_THE_32, -1, x + TWO_TO_THE_32);
    } else if x >= TWO_TO_THE_32 {
      DivMod(x, TWO_TO_THE_32, 1, x - TWO_TO_THE_32);
    }
  }

  type pos = x: nat | x > 0 witness 1

  /** `as usize` on a 32-bit machine. */
  function Truncated(n: nat): nat {
    if n < TWO_TO_THE_32 then n else Truncated(n - TWO_TO_THE_32)
  }

  lemma {:induction false} TruncatedIs(n: nat)
    ensures Truncated(n) == n % TWO_TO_THE_32
  {
    if n >= TWO_TO_THE_32 {
      TruncatedIs(n - TWO_TO_THE_32);
      DivMod(n, TWO_TO_THE_32, (n - TWO_TO_THE_32) / TWO_TO_THE_32 + 1, (n - TWO_TO_THE_32) % TWO_TO_THE_32);
    }
  }

  datatype Option<+T> = None | Some(value: T)

  /** 256 to the power of k: one more than the largest number k bytes hold. */
  function Span(k: nat): (s: nat)
    ensures s > 0
  {
    if k == 0 then 1 else 0x100 * Span(k - 1)
  }

  /** from_le_bytes. */
  function FromLe(bytes: seq<byte>): nat {
    if bytes == [] then 0 else bytes[0] + 0x100 * FromLe(bytes[1..])
  }

  /** to_le_bytes of a k-byte word. */
  function ToLe(n: nat, k: nat): (bytes: seq<byte>)
    ensures |bytes| == k
  {
    if k == 0 then [] else [n % 0x100] + ToLe(n / 0x100, k - 1)
  }

  lemma {:induction false} FromLeBound(bytes: seq<byte>)
    ensures FromLe(bytes) < Span(|bytes|)
  {
    if bytes != [] {
      FromLeBound(bytes[1..]);
    }
  }

  /** A k-byte word survives being laid out and read back. */
  lemma {:induction false} FromLeToLe(n: nat, k: nat)
    requires n < Span(k)
    ensures FromLe(ToLe(n, k)) == n
  {
    if k > 0 {
      FromLeToLe(n / 0x100, k - 1);
      assert ToLe(n, k)[1..] == ToLe(n / 0x100, k - 1);
    }
  }

  /** Bytes survive being read as a word and laid out again. */
  lemma {:induction false} ToLeFromLe(bytes: seq<byte>)
    ensures ToLe(FromLe(bytes), |bytes|) == bytes
  {
    if bytes != [] {
      var rest := FromLe(bytes[1..]);
      ToLeFromLe(bytes[1..]);
      DivMod(FromLe(bytes), 0x100, rest, bytes[0]);
      assert bytes == [bytes[0]] + bytes[1..];
    }
  }

  /** Four bytes read as a word. */
  lemma FourBytes(b: seq<byte>)
    requires |b| == 4
    ensures FromLe(b) == b[0] as int + b[1] as int * 0x100 + b[2] as int * 0x1_0000 + b[3] as int * 0x100_0000
  {
    var b1, b2, b3 := b[1..], b[2..], b[3..];
    assert b1[1..] == b2 && b2[1..] == b3 && b3[1..] == [];
    assert FromLe(b3) == b3[0];
    assert FromLe(b2) == b2[0] + 0x100 * FromLe(b3);
    assert FromLe(b1) == b1[0] + 0x100 * FromLe(b2);
  }
}
