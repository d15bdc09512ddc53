/** 32-bit machine words as numbers, with the hardware's wrap-around written out. */
module Words {
  import opened Powers

  const TWO31: nat := 0x8000_0000
  const TWO32: nat := 0x1_0000_0000
  const TWO64: nat := 0x1_0000_0000_0000_0000

  type Word = w: nat | w < TWO32

  type DoubleWord = w: nat | w < TWO64

  function Add(a: Word, b: Word): Word { (a + b) % TWO32 }

  /** ~a + 1 */
  function Neg(a: Word): Word { (TWO32 - a) % TWO32 }

  /** The two's-complement reading of a word. */
  function Signed(a: Word): int { if a >= TWO31 then a - TWO32 else a }

  /** The word that an integer is truncated to. */
  function Wrap(i: int): Word { i % TWO32 }

  /** Bitwise OR, from the low bit up. */
  function OrBits(a: nat, b: nat, n: nat): (r: nat)
    ensures r < Pow2(n)
  {
    if n == 0 then 0
    else 2 * OrBits(a / 2, b / 2, n - 1) + if a % 2 == 1 || b % 2 == 1 then 1 else 0
  }

  /** Bitwise exclusive or, from the low bit up. */
  function XorBits(a: nat, b: nat, n: nat): (r: nat)
    ensures r < Pow2(n)
  {
    if n == 0 then 0
    else 2 * XorBits(a / 2, b / 2, n - 1) + if a % 2 == b % 2 then 0 else 1
  }

  function Xor(a: Word, b: Word): Word {
    PowFacts();
    XorBits(a, b, 32)
  }

  function Or(a: Word, b: Word): Word {
    PowFacts();
    OrBits(a, b, 32)
  }

  lemma {:induction false} OrBitsZero(a: nat, n: nat)
    requires a < Pow2(n)
    ensures OrBits(a, 0, n) == a && OrBits(0, a, n) == a
  {
    if n > 0 { OrBitsZero(a / 2, n - 1); }
  }

  /** Bit `i` of a number. */
  function Bit(a: nat, i: nat): bool { a / Pow2(i) % 2 == 1 }

  lemma {:induction false} BitOfHalf(a: nat, i: nat)
    ensures Bit(a, i + 1) == Bit(a / 2, i)
    ensures Bit(a, 0) == (a % 2 == 1)
  {
    DivTwice(a, Pow2(i));
  }

  lemma {:induction false} DivTwice(a: nat, m: nat)
    requires m > 0
    ensures a / (2 * m) == a / 2 / m
  {
    var q, r := a / 2 / m, a / 2 % m;
    assert a == 2 * (a / 2) + a % 2 && a / 2 == q * m + r;
    DivModUnique(a, 2 * m, q, 2 * r + a % 2);
  }

  /** Every bit of the disjunction is that of one operand or of the other. */
  lemma {:induction false} OrBit(a: nat, b: nat, n: nat, i: nat)
    requires i < n
    ensures Bit(OrBits(a, b, n), i) <==> Bit(a, i) || Bit(b, i)
  {
    BitOfHalf(OrBits(a, b, n), i - if i > 0 then 1 else 0);
    if i > 0 {
      BitOfHalf(a, i - 1);
      BitOfHalf(b, i - 1);
      OrBit(a / 2, b / 2, n - 1, i - 1);
    } else {
      BitOfHalf(a, 0);
      BitOfHalf(b, 0);
    }
  }

  /** Every bit of the exclusive disjunction is set if the operands differ there. */
  lemma {:induction false} XorBit(a: nat, b: nat, n: nat, i: nat)
    requires i < n
    ensures Bit(XorBits(a, b, n), i) <==> Bit(a, i) != Bit(b, i)
  {
    if i > 0 {
      BitOfHalf(XorBits(a, b, n), i - 1);
      BitOfHalf(a, i - 1);
      BitOfHalf(b, i - 1);
      XorBit(a / 2, b / 2, n - 1, i - 1);
    } else {
      BitOfHalf(XorBits(a, b, n), 0);
      BitOfHalf(a, 0);
      BitOfHalf(b, 0);
    }
  }

  lemma {:induction false} ModTwice(a: nat, m: nat)
    requires m > 0
    ensures a % (2 * m) == 2 * (a / 2 % m) + a % 2
  {
    var q, r := a / 2 / m, a / 2 % m;
    assert a == 2 * (a / 2) + a % 2 && a / 2 == q * m + r;
    DivModUnique(a, 2 * m, q, 2 * r + a % 2);
  }

  lemma {:induction false} XorBitsZero(a: nat, n: nat)
    requires a < Pow2(n)
    ensures XorBits(a, 0, n) == a
  {
    if n > 0 { XorBitsZero(a / 2, n - 1); }
  }

  /** A second operand of `k` bits leaves the bits above alone. */
  lemma {:induction false} XorLow(a: nat, b: nat, k: nat, n: nat)
    requires k <= n && a < Pow2(n) && b < Pow2(k)
    ensures XorBits(a, b, n) == a - a % Pow2(k) + XorBits(a % Pow2(k), b, k)
  {
    if k == 0 {
      XorBitsZero(a, n);
    } else {
      ModTwice(a, Pow2(k - 1));
      XorLow(a / 2, b / 2, k - 1, n - 1);
    }
  }

  lemma {:induction false} OrZero(a: Word)
    ensures Or(a, 0) == a && Or(0, a) == a
  {
    PowFacts();
    OrBitsZero(a, 32);
  }

  lemma {:induction false} NegIsMinus(a: Word)
    ensures Neg(a) == Wrap(-(a as int))
    ensures a >= TWO31 ==> Neg(a) == -Signed(a)
  {
  }
}
