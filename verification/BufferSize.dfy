/** The size that a driver accepts for a ring buffer. */
module BufferSize {
  import opened Powers
  import opened Words
  import opened TxRecords

  /** n & m, bit by bit. */
  function And(n: nat, m: nat): nat {
    if n == 0 then 0 else 2 * And(n / 2, m / 2) + if n % 2 == 1 && m % 2 == 1 then 1 else 0
  }

  lemma {:induction false} AndHalf(n: nat, m: nat)
    ensures And(n, m) / 2 == And(n / 2, m / 2)
    ensures And(n, m) % 2 == 1 <==> n % 2 == 1 && m % 2 == 1
  {
  }

  /** Every bit of the conjunction is set if it is set in both operands. */
  lemma {:induction false} AndBit(n: nat, m: nat, i: nat)
    ensures Bit(And(n, m), i) <==> Bit(n, i) && Bit(m, i)
    decreases i
  {
    AndHalf(n, m);
    if i > 0 {
      BitOfHalf(And(n, m), i - 1);
      BitOfHalf(n, i - 1);
      BitOfHalf(m, i - 1);
      AndBit(n / 2, m / 2, i - 1);
    } else {
      BitOfHalf(And(n, m), 0);
      BitOfHalf(n, 0);
      BitOfHalf(m, 0);
    }
  }

  lemma {:induction false} AndSelf(n: nat)
    ensures And(n, n) == n
  {
    if n > 0 { AndSelf(n / 2); }
  }

  ghost predicate IsPowerOfTwo(n: nat) { exists k: nat :: n == Pow2(k) }

  lemma {:induction false} HalfOfPower(n: nat)
    requires n > 0
    ensures IsPowerOfTwo(n) <==> n == 1 || (n % 2 == 0 && IsPowerOfTwo(n / 2))
  {
    if k: nat :| n == Pow2(k) {
      if k > 0 { assert n == 2 * Pow2(k - 1); }
    }
    if n == 1 { assert n == Pow2(0); }
    if k: nat :| n % 2 == 0 && n / 2 == Pow2(k) { assert n == Pow2(k + 1); }
  }

  /** n & (n - 1) clears the lowest set bit, so it is 0 only for a power of two. */
  lemma {:induction false} PowerOfTwoTest(n: nat)
    requires n > 0
    ensures And(n, n - 1) == 0 <==> IsPowerOfTwo(n)
  {
    HalfOfPower(n);
    if n % 2 == 1 {
      AndSelf(n / 2);
      assert (n - 1) / 2 == n / 2;
    } else {
      PowerOfTwoTest(n / 2);
      assert (n - 1) / 2 == n / 2 - 1;
    }
  }

  lemma {:induction false} WholeWords(n: nat)
    requires n >= 4
    ensures IsPowerOfTwo(n) ==> n % 4 == 0
  {
    HalfOfPower(n);
    HalfOfPower(n / 2);
  }

  /** The driver's check of a buffer resource: accepted are exactly the powers of two from 2 KiB to
      64 MiB, and in a ring of such a size the largest record always fits once it has drained. */
  method ValidateBufSize(size: nat) returns (ok: bool)
    ensures ok <==> 2048 <= size <= 0x400_0000 && IsPowerOfTwo(size)
    ensures ok ==> size % 4 == 0 && 4 * RecordWords(1514) <= size - 4
  {
    if size > 0xFFFF_FFFF { return false; }
    if size >= 4 {
      PowerOfTwoTest(size);
      WholeWords(size);
    }
    ok := !(size < 2048 || size > 0x400_0000 || size % 4 != 0 || And(size, size - 1) != 0);
  }
}
