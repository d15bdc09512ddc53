/** Powers of two and the little nonlinear arithmetic the hardware proofs need. */
module Powers {

  function Pow2(n: nat): (r: nat)
    ensures r >= 1
  {
    if n == 0 then 1 else 2 * Pow2(n - 1)
  }

  lemma {:induction false} PowSum(a: nat, b: nat)
    ensures Pow2(a) * Pow2(b) == Pow2(a + b)
  {
    if a > 0 {
      PowSum(a - 1, b);
      TwiceTimes(Pow2(a - 1), Pow2(b));
    }
  }

  lemma {:induction false} TwiceTimes(x: nat, y: nat)
    ensures (2 * x) * y == 2 * (x * y)
  {
  }

  lemma {:induction false} TimesNext(x: nat, y: nat)
    ensures (x + 1) * y == x * y + y
  {
  }

  lemma {:induction false} PowMono(a: nat, b: nat)
    requires a <= b
    ensures Pow2(a) <= Pow2(b)
  {
    if a < b { PowMono(a, b - 1); }
  }

  lemma {:induction false} PowFacts()
    ensures Pow2(31) == 0x8000_0000 && Pow2(32) == 0x1_0000_0000
  {
    assert Pow2(8) == 256;
    PowSum(8, 8);
    PowSum(16, 15);
    assert Pow2(15) == 0x8000;
  }

  lemma {:induction false} MulMono(x: nat, y: nat, w: nat)
    requires x <= y
    ensures x * w <= y * w
  {
  }

  lemma {:induction false} MulLess(x: nat, y: nat, w: nat)
    requires x < y
    ensures x * w + w <= y * w
  {
    MulMono(x + 1, y, w);
  }

  lemma {:induction false} SmallMultipleIsZero(d: int, n: int)
    requires n > 0 && -n < d * n < n
    ensures d == 0
  {
  }

  lemma {:induction false} DivModUnique(l: nat, n: nat, q: nat, r: nat)
    requires n > 0 && r < n && l == q * n + r
    ensures l / n == q && l % n == r
  {
    var q', r' := l / n, l % n;
    assert q' * n + r' == q * n + r;
    assert (q' - q) * n == q' * n - q * n;
    SmallMultipleIsZero(q' - q, n);
  }
}
