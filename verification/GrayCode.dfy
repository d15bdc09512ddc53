/** Gray-coded pointers of any width, least significant bit first. */
module GrayCode {

  import opened Powers

  /** p ^ (p >> 1), on `n` bits. */
  function Gray(p: nat, n: nat): (g: seq<bool>)
    ensures |g| == n
  {
    if n == 0 then [] else [(p % 2 == 1) != (p / 2 % 2 == 1)] + Gray(p / 2, n - 1)
  }

  /** The pointer increment: an n-bit register that wraps. */
  function Succ(p: nat, n: nat): nat {
    if p + 1 == Pow2(n) then 0 else p + 1
  }

  /** The pointer half the range away. */
  function HalfTurn(p: nat, n: nat): nat
    requires n > 0
  {
    if p < Pow2(n - 1) then p + Pow2(n - 1) else p - Pow2(n - 1)
  }

  function FlipTopTwo(g: seq<bool>): seq<bool>
    requires |g| >= 2
  {
    g[..|g| - 2] + [!g[|g| - 2], !g[|g| - 1]]
  }

  /** The two words differ in exactly one bit. */
  predicate OneBitApart(a: seq<bool>, b: seq<bool>) {
    && |a| == |b| > 0
    && if a[0] != b[0] then a[1..] == b[1..] else OneBitApart(a[1..], b[1..])
  }

  /** What a register catches while its input moves from `a` to `b`: each bit is the old or the new one. */
  function Mix(a: seq<bool>, b: seq<bool>, late: seq<bool>): seq<bool>
    requires |a| == |b| == |late|
  {
    seq(|a|, k requires 0 <= k < |a| => if late[k] then a[k] else b[k])
  }

  lemma {:induction false} GrayInjective(p: nat, q: nat, n: nat)
    requires p < Pow2(n) && q < Pow2(n)
    ensures Gray(p, n) == Gray(q, n) <==> p == q
  {
    if n > 0 && Gray(p, n) == Gray(q, n) {
      assert Gray(p, n)[1..] == Gray(p / 2, n - 1) && Gray(q, n)[1..] == Gray(q / 2, n - 1);
      GrayInjective(p / 2, q / 2, n - 1);
      assert Gray(p, n)[0] == Gray(q, n)[0];
    }
  }

  /** A pointer and its successor, wrap-around included, differ in exactly one bit. */
  lemma {:induction false} NeighboursAreOneBitApart(p: nat, n: nat)
    requires n > 0 && p < Pow2(n)
    ensures OneBitApart(Gray(p, n), Gray(Succ(p, n), n))
  {
    var q := Succ(p, n);
    assert Gray(p, n)[1..] == Gray(p / 2, n - 1) && Gray(q, n)[1..] == Gray(q / 2, n - 1);
    if p % 2 == 0 {
      assert q == p + 1 && q / 2 == p / 2;
    } else if n == 1 {
      assert p == 1 && q == 0;
    } else {
      assert q / 2 == Succ(p / 2, n - 1);
      assert (q / 2) % 2 != (p / 2) % 2 by { assert Pow2(n - 1) == 2 * Pow2(n - 2); }
      NeighboursAreOneBitApart(p / 2, n - 1);
    }
  }

  lemma {:induction false} MixOfNeighbours(a: seq<bool>, b: seq<bool>, late: seq<bool>)
    requires OneBitApart(a, b) && |late| == |a|
    ensures Mix(a, b, late) == a || Mix(a, b, late) == b
  {
    var m := Mix(a, b, late);
    assert m[1..] == Mix(a[1..], b[1..], late[1..]);
    assert m == [m[0]] + m[1..] && a == [a[0]] + a[1..] && b == [b[0]] + b[1..];
    if a[0] != b[0] {
      assert m[1..] == a[1..];
    } else {
      MixOfNeighbours(a[1..], b[1..], late[1..]);
    }
  }

  /** So a sample taken during an increment is the old pointer or the new one, never a third value. */
  lemma {:induction false} SampleIsOldOrNew(p: nat, n: nat, late: seq<bool>)
    requires n > 0 && p < Pow2(n) && |late| == n
    ensures var a, b := Gray(p, n), Gray(Succ(p, n), n);
            Mix(a, b, late) == a || Mix(a, b, late) == b
  {
    NeighboursAreOneBitApart(p, n);
    MixOfNeighbours(Gray(p, n), Gray(Succ(p, n), n), late);
  }

  lemma {:induction false} MixOfEqual(a: seq<bool>, late: seq<bool>)
    requires |a| == |late|
    ensures Mix(a, a, late) == a
  {
  }

  lemma {:induction false} GrayOfTwoBits(p: nat)
    requires p < 4
    ensures Gray(p, 2) == [(p % 2 == 1) != (p / 2 == 1), p / 2 == 1]
  {
    assert Gray(p / 2, 1) == [p / 2 == 1] + Gray(p / 4, 0);
  }

  lemma {:induction false} ShiftedBits(r: nat, w: nat, h: nat)
    requires w == r + 4 * h
    ensures w / 2 == r / 2 + 2 * h && w % 2 == r % 2 && w / 2 % 2 == r / 2 % 2
  {
    var q, b, c := r / 4, r / 2 % 2, r % 2;
    assert r == 4 * q + 2 * b + c && r / 2 == 2 * q + b;
    assert w == 2 * (2 * (q + h) + b) + c && w / 2 == 2 * (q + h) + b;
  }

  lemma {:induction false} HalfTurnBits(r: nat, n: nat)
    requires n >= 3 && r < Pow2(n)
    ensures var w := HalfTurn(r, n);
            w / 2 == HalfTurn(r / 2, n - 1) && w % 2 == r % 2 && w / 2 % 2 == r / 2 % 2
  {
    var h := Pow2(n - 3);
    assert Pow2(n - 1) == 4 * h && Pow2(n - 2) == 2 * h by { assert Pow2(n - 2) == 2 * h; }
    if r < 4 * h {
      ShiftedBits(r, r + 4 * h, h);
    } else {
      ShiftedBits(r - 4 * h, r, h);
    }
  }

  lemma {:induction false} FlipTwoBits(r: nat)
    requires r < 4
    ensures Gray(HalfTurn(r, 2), 2) == FlipTopTwo(Gray(r, 2))
  {
    assert Pow2(1) == 2;
    GrayOfTwoBits(r);
    GrayOfTwoBits(HalfTurn(r, 2));
  }

  lemma {:induction false} FlipOneMore(g: seq<bool>, h: seq<bool>, b: bool)
    requires |g| >= 2 && h == FlipTopTwo(g)
    ensures [b] + h == FlipTopTwo([b] + g)
  {
    var t := [b] + g;
    assert t[..|t| - 2] == [b] + g[..|g| - 2];
  }

  /** Inverting the top two bits of a Gray code is moving the pointer by half the range. */
  lemma {:induction false} FlipIsHalfTurn(r: nat, n: nat)
    requires n >= 2 && r < Pow2(n)
    ensures Gray(HalfTurn(r, n), n) == FlipTopTwo(Gray(r, n))
  {
    if n == 2 {
      FlipTwoBits(r);
    } else {
      HalfTurnBits(r, n);
      FlipIsHalfTurn(r / 2, n - 1);
      FlipOneMore(Gray(r / 2, n - 1), Gray(HalfTurn(r, n) / 2, n - 1), (r % 2 == 1) != (r / 2 % 2 == 1));
    }
  }

  /** The hardware's full test, on pointers. */
  lemma {:induction false} FullPattern(w: nat, r: nat, n: nat)
    requires n >= 2 && w < Pow2(n) && r < Pow2(n)
    ensures Gray(w, n) == FlipTopTwo(Gray(r, n)) <==> w == HalfTurn(r, n)
  {
    FlipIsHalfTurn(r, n);
    GrayInjective(w, HalfTurn(r, n), n);
  }
}
