/** The six-bit feedback shift register that shuffles the page frames. */
module Lfsr {
  function Next(x: bv6): bv6 {
    (((x ^ (x >> 1)) & 1) << 5) | (x >> 1)
  }

  /** How many shifts lead from 1 to `x`; 0 does not occur. */
  function Log(x: bv6): bv6 {
    if x < 32 then
      if x < 16 then
        if x < 8 then
          if x == 0 then 0 else if x == 1 then 0 else if x == 2 then 5 else if x == 3 then 62 else
          if x == 4 then 4 else if x == 5 then 24 else if x == 6 then 10 else 61
        else
          if x == 8 then 3 else if x == 9 then 32 else if x == 10 then 15 else if x == 11 then 23 else
          if x == 12 then 9 else if x == 13 then 45 else if x == 14 then 29 else 60
      else
        if x < 24 then
          if x == 16 then 2 else if x == 17 then 12 else if x == 18 then 34 else if x == 19 then 31 else
          if x == 20 then 14 else if x == 21 then 52 else if x == 22 then 50 else 22
        else
          if x == 24 then 8 else if x == 25 then 48 else if x == 26 then 37 else if x == 27 then 44 else
          if x == 28 then 28 else if x == 29 then 41 else if x == 30 then 20 else 59
    else
      if x < 48 then
        if x < 40 then
          if x == 32 then 1 else if x == 33 then 6 else if x == 34 then 25 else if x == 35 then 11 else
          if x == 36 then 33 else if x == 37 then 16 else if x == 38 then 46 else 30
        else
          if x == 40 then 13 else if x == 41 then 35 else if x == 42 then 53 else if x == 43 then 51 else
          if x == 44 then 49 else if x == 45 then 38 else if x == 46 then 42 else 21
      else
        if x < 56 then
          if x == 48 then 7 else if x == 49 then 26 else if x == 50 then 17 else if x == 51 then 47 else
          if x == 52 then 36 else if x == 53 then 54 else if x == 54 then 39 else 43
        else
          if x == 56 then 27 else if x == 57 then 18 else if x == 58 then 55 else if x == 59 then 40 else
          if x == 60 then 19 else if x == 61 then 56 else if x == 62 then 57 else 58
  }

  lemma {:induction false} ShiftAddsOne(x: bv6)
    requires x != 0
    ensures Next(x) != 0 && Log(Next(x)) == if Log(x) == 62 then 0 else Log(x) + 1
  {
  }

  /** The register after `i` shifts. */
  function Shifted(seed: bv6, i: nat): bv6 {
    if i == 0 then seed else Next(Shifted(seed, i - 1))
  }

  /** The place of a register value on the cycle of shifts. */
  function Place(x: bv6): int { Log(x) as int }

  lemma {:induction false} OneMore(l: bv6, m: bv6)
    requires l <= 62 && m == if l == 62 then 0 else l + 1
    ensures 0 <= l as int < 63 && m as int == if l as int == 62 then 0 else l as int + 1
  {
  }

  lemma {:induction false} NextPlace(x: bv6)
    requires x != 0
    ensures Next(x) != 0 && 0 <= Place(x) < 63
    ensures Place(Next(x)) == if Place(x) == 62 then 0 else Place(x) + 1
  {
    ShiftAddsOne(x);
    LogBelow63(x);
    OneMore(Log(x), Log(Next(x)));
  }

  lemma {:induction false} LogBelow63(x: bv6)
    ensures Log(x) <= 62
  {
  }

  /** `i` shifts lead `i` places on, on any cycle of 63 that a single shift follows. */
  lemma {:induction false} PlaceOfShifted(seed: bv6, i: nat, place: bv6 -> int)
    requires seed != 0 && i <= 63
    requires forall x: bv6 | x != 0 :: 0 <= place(x) < 63
    requires forall x: bv6 | x != 0 :: Next(x) != 0 && place(Next(x)) == if place(x) == 62 then 0 else place(x) + 1
    ensures Shifted(seed, i) != 0
    ensures place(Shifted(seed, i)) == place(seed) + i - if place(seed) + i >= 63 then 63 else 0
  {
    if i > 0 { PlaceOfShifted(seed, i - 1, place); }
  }

  lemma {:induction false} NextNonzero(x: bv6)
    requires x != 0
    ensures Next(x) != 0
  {
  }

  lemma {:induction false} InRange(x: bv6)
    requires x != 0
    ensures 1 <= x as nat <= 63
  {
  }

  lemma {:induction false} ShiftedInRange(seed: bv6, i: nat)
    requires seed != 0
    ensures Shifted(seed, i) != 0 && 1 <= Shifted(seed, i) as nat <= 63
  {
    if i > 0 {
      ShiftedInRange(seed, i - 1);
      NextNonzero(Shifted(seed, i - 1));
    }
    InRange(Shifted(seed, i));
  }

  /** The register as a number after `i` shifts. */
  function Draw(seed: bv6, i: nat): nat
    decreases i
  {
    if i == 0 then seed as nat else Draw(Next(seed), i - 1)
  }

  lemma {:induction false} DrawIsShifted(seed: bv6, i: nat)
    ensures Draw(seed, i) == Shifted(seed, i) as nat
    decreases i
  {
    if i > 0 {
      DrawIsShifted(Next(seed), i - 1);
      ShiftFirst(seed, i);
    }
  }

  lemma {:induction false} ShiftFirst(seed: bv6, i: nat)
    requires i > 0
    ensures Shifted(seed, i) == Shifted(Next(seed), i - 1)
    decreases i
  {
    if i > 1 { ShiftFirst(seed, i - 1); }
  }

  lemma {:induction false} DrawInRange(seed: bv6, i: nat)
    requires seed != 0
    ensures 1 <= Draw(seed, i) <= 63
  {
    DrawIsShifted(seed, i);
    ShiftedInRange(seed, i);
  }

  /** From any nonzero seed the first 63 values are pairwise distinct: 63 is the period. */
  lemma {:induction false} FullPeriod(seed: bv6, i: nat, j: nat)
    requires seed != 0 && i < j < 63
    ensures Shifted(seed, i) != Shifted(seed, j)
  {
    forall x: bv6 | x != 0
      ensures Next(x) != 0 && 0 <= Place(x) < 63 && Place(Next(x)) == if Place(x) == 62 then 0 else Place(x) + 1
    {
      NextPlace(x);
    }
    PlaceOfShifted(seed, i, Place);
    PlaceOfShifted(seed, j, Place);
  }
}
