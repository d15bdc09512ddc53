/** The divider unit: CHECK, 32 restoring steps in EXEC, then RET until the pipeline takes the result. */
module Divider {
  import opened Powers
  import opened Words

  datatype Fsm = Idle | Check | Exec | Ret

  datatype Regs = Regs(
    state: Fsm, stall: bool,
    dividendNeg: bool, divisorNeg: bool, remainder: Word, divisor: Word, quotient: Word,
    divNeg: bool, remNeg: bool, isRem: bool, cntr: nat)

  datatype Pins = Pins(valid: bool, isDiv: bool, isSigned: bool, isRem: bool, src1: Word, src2: Word, ready: bool)

  /** A division as it is captured at issue. */
  datatype Op = Op(isSigned: bool, isRem: bool, a: Word, b: Word)

  // ---- The ISA's definition ----

  function Abs(i: int): nat { if i < 0 then -i else i }

  /** Division rounding towards zero. */
  function Quot(a: int, b: int): int
    requires b != 0
  {
    if (a < 0) == (b < 0) then Abs(a) / Abs(b) else -(Abs(a) / Abs(b))
  }

  function Value(signed: bool, w: Word): int { if signed then Signed(w) else w }

  /** DIV, DIVU, REM and REMU of the M extension: a zero divisor gives all ones and the dividend, and signed
      overflow gives the dividend and zero. */
  function Result(o: Op): Word {
    var a, b := Value(o.isSigned, o.a), Value(o.isSigned, o.b);
    if b == 0 then (if o.isRem then o.a else TWO32 - 1)
    else if o.isRem then Wrap(a - Quot(a, b) * b)
    else Wrap(Quot(a, b))
  }

  /** The instructions, as the decoder sets the unit's control bits for them. */
  datatype Instr = Div | Divu | Rem | Remu

  function OpFor(k: Instr, a: Word, b: Word): Op {
    match k
    case Div => Op(true, false, a, b)
    case Divu => Op(false, false, a, b)
    case Rem => Op(true, true, a, b)
    case Remu => Op(false, true, a, b)
  }

  // ---- The hardware ----

  predicate IsNeg(w: Word) { w >= TWO31 }

  /** {remainder[30:0], quotient[31]} */
  function ShiftIn(remainder: Word, quotient: Word): Word { remainder % TWO31 * 2 + quotient / TWO31 }

  /** {quotient[30:0], bit} */
  function ShiftOut(quotient: Word, bit: bool): Word { quotient % TWO31 * 2 + if bit then 1 else 0 }

  /** A 33-bit difference; its top bit is the borrow. */
  function Minus(a: Word, b: Word): nat { (a - b) % (2 * TWO32) }

  /** The partial remainder shifted left by one, taking in the top quotient bit. */
  function Shifted(s: Regs): Word { ShiftIn(s.remainder, s.quotient) }

  function Difference(s: Regs): nat { Minus(Shifted(s), s.divisor) }

  function Start(s: Regs, p: Pins): Regs {
    s.(dividendNeg := p.isSigned && IsNeg(p.src1), divisorNeg := p.isSigned && IsNeg(p.src2),
       remainder := p.src1, divisor := p.src2,
       divNeg := p.isSigned && (IsNeg(p.src1) != IsNeg(p.src2)), remNeg := p.isSigned && IsNeg(p.src1),
       isRem := p.isRem, state := Check, stall := true)
  }

  function Prepare(s: Regs): Regs {
    if s.divisor == 0
    then s.(quotient := TWO32 - 1, divNeg := false, remNeg := false, state := Ret, stall := true)
    else s.(remainder := 0, quotient := if s.dividendNeg then Neg(s.remainder) else s.remainder,
            divisor := if s.divisorNeg then Neg(s.divisor) else s.divisor,
            cntr := 31, state := Exec, stall := true)
  }

  function Iterate(s: Regs): Regs {
    var fits := Difference(s) < TWO32;
    s.(remainder := if fits then Difference(s) else Shifted(s),
       quotient := ShiftOut(s.quotient, fits),
       cntr := if s.cntr == 0 then 63 else s.cntr - 1,
       state := if s.cntr == 0 then Ret else Exec, stall := true)
  }

  /** One clock edge outside reset. */
  function Step(s: Regs, p: Pins): Regs {
    match s.state
    case Idle => if p.valid && p.isDiv then Start(s, p) else s.(stall := false)
    case Check => Prepare(s)
    case Exec => Iterate(s)
    case Ret => if p.ready then s.(state := Idle, stall := false) else s.(stall := true)
  }

  /** The result pins, driven only in RET. */
  function Output(s: Regs): Word {
    if s.state != Ret then 0
    else if s.isRem then (if s.remNeg then Neg(s.remainder) else s.remainder)
    else (if s.divNeg then Neg(s.quotient) else s.quotient)
  }

  predicate ReadyOut(s: Regs) { s.state == Idle || s.state == Ret }

  // ---- The loop ----

  /** After `k` steps on dividend `n` and divisor `d`: the top k bits of `n`, read as a number `p`, are
      bits * d + remainder, and the quotient register holds the other bits of `n` above the k quotient bits. */
  ghost predicate Progress(k: nat, n: nat, d: nat, rem: nat, quotient: nat, p: nat, low: nat, bits: nat)
    requires k <= 32
  {
    && n == p * Pow2(32 - k) + low && low < Pow2(32 - k)
    && p < Pow2(k) && bits < Pow2(k)
    && quotient == low * Pow2(k) + bits
    && p == bits * d + rem && rem < d
  }

  /** Taking the top bit off the low part of a product-shaped register. */
  lemma {:induction false} SplitTop(m: nat, w: nat, low: nat, bits: nat, quotient: nat) returns (t: nat, rest: nat)
    requires m * w == TWO31 && low < 2 * m && bits < w && quotient == low * w + bits
    ensures t <= 1 && low == t * m + rest && rest < m
    ensures quotient / TWO31 == t && quotient % TWO31 == rest * w + bits
  {
    if low < m { t, rest := 0, low; } else { t, rest := 1, low - m; }
    assert low * w == t * TWO31 + rest * w by {
      if t == 1 { assert (m + rest) * w == m * w + rest * w; }
    }
    MulLess(rest, m, w);
  }

  /** The top bit of the quotient register is the next dividend bit. */
  lemma {:induction false} NextBit(k: nat, quotient: nat, low: nat, bits: nat) returns (t: nat, rest: nat)
    requires k < 32 && low < Pow2(32 - k) && bits < Pow2(k) && quotient == low * Pow2(k) + bits
    ensures t <= 1 && low == t * Pow2(31 - k) + rest && rest < Pow2(31 - k)
    ensures quotient / TWO31 == t && quotient % TWO31 == rest * Pow2(k) + bits
  {
    PowFacts();
    PowSum(31 - k, k);
    t, rest := SplitTop(Pow2(31 - k), Pow2(k), low, bits, quotient);
  }

  /** One restoring step on numbers: no bit of the remainder is lost, and one more quotient bit is right. */
  lemma {:induction false} RestoringStep(s: Regs, t: nat, p: nat, bits: nat) returns (bit: nat)
    requires s.quotient / TWO31 == t <= 1 && p < TWO31
    requires p == bits * s.divisor + s.remainder && s.remainder < s.divisor
    ensures var r := Iterate(s);
            && bit <= 1 && r.divisor == s.divisor && r.quotient == 2 * (s.quotient % TWO31) + bit
            && 2 * p + t == (2 * bits + bit) * s.divisor + r.remainder && r.remainder < s.divisor
  {
    var d := s.divisor;
    bit := if 2 * s.remainder + t >= d then 1 else 0;
    Doubled(bits, bit, d);
    assert Shifted(s) == 2 * s.remainder + t;
    Borrow(Shifted(s), d);
  }

  lemma {:induction false} Doubled(bits: nat, bit: nat, d: nat)
    requires bit <= 1
    ensures bits * d >= 0
    ensures (2 * bits + bit) * d == 2 * (bits * d) + if bit == 1 then d else 0
  {
  }

  lemma {:induction false} Borrow(a: Word, b: Word)
    ensures Minus(a, b) == if a >= b then a - b else a - b + 2 * TWO32
  {
  }

  lemma {:induction false} IterateKeeps(s: Regs, k: nat, n: nat, p: nat, low: nat, bits: nat)
    returns (p': nat, low': nat, bits': nat)
    requires k < 32 && Progress(k, n, s.divisor, s.remainder, s.quotient, p, low, bits)
    ensures var r := Iterate(s);
            r.divisor == s.divisor && Progress(k + 1, n, r.divisor, r.remainder, r.quotient, p', low', bits')
  {
    var t, rest := NextBit(k, s.quotient, low, bits);
    PowFacts();
    PowMono(k, 31);
    var bit := RestoringStep(s, t, p, bits);
    var m, w := Pow2(31 - k), Pow2(k);
    p', low', bits' := 2 * p + t, rest, 2 * bits + bit;
    assert Pow2(32 - k) == 2 * m && Pow2(k + 1) == 2 * w && 32 - (k + 1) == 31 - k;
    NewPrefix(n, p, m, t, low, rest);
    NewQuotient(rest, w, bits, bit);
  }

  lemma {:induction false} NewPrefix(n: nat, p: nat, m: nat, t: nat, low: nat, rest: nat)
    requires n == p * (2 * m) + low && low == t * m + rest
    ensures n == (2 * p + t) * m + rest
  {
  }

  lemma {:induction false} NewQuotient(rest: nat, w: nat, bits: nat, bit: nat)
    ensures 2 * (rest * w + bits) + bit == rest * (2 * w) + (2 * bits + bit)
  {
  }

  // ---- The unit ----

  function Issued(p: Pins): Op { Op(p.isSigned, p.isRem, p.src1, p.src2) }

  predicate Flags(s: Regs, o: Op) {
    && s.divNeg == (o.isSigned && (IsNeg(o.a) != IsNeg(o.b)))
    && s.remNeg == (o.isSigned && IsNeg(o.a))
    && s.isRem == o.isRem
  }

  ghost predicate AtStep(s: Regs, o: Op, k: nat)
    requires k <= 32
  {
    var n, d := Abs(Value(o.isSigned, o.a)), Abs(Value(o.isSigned, o.b));
    && o.b != 0 && Flags(s, o) && s.divisor == d
    && exists p, low, bits :: Progress(k, n, d, s.remainder, s.quotient, p, low, bits)
  }

  /** A unit that is working on `o`, or idle. */
  ghost predicate Working(s: Regs, o: Op) {
    && s.stall == (s.state != Idle)
    && match s.state
       case Idle => true
       case Check => Flags(s, o) && s.remainder == o.a && s.divisor == o.b
                     && s.dividendNeg == (o.isSigned && IsNeg(o.a)) && s.divisorNeg == (o.isSigned && IsNeg(o.b))
       case Exec => s.cntr <= 31 && AtStep(s, o, 31 - s.cntr)
       case Ret => Output(s) == Result(o)
  }

  lemma {:induction false} CheckKeeps(s: Regs, o: Op)
    requires s.state == Check && Working(s, o)
    ensures Working(Prepare(s), o)
  {
    var r := Prepare(s);
    if o.b != 0 {
      var n := Abs(Value(o.isSigned, o.a));
      PowFacts();
      assert n < TWO32 && r.quotient == n && r.divisor == Abs(Value(o.isSigned, o.b));
      assert Progress(0, n, r.divisor, r.remainder, r.quotient, 0, n, 0);
      assert AtStep(r, o, 0);
    }
  }

  /** Rounding towards zero: the quotient takes both signs, the remainder that of the dividend. */
  lemma {:induction false} QuotOfMagnitudes(a: int, b: int, q: int, r: int)
    requires b != 0 && q >= 0 && 0 <= r < Abs(b) && Abs(a) == q * Abs(b) + r
    ensures Quot(a, b) == if (a < 0) == (b < 0) then q else -q
    ensures a - Quot(a, b) * b == if a < 0 then -r else r
  {
    DivModUnique(Abs(a), Abs(b), q, r);
    assert (-q) * b == -(q * b) && q * (-b) == -(q * b);
  }

  lemma {:induction false} WrapWord(w: Word)
    ensures Wrap(w) == w
  {
  }

  lemma {:induction false} ResultIs(o: Op, q: int, r: int)
    requires var a, b := Value(o.isSigned, o.a), Value(o.isSigned, o.b);
             b != 0 && q == Quot(a, b) && r == a - q * b
    ensures Result(o) == Wrap(if o.isRem then r else q)
  {
  }

  lemma {:induction false} WrapSigned(i: int)
    requires -0x8000_0000 <= i < 0x8000_0000
    ensures Signed(Wrap(i)) == i
  {
  }

  lemma {:induction false} Divides(a: nat, b: nat) returns (q: nat, r: nat)
    requires b > 0
    ensures a == q * b + r && r < b && q <= a && (b > 1 && a > 0 ==> q < a)
  {
    q, r := a / b, a % b;
    if b > 1 { MulMono(2, b, q); } else { assert q * b == q; }
    assert q * b == b * q;
  }

  /** The M extension on numbers, without signs: quotient and remainder make up the dividend, and a zero divisor
      gives all ones and the dividend. */
  lemma {:induction false} UnsignedIsTheIsa(a: Word, b: Word)
    ensures var q, r := Result(OpFor(Divu, a, b)), Result(OpFor(Remu, a, b));
            if b == 0 then q == 0xFFFF_FFFF && r == a else a == q * b + r && r < b
  {
    if b != 0 {
      var q, r := Divides(a, b);
      QuotOfMagnitudes(a, b, q, r);
      WrapWord(q);
      WrapWord(r);
      ResultIs(OpFor(Divu, a, b), q, r);
      ResultIs(OpFor(Remu, a, b), q, r);
    }
  }

  /** And with signs, both operands and both results read as two's complement: the remainder is smaller than the
      divisor and has the sign of the dividend; the one quotient that does not fit gives the dividend and zero. */
  lemma {:induction false} SignedIsTheIsa(a: Word, b: Word)
    ensures var x, y := if a >= 0x8000_0000 then a - 0x1_0000_0000 else a,
                        if b >= 0x8000_0000 then b - 0x1_0000_0000 else b;
            var u, v := Result(OpFor(Div, a, b)), Result(OpFor(Rem, a, b));
            var q, r := if u >= 0x8000_0000 then u - 0x1_0000_0000 else u,
                        if v >= 0x8000_0000 then v - 0x1_0000_0000 else v;
            if b == 0 then u == 0xFFFF_FFFF && v == a
            else if a == 0x8000_0000 && b == 0xFFFF_FFFF then u == a && v == 0
            else x == q * y + r && Abs(r) < Abs(y) && (r == 0 || (r < 0 <==> x < 0))
  {
    if b != 0 {
      var q, r := SignedDivision(Signed(a), Signed(b));
      ResultIs(OpFor(Div, a, b), q, r);
      ResultIs(OpFor(Rem, a, b), q, r);
      if a != 0x8000_0000 || b != 0xFFFF_FFFF {
        WrapSigned(q);
        WrapSigned(r);
      }
    }
  }

  lemma {:induction false} SignedDivision(x: int, y: int) returns (q: int, r: int)
    requires -0x8000_0000 <= x < 0x8000_0000 && -0x8000_0000 <= y < 0x8000_0000 && y != 0
    ensures q == Quot(x, y) && r == x - q * y
    ensures x == q * y + r && Abs(r) < Abs(y) && (r == 0 || (r < 0 <==> x < 0))
    ensures if x == -0x8000_0000 && y == -1 then q == 0x8000_0000 && r == 0
            else -0x8000_0000 <= q < 0x8000_0000 && -0x8000_0000 <= r < 0x8000_0000
  {
    var n, m := Divides(Abs(x), Abs(y));
    QuotOfMagnitudes(x, y, n, m);
    q := Quot(x, y);
    r := x - q * y;
  }

  /** The sign fix-up turns the magnitudes into the ISA's signed quotient and remainder. */
  lemma {:induction false} SignFixUp(s: Regs, o: Op)
    requires s.state == Ret && Flags(s, o) && o.b != 0
    requires var n, d := Abs(Value(o.isSigned, o.a)), Abs(Value(o.isSigned, o.b));
             n == s.quotient * d + s.remainder && s.remainder < d
    ensures Output(s) == Result(o)
  {
    var a, b := Value(o.isSigned, o.a), Value(o.isSigned, o.b);
    QuotOfMagnitudes(a, b, s.quotient, s.remainder);
    NegIsMinus(s.quotient);
    NegIsMinus(s.remainder);
    WrapWord(s.quotient);
    WrapWord(s.remainder);
    ResultIs(o, Quot(a, b), a - Quot(a, b) * b);
  }

  lemma {:induction false} AllBitsDone(n: nat, d: nat, rem: nat, quotient: nat, p: nat, low: nat, bits: nat)
    requires Progress(32, n, d, rem, quotient, p, low, bits)
    ensures n == quotient * d + rem && rem < d
  {
    assert Pow2(0) == 1 && low == 0;
  }

  lemma {:induction false} ExecKeeps(s: Regs, o: Op)
    requires s.state == Exec && Working(s, o)
    ensures Working(Iterate(s), o)
  {
    var k, r := 31 - s.cntr, Iterate(s);
    var n, d := Abs(Value(o.isSigned, o.a)), Abs(Value(o.isSigned, o.b));
    var p, low, bits :| Progress(k, n, d, s.remainder, s.quotient, p, low, bits);
    var p', low', bits' := IterateKeeps(s, k, n, p, low, bits);
    if s.cntr == 0 {
      AllBitsDone(n, d, r.remainder, r.quotient, p', low', bits');
      SignFixUp(r, o);
    } else {
      assert AtStep(r, o, k + 1);
    }
  }

  lemma {:induction false} StepKeeps(s: Regs, p: Pins, o: Op)
    requires Working(s, o)
    ensures Working(Step(s, p), if s.state == Idle && p.valid && p.isDiv then Issued(p) else o)
  {
    match s.state
    case Idle =>
    case Check => CheckKeeps(s, o);
    case Exec => ExecKeeps(s, o);
    case Ret =>
  }

  function Run(s: Regs, ins: seq<Pins>): Regs {
    if ins == [] then s else Step(Run(s, ins[..|ins| - 1]), ins[|ins| - 1])
  }

  /** Clock edges from issue until the result is out. */
  function Latency(o: Op): nat { if o.b == 0 then 2 else 34 }

  ghost predicate Scheduled(r: Regs, o: Op, age: nat) {
    && Working(r, o) && r.stall
    && (age < Latency(o) ==> r.state == if age == 1 then Check else Exec)
    && (1 < age < Latency(o) ==> r.cntr == 33 - age)
    && (age >= Latency(o) ==> r.state == Ret)
  }

  lemma {:induction false} RunIsScheduled(s: Regs, ins: seq<Pins>)
    requires s.state == Idle && !s.stall && |ins| > 0 && ins[0].valid && ins[0].isDiv
    requires forall k | Latency(Issued(ins[0])) <= k < |ins| :: !ins[k].ready
    ensures Scheduled(Run(s, ins), Issued(ins[0]), |ins|)
  {
    var o, before := Issued(ins[0]), ins[..|ins| - 1];
    if |ins| == 1 {
      assert Run(s, before) == s;
      StepKeeps(s, ins[0], o);
    } else {
      RunIsScheduled(s, before);
      assert before[0] == ins[0];
      StepKeeps(Run(s, before), ins[|ins| - 1], o);
    }
  }

  /** For all operands and all four instructions: a division that is issued shows nothing while it works, then
      the ISA's result, and keeps showing it until the pipeline is ready, whatever the other inputs do. */
  lemma {:induction false} DividesLikeTheIsa(s: Regs, ins: seq<Pins>)
    requires s.state == Idle && !s.stall && |ins| > 0 && ins[0].valid && ins[0].isDiv
    requires forall k | Latency(Issued(ins[0])) <= k < |ins| :: !ins[k].ready
    ensures var r := Run(s, ins);
            && r.stall
            && (ReadyOut(r) <==> |ins| >= Latency(Issued(ins[0])))
            && Output(r) == if |ins| >= Latency(Issued(ins[0])) then Result(Issued(ins[0])) else 0
  {
    RunIsScheduled(s, ins);
  }
}
