/** The multiplier unit: a signed 33 x 33 bit product, registered, then RET until the pipeline takes it. */
module Multiplier {
  import opened Powers
  import opened Words

  datatype Fsm = Idle | Exec | Ret

  /** The operand registers are 33-bit signed numbers, the product register 64 bits. */
  datatype Regs = Regs(state: Fsm, stall: bool, multiplicand: int, multiplier: int, product: DoubleWord, isHigh: bool)

  datatype Pins = Pins(valid: bool, isMul: bool, src1Signed: bool, src2Signed: bool, isHigh: bool,
                       src1: Word, src2: Word, ready: bool)

  datatype Op = Op(src1Signed: bool, src2Signed: bool, isHigh: bool, a: Word, b: Word)

  function Value(signed: bool, w: Word): int { if signed then Signed(w) else w }

  /** Floor division by 2^32. */
  function High(i: int): int { i / TWO32 }

  /** MUL, MULH, MULHSU and MULHU of the M extension: the low or the high word of the full product. */
  function Result(o: Op): Word {
    var p := Value(o.src1Signed, o.a) * Value(o.src2Signed, o.b);
    if o.isHigh then Wrap(High(p)) else Wrap(p)
  }

  function Step(s: Regs, p: Pins): Regs {
    match s.state
    case Idle =>
      if p.valid && p.isMul
      then s.(multiplicand := Value(p.src1Signed, p.src1), multiplier := Value(p.src2Signed, p.src2),
              isHigh := p.isHigh, state := Exec, stall := true)
      else s.(stall := false)
    case Exec => s.(product := s.multiplicand * s.multiplier % TWO64, state := Ret, stall := true)
    case Ret => if p.ready then s.(state := Idle, stall := false) else s.(stall := true)
  }

  function Output(s: Regs): Word {
    if s.state != Ret then 0
    else if s.isHigh then s.product / TWO32 else s.product % TWO32
  }

  predicate ReadyOut(s: Regs) { s.state != Exec }

  function Issued(p: Pins): Op { Op(p.src1Signed, p.src2Signed, p.isHigh, p.src1, p.src2) }

  predicate Working(s: Regs, o: Op) {
    && s.stall == (s.state != Idle)
    && match s.state
       case Idle => true
       case Exec => s.multiplicand == Value(o.src1Signed, o.a) && s.multiplier == Value(o.src2Signed, o.b)
                    && s.isHigh == o.isHigh
       case Ret => Output(s) == Result(o)
  }

  /** Both words of the 64-bit register are those of the exact product, although it wraps. */
  lemma {:induction false} WordsOfProduct(p: int)
    ensures p % TWO64 / TWO32 == Wrap(High(p)) && p % TWO64 % TWO32 == Wrap(p)
  {
    var h, l := p / TWO32, p % TWO32;
    var q, r := h / TWO32, h % TWO32;
    assert p == TWO64 * q + (TWO32 * r + l);
    assert p % TWO64 == TWO32 * r + l;
  }

  /** The instructions, as the decoder sets the unit's control bits for them. */
  datatype Instr = Mul | Mulh | Mulhsu | Mulhu

  function OpFor(k: Instr, a: Word, b: Word): Op {
    match k
    case Mul => Op(false, false, false, a, b)
    case Mulh => Op(true, true, true, a, b)
    case Mulhsu => Op(true, false, true, a, b)
    case Mulhu => Op(false, false, true, a, b)
  }

  /** The M extension on numbers: the high word and the low word make up the full product of the operands, each
      read as the instruction reads it, and without signs that product fits. */
  lemma {:induction false} MultipliesLikeTheIsa(a: Word, b: Word)
    ensures Result(OpFor(Mul, a, b)) == a * b % 0x1_0000_0000
    ensures Result(OpFor(Mulhu, a, b)) * 0x1_0000_0000 + Result(OpFor(Mul, a, b)) == a * b
    ensures var x, y := if a >= 0x8000_0000 then a - 0x1_0000_0000 else a,
                        if b >= 0x8000_0000 then b - 0x1_0000_0000 else b;
            && Result(OpFor(Mulh, a, b)) * 0x1_0000_0000 + Result(OpFor(Mul, a, b)) == x * y % TWO64
            && Result(OpFor(Mulhsu, a, b)) * 0x1_0000_0000 + Result(OpFor(Mul, a, b)) == x * b % TWO64
    ensures TWO64 == 0x1_0000_0000 * 0x1_0000_0000
  {
    LowWord(a, b);
    UnsignedHigh(a, b);
    SignedHigh(a, b);
    MixedHigh(a, b);
  }

  lemma {:induction false} LowWord(a: Word, b: Word)
    ensures Result(OpFor(Mul, a, b)) == Wrap(a * b)
  {
  }

  lemma {:induction false} UnsignedHigh(a: Word, b: Word)
    ensures Result(OpFor(Mulhu, a, b)) * TWO32 + Wrap(a * b) == a * b
  {
    ProductBound(a, b);
    WordsMakeProduct(a * b, a * b, 0);
  }

  lemma {:induction false} SignedHigh(a: Word, b: Word)
    ensures Result(OpFor(Mulh, a, b)) * TWO32 + Wrap(a * b) == Signed(a) * Signed(b) % TWO64
  {
    var c := SignedTimesSigned(a, b);
    WordsMakeProduct(Signed(a) * Signed(b), a * b, c);
  }

  lemma {:induction false} MixedHigh(a: Word, b: Word)
    ensures Result(OpFor(Mulhsu, a, b)) * TWO32 + Wrap(a * b) == Signed(a) * b % TWO64
  {
    var c := SignedTimesUnsigned(a, b);
    WordsMakeProduct(Signed(a) * b, a * b, c);
  }

  lemma {:induction false} ProductBound(a: Word, b: Word)
    ensures 0 <= a * b < TWO64
  {
    MulMono(a, TWO32 - 1, b);
    assert a * b <= (TWO32 - 1) * b;
  }

  /** A signed operand moves the product by a multiple of 2^32. */
  lemma {:induction false} SignedTimesUnsigned(a: Word, b: int) returns (c: int)
    ensures Signed(a) * b == a * b + c * TWO32
  {
    c := if a >= TWO31 then -b else 0;
    if a >= TWO31 { assert (a - TWO32) * b == a * b - TWO32 * b; }
  }

  lemma {:induction false} SignedTimesSigned(a: Word, b: Word) returns (c: int)
    ensures Signed(a) * Signed(b) == a * b + c * TWO32
  {
    var d := SignedTimesUnsigned(a, Signed(b));
    var e := SignedTimesUnsigned(b, a);
    assert a * Signed(b) == Signed(b) * a && a * b == b * a;
    c := d + e;
  }

  lemma {:induction false} WordsMakeProduct(p: int, q: int, c: int)
    requires p == q + c * TWO32
    ensures Wrap(High(p)) * TWO32 + Wrap(q) == p % TWO64
  {
    WordsOfProduct(p);
    WrapShift(q, c);
    assert p % TWO64 == p % TWO64 / TWO32 * TWO32 + p % TWO64 % TWO32;
  }

  lemma {:induction false} WrapShift(q: int, c: int)
    ensures Wrap(q + c * TWO32) == Wrap(q)
  {
  }

  lemma {:induction false} StepKeeps(s: Regs, p: Pins, o: Op)
    requires Working(s, o)
    ensures Working(Step(s, p), if s.state == Idle && p.valid && p.isMul then Issued(p) else o)
  {
    WordsOfProduct(s.multiplicand * s.multiplier);
  }

  function Run(s: Regs, ins: seq<Pins>): Regs {
    if ins == [] then s else Step(Run(s, ins[..|ins| - 1]), ins[|ins| - 1])
  }

  /** Where the unit is, `age` clock edges after issue. */
  predicate Scheduled(r: Regs, o: Op, age: nat) {
    Working(r, o) && r.state == if age == 1 then Exec else Ret
  }

  lemma {:induction false} RunIsScheduled(s: Regs, ins: seq<Pins>)
    requires s.state == Idle && !s.stall && |ins| > 0 && ins[0].valid && ins[0].isMul
    requires forall k | 2 <= k < |ins| :: !ins[k].ready
    ensures Scheduled(Run(s, ins), Issued(ins[0]), |ins|)
  {
    var o, before := Issued(ins[0]), ins[..|ins| - 1];
    if |ins| == 1 {
      assert Run(s, before) == s;
      StepKeeps(s, ins[0], o);
    } else {
      RunIsScheduled(s, before);
      assert before[0] == ins[0];
      StepKeeps(Run(s, before), ins[|ins| - 1], o);
    }
  }

  /** For all operands and all four instructions: a multiplication that is issued shows nothing for one cycle, then
      the ISA's result, and keeps showing it until the pipeline is ready, whatever the other inputs do. */
  lemma {:induction false} MultipliesInTwo(s: Regs, ins: seq<Pins>)
    requires s.state == Idle && !s.stall && |ins| > 0 && ins[0].valid && ins[0].isMul
    requires forall k | 2 <= k < |ins| :: !ins[k].ready
    ensures var r := Run(s, ins);
            && r.stall && (ReadyOut(r) <==> |ins| >= 2)
            && Output(r) == if |ins| >= 2 then Result(Issued(ins[0])) else 0
  {
    RunIsScheduled(s, ins);
  }
}
