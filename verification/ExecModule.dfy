/** The divider and the multiplier as the modules they are: registers updated on every clock edge. */
module ExecModule {
  import opened Words
  import D = Divider
  import M = Multiplier

  class DividerUnit {
    var state: D.Fsm
    var stall: bool
    var dividendNeg: bool
    var divisorNeg: bool
    var remainder: Word
    var divisor: Word
    var quotient: Word
    var divNeg: bool
    var remNeg: bool
    var isRem: bool
    var cntr: nat

    ghost function Value(): D.Regs
      reads this
    {
      D.Regs(state, stall, dividendNeg, divisorNeg, remainder, divisor, quotient, divNeg, remNeg, isRem, cntr)
    }

    /** Reset clears only the state and the stall flag. */
    constructor Reset(r: D.Regs)
      ensures Value() == r.(state := D.Idle, stall := false)
    {
      state, stall := D.Idle, false;
      dividendNeg, divisorNeg := r.dividendNeg, r.divisorNeg;
      remainder, divisor, quotient := r.remainder, r.divisor, r.quotient;
      divNeg, remNeg, isRem, cntr := r.divNeg, r.remNeg, r.isRem, r.cntr;
    }

    /** One restoring step: keep the difference if it did not borrow. */
    method Restore()
      requires state == D.Exec
      modifies this`remainder, this`quotient, this`cntr, this`state
      ensures Value() == D.Iterate(old(Value())).(stall := stall)
    {
      var shifted := D.ShiftIn(remainder, quotient);
      var difference := D.Minus(shifted, divisor);
      quotient := D.ShiftOut(quotient, difference < TWO32);
      remainder := if difference < TWO32 then difference else shifted;
      if cntr == 0 { state := D.Ret; }
      cntr := if cntr == 0 then 63 else cntr - 1;
    }

    /** A rising clock outside reset. */
    method Clock(p: D.Pins)
      modifies this
      ensures Value() == D.Step(old(Value()), p)
    {
      match state {
      case Idle =>
        if p.valid && p.isDiv {
          dividendNeg := p.isSigned && p.src1 >= TWO31;
          divisorNeg := p.isSigned && p.src2 >= TWO31;
          remainder, divisor := p.src1, p.src2;
          divNeg := p.isSigned && ((p.src1 >= TWO31) != (p.src2 >= TWO31));
          remNeg := p.isSigned && p.src1 >= TWO31;
          isRem := p.isRem;
          state := D.Check;
        }
      case Check =>
        if divisor == 0 {
          quotient, divNeg, remNeg, state := TWO32 - 1, false, false, D.Ret;
        } else {
          quotient := if dividendNeg then Neg(remainder) else remainder;
          remainder := 0;
          divisor := if divisorNeg then Neg(divisor) else divisor;
          cntr, state := 31, D.Exec;
        }
      case Exec =>
        Restore();
      case Ret =>
        if p.ready { state := D.Idle; }
      }
      stall := state != D.Idle;
    }
  }

  class MultiplierUnit {
    var state: M.Fsm
    var stall: bool
    var multiplicand: int
    var multiplier: int
    var product: DoubleWord
    var isHigh: bool

    ghost function Value(): M.Regs
      reads this
    {
      M.Regs(state, stall, multiplicand, multiplier, product, isHigh)
    }

    constructor Reset(r: M.Regs)
      ensures Value() == r.(state := M.Idle, stall := false)
    {
      state, stall := M.Idle, false;
      multiplicand, multiplier, product, isHigh := r.multiplicand, r.multiplier, r.product, r.isHigh;
    }

    /** A rising clock outside reset. */
    method Clock(p: M.Pins)
      modifies this
      ensures Value() == M.Step(old(Value()), p)
    {
      match state {
      case Idle =>
        if p.valid && p.isMul {
          multiplicand := if p.src1Signed then Signed(p.src1) else p.src1;
          multiplier := if p.src2Signed then Signed(p.src2) else p.src2;
          isHigh := p.isHigh;
          state := M.Exec;
        }
      case Exec =>
        product := multiplicand * multiplier % TWO64;
        state := M.Ret;
      case Ret =>
        if p.ready { state := M.Idle; }
      }
      stall := state != M.Idle;
    }
  }
}
