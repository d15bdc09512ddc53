/** The pipeline as clocked hardware: stage registers and a register file that change on unstalled edges. */
module CpuModule {
  import opened Words
  import Bru
  import opened Cpu

  class Pipeline {
    const isa: Isa
    var pc: Word
    var ifId: IfId
    var idOf: IdOf
    var ofEx: OfEx
    var exWb: ExWb
    var side: Word
    const xreg: array<Word>

    ghost predicate Valid()
      reads xreg
    {
      xreg.Length == 32
    }

    ghost function Value(): Pipe
      requires Valid()
      reads this, xreg
    {
      Pipe(pc, ifId, idOf, ofEx, exWb, side, xreg[..])
    }

    constructor (isa: Isa, pc: Word, i: Instr)
      ensures Valid() && fresh(xreg) && this.isa == isa && this.pc == pc
      ensures Initial(Sys(Value(), 0, 0, [], [], []))
    {
      this.isa, this.pc, side := isa, pc, 0;
      ifId := IfId(false, 0, false);
      idOf := IdOf(false, 0, false, false, i);
      ofEx := OfEx(false, 0, false, false, i, false, false, 0, 0, false, 0);
      exWb := ExWb(false, 0, false, i, false, false, false, false, 0, false, 0, false);
      xreg := new Word[32](_ => 0);
    }

    /** The next-pc priority and the common squash condition. */
    method Redirect(c: Cycle) returns (next: Word, squash: bool)
      requires Valid()
      ensures next == NextPc(Value(), c) && squash == Squash(exWb, c)
    {
      squash := true;
      if exWb.v && (exWb.exc || c.unitExc || exWb.misalign) { next := c.vector; return; }
      if exWb.v && !exWb.replay && exWb.i.isRet { next := c.epc; return; }
      if exWb.v && exWb.replay { next := exWb.pc; return; }
      if exWb.v && ((exWb.i.csrWe && c.csrFlush) || exWb.i.sfence || exWb.i.fencei) { next := Add(exWb.pc, 4); return; }
      if exWb.v && exWb.ctrlTsfr && (if exWb.tkn then exWb.misp1 else exWb.misp2) {
        next := if exWb.tkn then exWb.tknPc else Add(exWb.pc, 4);
        return;
      }
      squash := false;
      next := if c.predTkn then c.predPc else Add(pc, 4);
    }

    /** The operand multiplexers of OF: immediate, write-back bypass, register file. */
    method SelectOperand1() returns (src1: Word)
      requires Valid()
      ensures src1 == OfSrc1(Value())
    {
      src1 := 0;
      if idOf.i.useUimm { src1 := idOf.i.rs1 % 32; }
      else if exWb.v && exWb.i.rfWe && exWb.i.rd == idOf.i.rs1 { src1 := Or(exWb.rslt, side); }
      else if 0 < idOf.i.rs1 < 32 { src1 := xreg[idOf.i.rs1]; }
    }

    method SelectOperand2() returns (src2: Word)
      requires Valid()
      ensures src2 == OfSrc2(Value())
    {
      src2 := 0;
      if idOf.i.src2 == FromPc { src2 := Add(idOf.pc, idOf.i.imm); }
      else if idOf.i.src2 == FromImm { src2 := idOf.i.imm; }
      else if exWb.v && exWb.i.rfWe && exWb.i.rd == idOf.i.rs2 { src2 := Or(exWb.rslt, side); }
      else if 0 < idOf.i.rs2 < 32 { src2 := xreg[idOf.i.rs2]; }
    }

    /** OF: the operands, and the flags for the bypass into EX. */
    method FetchOperands(c: Cycle, squash: bool) returns (n: OfEx)
      requires Valid() && squash == Squash(exWb, c)
      ensures n == NextOfEx(Value(), c)
    {
      var d := idOf;
      var src1 := SelectOperand1();
      var src2 := SelectOperand2();
      var fwd1 := ofEx.v && ofEx.i.rfWe && ofEx.i.rd == d.i.rs1;
      var fwd2 := ofEx.v && ofEx.i.rfWe && ofEx.i.rd == d.i.rs2;
      var replay := (ofEx.v && ofEx.i.csrWe && ofEx.i.csrAddr == d.i.csrAddr)
                    || (exWb.v && exWb.i.csrWe && exWb.i.csrAddr == d.i.csrAddr);
      n := OfEx(d.v && !squash, d.pc, d.predTkn, d.exc || c.ofExc, d.i, fwd1, fwd2, src1, src2, replay, c.csrRdata);
    }

    /** EX: bypass, ALU, branch resolution. */
    method Execute(c: Cycle, squash: bool) returns (n: ExWb)
      requires Valid() && squash == Squash(exWb, c)
      ensures n == NextExWb(isa, Value(), c)
    {
      var x := ofEx;
      var wbRslt := Or(exWb.rslt, side);
      var a, b := x.src1, x.src2;
      if x.fwd1 { a := wbRslt; }
      if x.fwd2 { b := wbRslt; }
      var tkn, tknPc := Bru.Taken(x.i.bru, a, b), Bru.Target(x.i.bru, a, x.pc, x.i.imm);
      var rslt := Or(Or(isa.alu(x.i.alu, a, b), Bru.Link(x.i.bru, x.pc)), x.csrRdata);
      n := ExWb(x.v && !squash, x.pc, x.exc, x.i, x.i.bru.ctrlTsfr || x.predTkn, tkn,
                idOf.pc != tknPc, idOf.pc != Add(x.pc, 4), tknPc, tkn && tknPc / 2 % 2 == 1, rslt, x.replay);
    }

    /** WB: the register file takes the result of an instruction that retires. */
    method WriteBack(c: Cycle)
      requires Valid()
      modifies xreg
      ensures xreg[..] == WriteReg(old(xreg[..]), WbV(exWb, c) && exWb.i.rfWe, exWb.i.rd, Or(exWb.rslt, side))
    {
      if exWb.v && !(exWb.exc || c.unitExc || exWb.misalign) && !exWb.replay {
        if exWb.i.rfWe && exWb.i.rd < 32 {
          xreg[exWb.i.rd] := Or(exWb.rslt, side);
        }
      }
    }

    /** What the stage registers take on an edge on which nothing stalls. */
    method NextStages(c: Cycle) returns (next: Word, f: IfId, d: IdOf, x: OfEx, w: ExWb)
      requires Valid()
      ensures next == NextPc(Value(), c) && f == IfId(!Squash(exWb, c), pc, c.predTkn)
      ensures d == NextIdOf(isa, Value(), c) && x == NextOfEx(Value(), c) && w == NextExWb(isa, Value(), c)
    {
      var squash;
      next, squash := Redirect(c);
      f := IfId(!squash, pc, c.predTkn);
      d := IdOf(ifId.v && !squash, ifId.pc, ifId.predTkn, c.idExc, isa.fetch(ifId.pc));
      x := FetchOperands(c, squash);
      w := Execute(c, squash);
    }

    /** One rising clock edge: every stage computes from the old registers, then all of them move. */
    method Clock(c: Cycle)
      requires Valid()
      modifies this, xreg
      ensures Valid() && Value() == Step(isa, old(Value()), c)
    {
      if c.ifuStall || c.exStall {
        if c.exStall { side := c.unitOut; }
        return;
      }
      var next, f, d, x, w := NextStages(c);
      WriteBack(c);
      pc, ifId, idOf, ofEx, exWb, side := next, f, d, x, w, 0;
    }
  }
}
