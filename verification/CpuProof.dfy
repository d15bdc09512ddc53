/** The pipeline executes the sequential machine's instructions, with the sequential operands, whatever is
    predicted, stalled or squashed. */
module CpuProof {
  import opened Words
  import Bru
  import opened Cpu

  // ---- The invariant ----

  /** Younger stages are filled first: a valid stage has only valid stages behind it. */
  predicate Contiguous(p: Pipe) {
    (p.exWb.v ==> p.ofEx.v) && (p.ofEx.v ==> p.idOf.v) && (p.idOf.v ==> p.ifId.v)
  }

  /** Every stage carries the instruction at its pc, and without a taken prediction the next stage has pc + 4. */
  predicate Chained(isa: Isa, p: Pipe) {
    && (p.idOf.v ==> p.idOf.i == isa.fetch(p.idOf.pc))
    && (p.ofEx.v ==> p.ofEx.i == isa.fetch(p.ofEx.pc))
    && (p.exWb.v ==> p.exWb.i == isa.fetch(p.exWb.pc))
    && (p.ifId.v && !p.ifId.predTkn ==> p.pc == Add(p.ifId.pc, 4))
    && (p.idOf.v && !p.idOf.predTkn ==> p.ifId.pc == Add(p.idOf.pc, 4))
    && (p.ofEx.v && !p.ofEx.predTkn ==> p.idOf.pc == Add(p.ofEx.pc, 4))
  }

  /** The pc of the oldest instruction in flight, or the fetch pc of an empty pipeline. */
  function HeadPc(p: Pipe): Word {
    if p.exWb.v then p.exWb.pc else if p.ofEx.v then p.ofEx.pc else if p.idOf.v then p.idOf.pc
    else if p.ifId.v then p.ifId.pc else p.pc
  }

  /** The operands in OF/EX are the register file's, except where the forwarding flag is up. */
  predicate OperandsOk(p: Pipe) {
    var x, w := p.ofEx, p.exWb;
    x.v ==>
      && x.fwd1 == Writes(w.v, w.i, x.i.rs1) && x.fwd2 == Writes(w.v, w.i, x.i.rs2)
      && (!x.fwd1 ==> x.src1 == Operand1(x.i, p.regs)) && (!x.fwd2 ==> x.src2 == Operand2(x.i, p.regs, x.pc))
  }

  /** What write-back holds is what the sequential machine computes for its next instruction. */
  predicate ResultOk(isa: Isa, p: Pipe, csr: Word, m: Arch) {
    var w := p.exWb;
    var a, b := Operand1(w.i, m.regs), Operand2(w.i, m.regs, m.pc);
    w.v ==>
      && w.rslt == ExResult(isa, w.i, m.pc, a, b, csr)
      && w.tkn == Bru.Taken(w.i.bru, a, b)
      && (w.tkn ==> w.tknPc == Bru.Target(w.i.bru, a, m.pc, w.i.imm))
      && w.misalign == (w.tkn && w.tknPc / 2 % 2 == 1)
      && w.misp1 == (p.ofEx.pc != w.tknPc) && w.misp2 == (p.ofEx.pc != Add(w.pc, 4))
      && (!w.ctrlTsfr ==> !w.tkn && p.ofEx.pc == Add(w.pc, 4))
  }

  predicate Follows(isa: Isa, p: Pipe, csr: Word, m: Arch) {
    && Contiguous(p) && Chained(isa, p) && OperandsOk(p) && ResultOk(isa, p, csr, m)
    && HeadPc(p) == m.pc && p.regs == m.regs
  }

  /** The command of the instruction in write-back, which was issued but has not retired. */
  function InFlight(isa: Isa, p: Pipe, m: Arch): seq<Command> {
    if p.exWb.v && !p.exWb.exc && p.exWb.i.cmd != NoUnit then [CommandOf(isa, m)] else []
  }

  ghost predicate Inv(isa: Isa, s: Sys, m0: Arch) {
    var m := After(isa, m0, s.events);
    && Follows(isa, s.p, s.wbCsr, m)
    && s.pcs == Path(isa, m0, s.events)
    && s.commands == Commands(isa, m0, s.events) + InFlight(isa, s.p, m)
  }

  // ---- One unstalled edge ----

  /** The architectural state once the instruction in write-back, if any, has left in this cycle. */
  function Retired(isa: Isa, s: Sys, c: Cycle, m: Arch): Arch {
    if s.p.exWb.v then Execute(isa, m, EventOf(s, c)) else m
  }

  /** Registers and next pc move as one instruction of the sequential machine does. */
  lemma {:induction false} WriteBackIsExecute(isa: Isa, s: Sys, c: Cycle, m: Arch)
    requires DecoderOk(isa) && Follows(isa, s.p, s.wbCsr, m) && Allowed(s, c) && !Stall(c)
    ensures var m', n := Retired(isa, s, c, m), Step(isa, s.p, c);
            && n.regs == m'.regs
            && (Squash(s.p.exWb, c) ==> s.p.exWb.v && n.pc == m'.pc)
            && (s.p.exWb.v && !Squash(s.p.exWb, c) ==> m'.pc == s.p.ofEx.pc && WbV(s.p.exWb, c))
  {
  }

  lemma {:induction false} Operand1IsSequential(isa: Isa, s: Sys, c: Cycle, m: Arch)
    requires DecoderOk(isa) && Follows(isa, s.p, s.wbCsr, m) && Allowed(s, c) && !Stall(c)
    requires s.p.ofEx.v && !Squash(s.p.exWb, c) && s.p.ofEx.i == isa.fetch(s.p.ofEx.pc)
    requires !s.p.ofEx.i.useUimm
    ensures ExSrc1(s.p) == Operand1(s.p.ofEx.i, Retired(isa, s, c, m).regs)
  {
    WriteBackIsExecute(isa, s, c, m);
  }

  lemma {:induction false} ImmediateOperand(isa: Isa, s: Sys, c: Cycle, m: Arch)
    requires DecoderOk(isa) && Follows(isa, s.p, s.wbCsr, m) && Allowed(s, c) && !Stall(c)
    requires s.p.ofEx.v && !Squash(s.p.exWb, c) && s.p.ofEx.i.useUimm
    ensures var x, m' := s.p.ofEx, Retired(isa, s, c, m);
            ExSrc1(s.p) == if x.fwd1 then ReadReg(m'.regs, x.i.rs1) else x.i.rs1
  {
    FiveBits(isa, s.p.ofEx.pc);
    if s.p.ofEx.fwd1 { ForwardedIsWritten(isa, s, c, m, s.p.ofEx.i.rs1); }
  }

  lemma {:induction false} FiveBits(isa: Isa, pc: Word)
    requires DecoderOk(isa)
    ensures var i := isa.fetch(pc); i.rs1 < 32 && i.rs1 % 32 == i.rs1
  {
    assert InstrOk(isa, isa.fetch(pc));
  }

  /** The value forwarded from write-back is the one the register holds afterwards. */
  lemma {:induction false} ForwardedIsWritten(isa: Isa, s: Sys, c: Cycle, m: Arch, r: nat)
    requires DecoderOk(isa) && Follows(isa, s.p, s.wbCsr, m) && Allowed(s, c) && !Stall(c)
    requires !Squash(s.p.exWb, c) && s.p.ofEx.v && r < 32 && Writes(s.p.exWb.v, s.p.exWb.i, r)
    ensures ReadReg(Retired(isa, s, c, m).regs, r) == WbRslt(s.p)
  {
    WriteBackIsExecute(isa, s, c, m);
  }

  lemma {:induction false} Operand2IsSequential(isa: Isa, s: Sys, c: Cycle, m: Arch)
    requires DecoderOk(isa) && Follows(isa, s.p, s.wbCsr, m) && Allowed(s, c) && !Stall(c)
    requires s.p.ofEx.v && !Squash(s.p.exWb, c) && s.p.ofEx.i == isa.fetch(s.p.ofEx.pc)
    ensures ExSrc2(s.p) == Operand2(s.p.ofEx.i, Retired(isa, s, c, m).regs, s.p.ofEx.pc)
  {
    WriteBackIsExecute(isa, s, c, m);
  }

  /** The operands EX uses while write-back retires are the sequential operands after that retirement. */
  lemma {:induction false} OperandsAreSequential(isa: Isa, s: Sys, c: Cycle, m: Arch)
    requires DecoderOk(isa) && Follows(isa, s.p, s.wbCsr, m) && Allowed(s, c) && !Stall(c)
    requires s.p.ofEx.v && !Squash(s.p.exWb, c)
    ensures var x, m' := s.p.ofEx, Retired(isa, s, c, m);
            && (!x.i.useUimm ==> ExSrc1(s.p) == Operand1(x.i, m'.regs))
            && (x.i.useUimm ==> ExSrc1(s.p) == if x.fwd1 then ReadReg(m'.regs, x.i.rs1) else x.i.rs1)
            && ExSrc2(s.p) == Operand2(x.i, m'.regs, x.pc)
  {
    assert s.p.ofEx.i == isa.fetch(s.p.ofEx.pc);
    if s.p.ofEx.i.useUimm { ImmediateOperand(isa, s, c, m); } else { Operand1IsSequential(isa, s, c, m); }
    Operand2IsSequential(isa, s, c, m);
  }

  /** What OF reads past the bypass is still right when the instruction in write-back has retired. */
  lemma {:induction false} ReadsAreCurrent(isa: Isa, s: Sys, c: Cycle, m: Arch)
    requires DecoderOk(isa) && Follows(isa, s.p, s.wbCsr, m) && Allowed(s, c) && !Stall(c)
    requires !Squash(s.p.exWb, c) && s.p.idOf.v
    ensures OfSrc1(s.p) == Operand1(s.p.idOf.i, Retired(isa, s, c, m).regs)
    ensures OfSrc2(s.p) == Operand2(s.p.idOf.i, Retired(isa, s, c, m).regs, s.p.idOf.pc)
  {
    assert InstrOk(isa, s.p.idOf.i);
    WriteBackIsExecute(isa, s, c, m);
  }

  lemma {:induction false} NextOperandsOk(isa: Isa, s: Sys, c: Cycle, m: Arch)
    requires DecoderOk(isa) && Follows(isa, s.p, s.wbCsr, m) && Allowed(s, c) && !Stall(c)
    requires !Squash(s.p.exWb, c)
    ensures OperandsOk(Step(isa, s.p, c))
  {
    if s.p.idOf.v {
      ReadsAreCurrent(isa, s, c, m);
      WriteBackIsExecute(isa, s, c, m);
    }
  }

  lemma {:induction false} NextResultOk(isa: Isa, s: Sys, c: Cycle, m: Arch)
    requires DecoderOk(isa) && Follows(isa, s.p, s.wbCsr, m) && Allowed(s, c) && !Stall(c)
    requires !Squash(s.p.exWb, c)
    ensures ResultOk(isa, Step(isa, s.p, c), s.p.ofEx.csrRdata, Retired(isa, s, c, m))
  {
    if s.p.ofEx.v {
      WriteBackIsExecute(isa, s, c, m);
      OperandsAreSequential(isa, s, c, m);
      var x := s.p.ofEx;
      assert x.i == isa.fetch(x.pc);
      assert isa.alu(x.i.alu, ExSrc1(s.p), ExSrc2(s.p))
          == isa.alu(x.i.alu, Operand1(x.i, Retired(isa, s, c, m).regs), ExSrc2(s.p));
      Bru.TakenIsTheIsa(Bru.Beq, ExSrc1(s.p), ExSrc2(s.p));
    }
  }

  lemma {:induction false} MoveKeeps(isa: Isa, s: Sys, c: Cycle, m: Arch)
    requires DecoderOk(isa) && Follows(isa, s.p, s.wbCsr, m) && Allowed(s, c) && !Stall(c)
    ensures Follows(isa, Step(isa, s.p, c), s.p.ofEx.csrRdata, Retired(isa, s, c, m))
  {
    WriteBackIsExecute(isa, s, c, m);
    if !Squash(s.p.exWb, c) {
      NextOperandsOk(isa, s, c, m);
      NextResultOk(isa, s, c, m);
    }
  }

  lemma {:induction false} StallKeeps(isa: Isa, s: Sys, c: Cycle, m: Arch)
    requires Follows(isa, s.p, s.wbCsr, m) && Stall(c)
    ensures Follows(isa, Step(isa, s.p, c), s.wbCsr, m)
  {
  }

  // ---- Histories ----

  lemma {:induction false} HistorySnoc(isa: Isa, m: Arch, es: seq<Event>, e: Event)
    ensures After(isa, m, es + [e]) == Execute(isa, After(isa, m, es), e)
    ensures Path(isa, m, es + [e]) == Path(isa, m, es) + [After(isa, m, es).pc]
    ensures Commands(isa, m, es + [e])
         == Commands(isa, m, es) + (if isa.fetch(After(isa, m, es).pc).cmd != NoUnit && !e.preExc
                                    then [CommandOf(isa, After(isa, m, es))] else [])
  {
    assert (es + [e])[..|es|] == es;
  }

  /** Exactly the commands of instructions that are not squashed are issued, with the sequential operands. */
  lemma {:induction false} IssueIsInFlight(isa: Isa, s: Sys, c: Cycle, m: Arch)
    requires DecoderOk(isa) && Follows(isa, s.p, s.wbCsr, m) && Allowed(s, c) && !Stall(c)
    ensures InFlight(isa, Step(isa, s.p, c), Retired(isa, s, c, m))
         == if Issues(s.p, c) then [Command(s.p.ofEx.pc, ExSrc1(s.p), ExSrc2(s.p))] else []
  {
    if s.p.ofEx.v && !Squash(s.p.exWb, c) {
      WriteBackIsExecute(isa, s, c, m);
      OperandsAreSequential(isa, s, c, m);
    }
  }

  /** When an instruction leaves write-back, its command turns from in flight to done. */
  lemma {:induction false} LogsMove(isa: Isa, s: Sys, c: Cycle, m0: Arch, es: seq<Event>)
    requires var m := After(isa, m0, s.events);
             && (s.p.exWb.v ==> s.p.exWb.pc == m.pc && s.p.exWb.i == isa.fetch(m.pc))
             && s.pcs == Path(isa, m0, s.events)
             && s.commands == Commands(isa, m0, s.events) + InFlight(isa, s.p, m)
    requires es == if s.p.exWb.v then s.events + [EventOf(s, c)] else s.events
    ensures After(isa, m0, es) == Retired(isa, s, c, After(isa, m0, s.events))
    ensures Path(isa, m0, es) == if s.p.exWb.v then s.pcs + [s.p.exWb.pc] else s.pcs
    ensures Commands(isa, m0, es) == s.commands
  {
    HistorySnoc(isa, m0, s.events, EventOf(s, c));
  }

  lemma {:induction false} UnstalledKeeps(isa: Isa, s: Sys, c: Cycle, n: Sys, m0: Arch)
    requires DecoderOk(isa) && Inv(isa, s, m0) && Allowed(s, c) && !Stall(c) && n == Next(isa, s, c)
    ensures Inv(isa, n, m0)
  {
    var m := After(isa, m0, s.events);
    assert s.p.exWb.v ==> s.p.exWb.pc == m.pc && s.p.exWb.i == isa.fetch(m.pc);
    var es := if s.p.exWb.v then s.events + [EventOf(s, c)] else s.events;
    LogsMove(isa, s, c, m0, es);
    MovedInv(isa, s, c, n, m0, es);
  }

  lemma {:induction false} MovedInv(isa: Isa, s: Sys, c: Cycle, n: Sys, m0: Arch, es: seq<Event>)
    requires DecoderOk(isa) && Allowed(s, c) && !Stall(c) && n == Next(isa, s, c) && n.events == es
    requires Follows(isa, s.p, s.wbCsr, After(isa, m0, s.events))
    requires After(isa, m0, es) == Retired(isa, s, c, After(isa, m0, s.events))
    requires n.pcs == Path(isa, m0, es) && Commands(isa, m0, es) == s.commands
    ensures Inv(isa, n, m0)
  {
    MoveKeeps(isa, s, c, After(isa, m0, s.events));
    IssueIsInFlight(isa, s, c, After(isa, m0, s.events));
  }

  lemma {:induction false} StepKeeps(isa: Isa, s: Sys, c: Cycle, m0: Arch)
    requires DecoderOk(isa) && Inv(isa, s, m0) && Allowed(s, c)
    ensures Inv(isa, Next(isa, s, c), m0)
  {
    if Stall(c) {
      StallKeeps(isa, s, c, After(isa, m0, s.events));
    } else {
      UnstalledKeeps(isa, s, c, Next(isa, s, c), m0);
    }
  }

  function Start(tr: seq<Sys>): Arch
    requires |tr| > 0
  {
    Arch(tr[0].p.pc, tr[0].p.regs)
  }

  lemma {:induction false} RunKeeps(isa: Isa, tr: seq<Sys>, cs: seq<Cycle>, k: nat)
    requires IsRun(isa, tr, cs) && k < |tr|
    ensures Inv(isa, tr[k], Start(tr))
  {
    if k > 0 {
      RunKeeps(isa, tr, cs, k - 1);
      StepKeeps(isa, tr[k - 1], cs[k - 1], Start(tr));
    }
  }

  // ---- The main results ----

  /** Whatever the predictor returns, however the stalls fall and whatever is squashed: the pcs that left
      write-back are the sequential machine's path, the register file is its register file, and the next
      instruction to leave is its next instruction. */
  lemma {:induction false} RefinesSequential(isa: Isa, tr: seq<Sys>, cs: seq<Cycle>, k: nat)
    requires IsRun(isa, tr, cs) && k < |tr|
    ensures var s, m := tr[k], After(isa, Start(tr), tr[k].events);
            && s.pcs == Path(isa, Start(tr), s.events)
            && s.p.regs == m.regs
            && HeadPc(s.p) == m.pc
            && Contiguous(s.p)
  {
    RunKeeps(isa, tr, cs, k);
  }

  /** The commands the units saw are those of the sequential machine, with its operands, in its order, and at most
      one more: the command of the instruction in write-back.  Nothing is issued for a squashed instruction. */
  lemma {:induction false} CommandsAreSequential(isa: Isa, tr: seq<Sys>, cs: seq<Cycle>, k: nat)
    requires IsRun(isa, tr, cs) && k < |tr|
    ensures var s, m := tr[k], After(isa, Start(tr), tr[k].events);
            s.commands == Commands(isa, Start(tr), s.events)
                          + if s.p.exWb.v && !s.p.exWb.exc && s.p.exWb.i.cmd != NoUnit then [CommandOf(isa, m)] else []
  {
    RunKeeps(isa, tr, cs, k);
  }

  /** The operands of the instruction that leaves EX are the sequential machine's at that instruction. */
  lemma {:induction false} OperandsInEx(isa: Isa, tr: seq<Sys>, cs: seq<Cycle>, k: nat)
    requires IsRun(isa, tr, cs) && k < |cs| && !Stall(cs[k]) && tr[k].p.ofEx.v && !Squash(tr[k].p.exWb, cs[k])
    ensures var x, m := tr[k].p.ofEx, After(isa, Start(tr), tr[k + 1].events);
            && x.pc == m.pc && x.i == isa.fetch(m.pc)
            && (!x.i.useUimm ==> ExSrc1(tr[k].p) == Operand1(x.i, m.regs))
            && ExSrc2(tr[k].p) == Operand2(x.i, m.regs, m.pc)
  {
    RunKeeps(isa, tr, cs, k);
    var s, c := tr[k], cs[k];
    var m := After(isa, Start(tr), s.events);
    OperandsAreSequential(isa, s, c, m);
    WriteBackIsExecute(isa, s, c, m);
    HistorySnoc(isa, Start(tr), s.events, EventOf(s, c));
  }

  /** A CSR immediate shares the register-number field, and the EX multiplexer does not look at the immediate
      control bit: the CSR unit gets the immediate if and only if the instruction directly ahead in write-back
      does not write the register that has the immediate's number, or writes just that value. */
  lemma {:induction false} CsrImmediateExactly(isa: Isa, tr: seq<Sys>, cs: seq<Cycle>, k: nat)
    requires IsRun(isa, tr, cs) && k < |cs| && !Stall(cs[k]) && tr[k].p.ofEx.v && !Squash(tr[k].p.exWb, cs[k])
    requires tr[k].p.ofEx.i.useUimm
    ensures var x, w := tr[k].p.ofEx, tr[k].p.exWb;
            ExSrc1(tr[k].p) == x.i.rs1 <==> !Writes(w.v, w.i, x.i.rs1) || WbRslt(tr[k].p) == x.i.rs1
  {
    RunKeeps(isa, tr, cs, k);
    FiveBits(isa, tr[k].p.ofEx.pc);
    ImmediateInEx(tr[k].p);
  }

  lemma {:induction false} ImmediateInEx(p: Pipe)
    requires OperandsOk(p) && p.ofEx.v && p.ofEx.i.useUimm && p.ofEx.i.rs1 < 32
    ensures ExSrc1(p) == p.ofEx.i.rs1 <==> !Writes(p.exWb.v, p.exWb.i, p.ofEx.i.rs1) || WbRslt(p) == p.ofEx.i.rs1
  {
  }

  /** A program on which that matters: `addi x5, x0, 7` directly before a CSR write of the immediate 5. */
  function ImmediateAfterWriter(pc: Word): Instr {
    var nop := Instr(0, 0, 0, false, false, FromImm, 0, 0, Bru.NoBranch, NoUnit, false, false, false, false, 0);
    if pc == 0 then nop.(rd := 5, rfWe := true, imm := 7, alu := 1)
    else if pc == 4 then nop.(rs1 := 5, useUimm := true, csrWe := true, csrAddr := 0x340)
    else nop
  }

  function AddOnly(op: nat, a: Word, b: Word): Word { if op == 1 then Add(a, b) else 0 }

  const Example := Isa(ImmediateAfterWriter, AddOnly)

  /** A cycle without stalls, predictions, exceptions or CSR traffic. */
  const Calm := Cycle(false, false, 0, false, 0, false, false, 0, false, 0, 0, false, 0)

  /** What such a cycle does while write-back is empty. */
  ghost predicate CalmMoved(s: Sys, n: Sys) {
    && n.p.pc == Add(s.p.pc, 4) && n.p.ifId == IfId(true, s.p.pc, false)
    && n.p.idOf == IdOf(s.p.ifId.v, s.p.ifId.pc, s.p.ifId.predTkn, false, ImmediateAfterWriter(s.p.ifId.pc))
    && n.p.ofEx == NextOfEx(s.p, Calm) && n.p.exWb == NextExWb(Example, s.p, Calm)
    && n.p.side == 0 && n.wbUnit == 0
  }

  /** Nothing in write-back and no unit at work. */
  predicate Quiet(s: Sys) { !s.p.exWb.v && s.p.side == 0 && s.wbUnit == 0 && s.p.ofEx.i.cmd == NoUnit }

  lemma {:induction false} CalmStep(s: Sys)
    requires Quiet(s)
    ensures CalmMoved(s, Next(Example, s, Calm)) && Allowed(s, Calm)
  {
  }

  predicate WriterInId(p: Pipe) {
    && !p.exWb.v && !p.ofEx.v && !p.idOf.v && p.idOf.i.cmd == NoUnit
    && p.ifId == IfId(true, 0, false) && p.pc == 4
  }

  predicate WriterInOf(p: Pipe) {
    && !p.exWb.v && !p.ofEx.v
    && p.idOf == IdOf(true, 0, false, false, ImmediateAfterWriter(0)) && p.ifId == IfId(true, 4, false)
  }

  predicate WriterInEx(p: Pipe) {
    && !p.exWb.v && p.ofEx.v && p.ofEx.i == ImmediateAfterWriter(0)
    && !p.ofEx.exc && !p.ofEx.predTkn && !p.ofEx.replay
    && ExSrc1(p) == 0 && ExSrc2(p) == 7 && p.ofEx.csrRdata == 0
    && p.idOf == IdOf(true, 4, false, false, ImmediateAfterWriter(4))
  }

  lemma {:induction false} Fetched(s: Sys, n: Sys)
    requires Initial(s) && s.p.pc == 0 && Quiet(s) && s.p.idOf.i.cmd == NoUnit && CalmMoved(s, n)
    ensures WriterInId(n.p) && Quiet(n)
  {
  }

  lemma {:induction false} Decoded(s: Sys, n: Sys)
    requires WriterInId(s.p) && Quiet(s) && CalmMoved(s, n)
    ensures WriterInOf(n.p) && Quiet(n)
  {
  }

  lemma {:induction false} Arrived(s: Sys, n: Sys)
    requires WriterInOf(s.p) && Quiet(s) && CalmMoved(s, n)
    ensures WriterInEx(n.p) && Quiet(n)
  {
  }

  /** The writer is in write-back, with the CSR write in EX. */
  lemma {:induction false} Bypassed(s: Sys, n: Sys)
    requires WriterInEx(s.p) && CalmMoved(s, n)
    ensures n.p.ofEx.v && n.p.ofEx.i == ImmediateAfterWriter(4) && ExSrc1(n.p) == 7
    ensures n.p.exWb.v && !Squash(n.p.exWb, Calm)
  {
    OrZero(7);
    OrZero(0);
  }

  lemma {:induction false} ExampleDecodes()
    ensures DecoderOk(Example)
  {
  }

  lemma {:induction false} FromReset(s: Sys)
    requires Initial(s)
    ensures IsRun(Example, [s], [])
  {
    ExampleDecodes();
  }

  function Last(tr: seq<Sys>): Sys
    requires |tr| > 0
  {
    tr[|tr| - 1]
  }

  lemma {:induction false} RunSnoc(isa: Isa, tr: seq<Sys>, cs: seq<Cycle>, c: Cycle, n: Sys)
    requires IsRun(isa, tr, cs) && Allowed(tr[|cs|], c) && n == Next(isa, tr[|cs|], c)
    ensures IsRun(isa, tr + [n], cs + [c])
  {
    forall k | 0 <= k < |cs + [c]|
      ensures Allowed((tr + [n])[k], (cs + [c])[k]) && (tr + [n])[k + 1] == Next(isa, (tr + [n])[k], (cs + [c])[k])
    {
      SnocAt(tr, cs, n, c, k);
    }
    SnocAt(tr, cs, n, c, 0);
  }

  lemma {:induction false} SnocAt(tr: seq<Sys>, cs: seq<Cycle>, n: Sys, c: Cycle, k: nat)
    requires |tr| == |cs| + 1 && k <= |cs|
    ensures (tr + [n])[k] == tr[k]
    ensures if k < |cs| then (tr + [n])[k + 1] == tr[k + 1] && (cs + [c])[k] == cs[k]
            else (tr + [n])[k + 1] == n && (cs + [c])[k] == c
  {
  }

  /** One more such cycle at the end of a run. */
  lemma {:induction false} CalmExtend(tr: seq<Sys>, cs: seq<Cycle>) returns (tr': seq<Sys>, cs': seq<Cycle>)
    requires IsRun(Example, tr, cs) && Quiet(Last(tr))
    ensures IsRun(Example, tr', cs') && |cs'| == |cs| + 1 && tr'[0] == tr[0] && CalmMoved(Last(tr), Last(tr'))
  {
    var n := Next(Example, Last(tr), Calm);
    CalmStep(Last(tr));
    RunSnoc(Example, tr, cs, Calm, n);
    tr', cs' := tr + [n], cs + [Calm];
  }

  lemma {:induction false} TwoCalm(s: Sys) returns (tr: seq<Sys>, cs: seq<Cycle>)
    requires Initial(s) && s.p.pc == 0 && Quiet(s) && s.p.idOf.i.cmd == NoUnit
    ensures IsRun(Example, tr, cs) && |cs| == 2 && tr[0] == s && WriterInOf(Last(tr).p) && Quiet(Last(tr))
  {
    FromReset(s);
    var tr1, cs1 := CalmExtend([s], []);
    Fetched(s, Last(tr1));
    tr, cs := CalmExtend(tr1, cs1);
    Decoded(Last(tr1), Last(tr));
  }

  /** From reset at that program: four cycles without stalls lead to an unsquashed CSR write that is about to
      leave EX with the written 7 in place of its immediate 5. */
  lemma {:induction false} CsrImmediateGoesWrong(s: Sys) returns (tr: seq<Sys>, cs: seq<Cycle>)
    requires Initial(s) && s.p.pc == 0 && Quiet(s) && s.p.idOf.i.cmd == NoUnit
    ensures IsRun(Example, tr, cs) && |cs| == 4 && tr[0] == s
    ensures var n := tr[4];
            && n.p.ofEx.v && n.p.ofEx.i.useUimm && n.p.ofEx.i.csrWe && n.p.ofEx.i.rs1 == 5 && ExSrc1(n.p) == 7
            && !Stall(Calm) && !Squash(n.p.exWb, Calm) && Allowed(n, Calm)
  {
    var tr2, cs2 := TwoCalm(s);
    var tr3, cs3 := CalmExtend(tr2, cs2);
    Arrived(Last(tr2), Last(tr3));
    tr, cs := CalmExtend(tr3, cs3);
    Bypassed(Last(tr3), Last(tr));
  }
}
