/** The five-stage pipeline: program counter, squash logic, operand forwarding and write-back, one clock edge at
    a time, next to the sequential machine it implements.

    Decoding and the ALU are parameters (`Isa`); the branch predictor, the fetch unit's stalls, the execution
    units' delays and results, exceptions, interrupts and CSR values are inputs and may be anything. */
module Cpu {
  import opened Words
  import Bru

  datatype Src2 = FromReg | FromImm | FromPc

  /** What an instruction asks of the execution units. */
  datatype UnitCmd =
    | NoUnit
    | Memory
    | Mul(src1Signed: bool, src2Signed: bool, isHigh: bool)
    | Div(isSigned: bool, isRem: bool)

  /** A decoded instruction. */
  datatype Instr = Instr(
    rs1: nat, rs2: nat, rd: nat, rfWe: bool, useUimm: bool, src2: Src2, imm: Word,
    alu: nat, bru: Bru.Ctrl, cmd: UnitCmd, fencei: bool, sfence: bool, isRet: bool, csrWe: bool, csrAddr: nat)

  datatype Isa = Isa(fetch: Word -> Instr, alu: (nat, Word, Word) -> Word)

  /** What the decoder guarantees: register numbers are five bits, `rf_we` means rd is not x0, an immediate second
      operand comes with rs2 = 0, branch bits come with the control-transfer bit, and an instruction that takes
      its first operand from the CSR immediate uses it for the CSR only. */
  ghost predicate DecoderOk(isa: Isa) {
    forall pc: Word :: InstrOk(isa, isa.fetch(pc))
  }

  ghost predicate InstrOk(isa: Isa, i: Instr) {
    && i.rs1 < 32 && i.rs2 < 32 && i.rd < 32 && (i.rfWe ==> i.rd != 0)
    && (i.src2 != FromReg ==> i.rs2 == 0)
    && (i.bru.ctrlTsfr || i.bru == Bru.NoBranch)
    && (i.useUimm ==> i.cmd == NoUnit && i.bru == Bru.NoBranch && IgnoresFirst(isa, i.alu))
  }

  ghost predicate IgnoresFirst(isa: Isa, op: nat) {
    forall a, a', b :: isa.alu(op, a, b) == isa.alu(op, a', b)
  }

  type RegFile = s: seq<Word> | |s| == 32 witness
    [0, 0, 0, 0, 0, 0, 0, 0, 0, 0, 0, 0, 0, 0, 0, 0, 0, 0, 0, 0, 0, 0, 0, 0, 0, 0, 0, 0, 0, 0, 0, 0]

  function ReadReg(r: RegFile, n: nat): Word { if n == 0 || n >= 32 then 0 else r[n] }

  function WriteReg(r: RegFile, we: bool, n: nat, w: Word): RegFile { if we && n < 32 then r[n := w] else r }

  // ---- The sequential machine ----

  /** What the outside world did to one instruction: an exception or interrupt found before execution, one raised
      by the load/store unit, a replay, where traps and returns lead, and the CSR and unit values it got. */
  datatype Event = Event(preExc: bool, unitExc: bool, replay: bool, vector: Word, epc: Word, csrFlush: bool,
                         csrRdata: Word, unitRslt: Word)

  datatype Arch = Arch(pc: Word, regs: RegFile)

  function Operand1(i: Instr, r: RegFile): Word { if i.useUimm then i.rs1 % 32 else ReadReg(r, i.rs1) }

  function Operand2(i: Instr, r: RegFile, pc: Word): Word {
    match i.src2
    case FromPc => Add(pc, i.imm)
    case FromImm => i.imm
    case FromReg => ReadReg(r, i.rs2)
  }

  function ExResult(isa: Isa, i: Instr, pc: Word, a: Word, b: Word, csr: Word): Word {
    Or(Or(isa.alu(i.alu, a, b), Bru.Link(i.bru, pc)), csr)
  }

  predicate Traps(i: Instr, pc: Word, a: Word, b: Word, e: Event) {
    e.preExc || e.unitExc || (Bru.Taken(i.bru, a, b) && Bru.Target(i.bru, a, pc, i.imm) / 2 % 2 == 1)
  }

  /** One instruction of the sequential machine. */
  function Execute(isa: Isa, m: Arch, e: Event): Arch {
    var i := isa.fetch(m.pc);
    var a, b := Operand1(i, m.regs), Operand2(i, m.regs, m.pc);
    if Traps(i, m.pc, a, b, e) then Arch(e.vector, m.regs)
    else if e.replay then m
    else
      var regs := WriteReg(m.regs, i.rfWe, i.rd, Or(ExResult(isa, i, m.pc, a, b, e.csrRdata), e.unitRslt));
      Arch(if i.isRet then e.epc
           else if (i.csrWe && e.csrFlush) || i.fencei || i.sfence then Add(m.pc, 4)
           else if Bru.Taken(i.bru, a, b) then Bru.Target(i.bru, a, m.pc, i.imm)
           else Add(m.pc, 4),
           regs)
  }

  /** A command for an execution unit. */
  datatype Command = Command(pc: Word, a: Word, b: Word)

  function CommandOf(isa: Isa, m: Arch): Command {
    var i := isa.fetch(m.pc);
    Command(m.pc, Operand1(i, m.regs), Operand2(i, m.regs, m.pc))
  }

  /** The architectural state after a list of instructions, the pcs they ran at and the commands they gave. */
  function After(isa: Isa, m: Arch, es: seq<Event>): Arch {
    if es == [] then m else Execute(isa, After(isa, m, es[..|es| - 1]), es[|es| - 1])
  }

  function Path(isa: Isa, m: Arch, es: seq<Event>): seq<Word> {
    if es == [] then [] else Path(isa, m, es[..|es| - 1]) + [After(isa, m, es[..|es| - 1]).pc]
  }

  function Commands(isa: Isa, m: Arch, es: seq<Event>): seq<Command> {
    if es == [] then []
    else
      var before := After(isa, m, es[..|es| - 1]);
      Commands(isa, m, es[..|es| - 1])
      + if isa.fetch(before.pc).cmd != NoUnit && !es[|es| - 1].preExc then [CommandOf(isa, before)] else []
  }

  // ---- The pipeline ----

  datatype IfId = IfId(v: bool, pc: Word, predTkn: bool)
  datatype IdOf = IdOf(v: bool, pc: Word, predTkn: bool, exc: bool, i: Instr)
  datatype OfEx = OfEx(v: bool, pc: Word, predTkn: bool, exc: bool, i: Instr, fwd1: bool, fwd2: bool,
                       src1: Word, src2: Word, replay: bool, csrRdata: Word)
  datatype ExWb = ExWb(v: bool, pc: Word, exc: bool, i: Instr, ctrlTsfr: bool, tkn: bool, misp1: bool, misp2: bool,
                       tknPc: Word, misalign: bool, rslt: Word, replay: bool)

  datatype Pipe = Pipe(pc: Word, ifId: IfId, idOf: IdOf, ofEx: OfEx, exWb: ExWb, side: Word, regs: RegFile)

  /** The inputs of one cycle. */
  datatype Cycle = Cycle(
    ifuStall: bool, exStall: bool, unitOut: Word, predTkn: bool, predPc: Word, idExc: bool, ofExc: bool,
    csrRdata: Word, unitExc: bool, vector: Word, epc: Word, csrFlush: bool, unitRslt: Word)

  predicate Stall(c: Cycle) { c.ifuStall || c.exStall }

  predicate WbExc(w: ExWb, c: Cycle) { w.v && (w.exc || c.unitExc || w.misalign) }

  predicate WbReplay(w: ExWb) { w.v && w.replay }

  /** The instruction in write-back retires. */
  predicate WbV(w: ExWb, c: Cycle) { w.v && !WbExc(w, c) && !WbReplay(w) }

  predicate Eret(w: ExWb, c: Cycle) { WbV(w, c) && w.i.isRet }

  predicate Flush(w: ExWb, c: Cycle) {
    (WbV(w, c) && w.i.csrWe && c.csrFlush) || (w.v && w.i.sfence) || (w.v && w.i.fencei)
  }

  predicate Misp(w: ExWb) { w.v && w.ctrlTsfr && if w.tkn then w.misp1 else w.misp2 }

  predicate Squash(w: ExWb, c: Cycle) {
    WbExc(w, c) || Eret(w, c) || WbReplay(w) || Flush(w, c) || Misp(w)
  }

  function NextPc(p: Pipe, c: Cycle): Word {
    var w := p.exWb;
    if WbExc(w, c) then c.vector
    else if Eret(w, c) then c.epc
    else if WbReplay(w) then w.pc
    else if Flush(w, c) then Add(w.pc, 4)
    else if Misp(w) then (if w.tkn then w.tknPc else Add(w.pc, 4))
    else if c.predTkn then c.predPc
    else Add(p.pc, 4)
  }

  function WbRslt(p: Pipe): Word { Or(p.exWb.rslt, p.side) }

  predicate Writes(v: bool, i: Instr, r: nat) { v && i.rfWe && i.rd == r }

  function OfSrc1(p: Pipe): Word {
    if p.idOf.i.useUimm then p.idOf.i.rs1 % 32
    else if Writes(p.exWb.v, p.exWb.i, p.idOf.i.rs1) then WbRslt(p)
    else ReadReg(p.regs, p.idOf.i.rs1)
  }

  function OfSrc2(p: Pipe): Word {
    match p.idOf.i.src2
    case FromPc => Add(p.idOf.pc, p.idOf.i.imm)
    case FromImm => p.idOf.i.imm
    case FromReg => if Writes(p.exWb.v, p.exWb.i, p.idOf.i.rs2) then WbRslt(p) else ReadReg(p.regs, p.idOf.i.rs2)
  }

  /** The operands the EX stage uses. */
  function ExSrc1(p: Pipe): Word { if p.ofEx.fwd1 then WbRslt(p) else p.ofEx.src1 }

  function ExSrc2(p: Pipe): Word { if p.ofEx.fwd2 then WbRslt(p) else p.ofEx.src2 }

  function CsrHazard(v: bool, i: Instr, addr: nat): bool { v && i.csrWe && i.csrAddr == addr }

  function NextIdOf(isa: Isa, p: Pipe, c: Cycle): IdOf {
    IdOf(p.ifId.v && !Squash(p.exWb, c), p.ifId.pc, p.ifId.predTkn, c.idExc, isa.fetch(p.ifId.pc))
  }

  function NextOfEx(p: Pipe, c: Cycle): OfEx {
    var d := p.idOf;
    OfEx(d.v && !Squash(p.exWb, c), d.pc, d.predTkn, d.exc || c.ofExc, d.i,
         Writes(p.ofEx.v, p.ofEx.i, d.i.rs1), Writes(p.ofEx.v, p.ofEx.i, d.i.rs2), OfSrc1(p), OfSrc2(p),
         CsrHazard(p.ofEx.v, p.ofEx.i, d.i.csrAddr) || CsrHazard(p.exWb.v, p.exWb.i, d.i.csrAddr), c.csrRdata)
  }

  function NextExWb(isa: Isa, p: Pipe, c: Cycle): ExWb {
    var x := p.ofEx;
    var a, b := ExSrc1(p), ExSrc2(p);
    var tkn, tknPc := Bru.Taken(x.i.bru, a, b), Bru.Target(x.i.bru, a, x.pc, x.i.imm);
    ExWb(x.v && !Squash(p.exWb, c), x.pc, x.exc, x.i, x.i.bru.ctrlTsfr || x.predTkn, tkn,
         p.idOf.pc != tknPc, p.idOf.pc != Add(x.pc, 4), tknPc, tkn && tknPc / 2 % 2 == 1,
         ExResult(isa, x.i, x.pc, a, b, x.csrRdata), x.replay)
  }

  /** One clock edge. */
  function Step(isa: Isa, p: Pipe, c: Cycle): Pipe {
    if Stall(c) then p.(side := if c.exStall then c.unitOut else p.side)
    else Pipe(NextPc(p, c), IfId(!Squash(p.exWb, c), p.pc, c.predTkn), NextIdOf(isa, p, c), NextOfEx(p, c),
              NextExWb(isa, p, c), 0,
              WriteReg(p.regs, WbV(p.exWb, c) && p.exWb.i.rfWe, p.exWb.i.rd, WbRslt(p)))
  }

  /** A unit command leaves EX in this cycle. */
  predicate Issues(p: Pipe, c: Cycle) {
    !Stall(c) && p.ofEx.v && !p.ofEx.exc && !Squash(p.exWb, c) && p.ofEx.i.cmd != NoUnit
  }

  /** The pipeline with its histories: what each instruction in write-back was told, the pcs that left write-back
      and the commands issued.  `wbUnit` and `wbCsr` remember, for the instruction in write-back, the result its
      unit is going to give and the CSR value it read. */
  datatype Sys = Sys(p: Pipe, wbUnit: Word, wbCsr: Word, events: seq<Event>, pcs: seq<Word>, commands: seq<Command>)

  function EventOf(s: Sys, c: Cycle): Event {
    Event(s.p.exWb.exc, c.unitExc, s.p.exWb.replay, c.vector, c.epc, c.csrFlush, s.wbCsr, s.wbUnit)
  }

  function Next(isa: Isa, s: Sys, c: Cycle): Sys {
    var leaves := !Stall(c) && s.p.exWb.v;
    Sys(Step(isa, s.p, c),
        if Stall(c) then s.wbUnit else if Issues(s.p, c) then c.unitRslt else 0,
        if Stall(c) then s.wbCsr else s.p.ofEx.csrRdata,
        if leaves then s.events + [EventOf(s, c)] else s.events,
        if leaves then s.pcs + [s.p.exWb.pc] else s.pcs,
        if Issues(s.p, c) then s.commands + [Command(s.p.ofEx.pc, ExSrc1(s.p), ExSrc2(s.p))] else s.commands)
  }

  /** The contract of the execution units: when the pipeline moves, the side register holds the result of the
      command that belongs to the instruction in write-back, zero without one. */
  predicate Allowed(s: Sys, c: Cycle) { !Stall(c) ==> s.p.side == s.wbUnit }

  predicate Initial(s: Sys) {
    && !s.p.ifId.v && !s.p.idOf.v && !s.p.ofEx.v && !s.p.exWb.v
    && s.events == [] && s.pcs == [] && s.commands == []
  }

  ghost predicate IsRun(isa: Isa, tr: seq<Sys>, cs: seq<Cycle>) {
    && DecoderOk(isa) && |tr| == |cs| + 1 && Initial(tr[0])
    && forall k | 0 <= k < |cs| :: Allowed(tr[k], cs[k]) && tr[k + 1] == Next(isa, tr[k], cs[k])
  }
}
