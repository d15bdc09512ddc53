/** What one instruction carries along from fetch to write-back, and what the sequential machine's instructions
    mean on numbers. */
module CpuJourney {
  import opened Words
  import Bru
  import opened Cpu
  import opened CpuProof

  // ---- From stage to stage ----

  /** The pipeline moves in cycles `i` and `j`, and stalls in between. */
  predicate NextMove(cs: seq<Cycle>, i: nat, j: nat) {
    i < j < |cs| && !Stall(cs[i]) && !Stall(cs[j]) && forall m | i < m < j :: Stall(cs[m])
  }

  /** All but the side register is as it was. */
  predicate SameStages(s: Sys, n: Sys) {
    n.p == s.p.(side := n.p.side) && n.wbCsr == s.wbCsr && n.wbUnit == s.wbUnit
  }

  lemma {:induction false} StallsHold(isa: Isa, tr: seq<Sys>, cs: seq<Cycle>, i: nat, j: nat)
    requires IsRun(isa, tr, cs) && i <= j <= |cs| && forall m | i <= m < j :: Stall(cs[m])
    ensures SameStages(tr[i], tr[j])
  {
    if i < j {
      StallsHold(isa, tr, cs, i, j - 1);
      assert tr[j] == Next(isa, tr[j - 1], cs[j - 1]);
    }
  }

  /** What the stages hold when the pipeline moves again. */
  lemma {:induction false} OneMove(isa: Isa, tr: seq<Sys>, cs: seq<Cycle>, i: nat, j: nat)
    requires IsRun(isa, tr, cs) && NextMove(cs, i, j)
    ensures tr[j].p.idOf == NextIdOf(isa, tr[i].p, cs[i]) && tr[j].p.ofEx == NextOfEx(tr[i].p, cs[i])
    ensures tr[j].p.exWb == NextExWb(isa, tr[i].p, cs[i]) && tr[j].wbCsr == tr[i].p.ofEx.csrRdata
  {
    assert tr[i + 1] == Next(isa, tr[i], cs[i]);
    StallsHold(isa, tr, cs, i + 1, j);
  }

  /** An older instruction that is still in EX or write-back writes the CSR with this number. */
  predicate CsrPending(p: Pipe, addr: nat) {
    || (p.ofEx.v && p.ofEx.i.csrWe && p.ofEx.i.csrAddr == addr)
    || (p.exWb.v && p.exWb.i.csrWe && p.exWb.i.csrAddr == addr)
  }

  /** From ID in cycle `h` by OF in cycle `i` and EX in cycle `j` to write-back in cycle `k`: the instruction keeps
      its pc, it is alive unless something squashed it on the way, its exception flag is what ID and OF found, and
      its CSR value is the one OF read, to be replayed if an older write of that CSR was pending then. */
  lemma {:induction false} Journey(isa: Isa, tr: seq<Sys>, cs: seq<Cycle>, h: nat, i: nat, j: nat, k: nat)
    requires IsRun(isa, tr, cs) && NextMove(cs, h, i) && NextMove(cs, i, j) && NextMove(cs, j, k)
    ensures var d, w := tr[h].p.ifId, tr[k].p.exWb;
            && w.pc == d.pc && w.i == isa.fetch(d.pc)
            && (w.v <==> d.v && !Squash(tr[h].p.exWb, cs[h]) && !Squash(tr[i].p.exWb, cs[i])
                         && !Squash(tr[j].p.exWb, cs[j]))
            && (w.exc <==> cs[h].idExc || cs[i].ofExc)
            && tr[k].wbCsr == cs[i].csrRdata
            && (w.replay <==> CsrPending(tr[i].p, w.i.csrAddr))
  {
    OneMove(isa, tr, cs, h, i);
    OneMove(isa, tr, cs, i, j);
    OneMove(isa, tr, cs, j, k);
  }

  /** A CSR value that might be stale never retires: the instruction leaves no trace and is fetched again, unless
      a trap takes it. */
  lemma {:induction false} StaleCsrIsReplayed(isa: Isa, tr: seq<Sys>, cs: seq<Cycle>, h: nat, i: nat, j: nat, k: nat)
    requires IsRun(isa, tr, cs) && NextMove(cs, h, i) && NextMove(cs, i, j) && NextMove(cs, j, k)
    requires tr[k].p.exWb.v && CsrPending(tr[i].p, tr[k].p.exWb.i.csrAddr)
    ensures tr[k + 1].p.regs == tr[k].p.regs
    ensures !tr[k + 1].p.ifId.v && !tr[k + 1].p.idOf.v && !tr[k + 1].p.ofEx.v && !tr[k + 1].p.exWb.v
    ensures tr[k + 1].p.pc == if WbExc(tr[k].p.exWb, cs[k]) then cs[k].vector else tr[h].p.ifId.pc
  {
    Journey(isa, tr, cs, h, i, j, k);
    assert tr[k + 1] == Next(isa, tr[k], cs[k]);
  }

  /** An exception found in ID or OF is taken, whatever else the instruction is. */
  lemma {:induction false} ExceptionIsTaken(isa: Isa, tr: seq<Sys>, cs: seq<Cycle>, h: nat, i: nat, j: nat, k: nat)
    requires IsRun(isa, tr, cs) && NextMove(cs, h, i) && NextMove(cs, i, j) && NextMove(cs, j, k)
    requires tr[k].p.exWb.v && (cs[h].idExc || cs[i].ofExc)
    ensures tr[k + 1].p.regs == tr[k].p.regs && tr[k + 1].p.pc == cs[k].vector
    ensures !tr[k + 1].p.ifId.v && !tr[k + 1].p.idOf.v && !tr[k + 1].p.ofEx.v && !tr[k + 1].p.exWb.v
  {
    Journey(isa, tr, cs, h, i, j, k);
    assert tr[k + 1] == Next(isa, tr[k], cs[k]);
  }

  // ---- One instruction on numbers ----

  /** x0 reads as 0, the others as they stand. */
  lemma {:induction false} RegistersAre(r: RegFile, n: nat)
    requires n < 32
    ensures ReadReg(r, n) == if n == 0 then 0 else r[n]
  {
  }

  /** An instruction that no exception, replay or flush interferes with. */
  predicate Undisturbed(i: Instr, e: Event) {
    !e.preExc && !e.unitExc && !e.replay && !i.isRet && !i.fencei && !i.sfence && !i.csrWe
  }

  /** The destination, and nothing else, takes the one result there is: that of the ALU on both operands, the old
      CSR value, or what a unit returned. */
  lemma {:induction false} PlainWrites(isa: Isa, m: Arch, e: Event)
    requires DecoderOk(isa) && Undisturbed(isa.fetch(m.pc), e)
    requires isa.fetch(m.pc).bru == Bru.NoBranch && isa.fetch(m.pc).rfWe
    ensures var i, n := isa.fetch(m.pc), Execute(isa, m, e);
            var a := if i.useUimm then i.rs1 else if i.rs1 == 0 then 0 else m.regs[i.rs1];
            var b := match i.src2
                     case FromPc => (m.pc + i.imm) % 0x1_0000_0000
                     case FromImm => i.imm
                     case FromReg => if i.rs2 == 0 then 0 else m.regs[i.rs2];
            var alu := isa.alu(i.alu, a, b);
            && n.pc == (m.pc + 4) % 0x1_0000_0000 && i.rd != 0
            && (e.csrRdata == 0 && e.unitRslt == 0 ==> n.regs == m.regs[i.rd := alu])
            && (alu == 0 && e.unitRslt == 0 ==> n.regs == m.regs[i.rd := e.csrRdata])
            && (alu == 0 && e.csrRdata == 0 ==> n.regs == m.regs[i.rd := e.unitRslt])
  {
    assert InstrOk(isa, isa.fetch(m.pc));
    Bru.TakenIsTheIsa(Bru.Beq, Operand1(isa.fetch(m.pc), m.regs), Operand2(isa.fetch(m.pc), m.regs, m.pc));
    var i := isa.fetch(m.pc);
    var alu := isa.alu(i.alu, Operand1(i, m.regs), Operand2(i, m.regs, m.pc));
    OrZero(alu);
    OrZero(e.csrRdata);
    OrZero(e.unitRslt);
    OrZero(0);
  }

  lemma {:induction false} TransferGoes(isa: Isa, m: Arch, e: Event, a: Word, b: Word)
    requires Undisturbed(isa.fetch(m.pc), e)
    requires a == Operand1(isa.fetch(m.pc), m.regs) && b == Operand2(isa.fetch(m.pc), m.regs, m.pc)
    ensures var i, n := isa.fetch(m.pc), Execute(isa, m, e);
            var t := Bru.Target(i.bru, a, m.pc, i.imm);
            if !Bru.Taken(i.bru, a, b) then n.pc == Add(m.pc, 4)
            else if t / 2 % 2 == 1 then n == Arch(e.vector, m.regs)
            else n.pc == t
  {
  }

  lemma {:induction false} RegisterOperands(isa: Isa, m: Arch)
    requires DecoderOk(isa)
    ensures var i := isa.fetch(m.pc);
            && (!i.useUimm ==> Operand1(i, m.regs) == if i.rs1 == 0 then 0 else m.regs[i.rs1])
            && (i.src2 == FromReg ==> Operand2(i, m.regs, m.pc) == if i.rs2 == 0 then 0 else m.regs[i.rs2])
            && (i.bru.ctrlTsfr ==> !i.useUimm)
  {
    assert InstrOk(isa, isa.fetch(m.pc));
  }

  lemma {:induction false} Misaligned(t: Word)
    ensures t / 2 * 2 / 2 % 2 == 1 <==> t / 2 * 2 % 4 != 0
  {
  }

  /** A jump or branch goes where the ISA sends it; to a target that is not a multiple of four it traps. */
  lemma {:induction false} BranchGoes(isa: Isa, m: Arch, e: Event, k: Bru.Branch)
    requires DecoderOk(isa) && Undisturbed(isa.fetch(m.pc), e)
    requires isa.fetch(m.pc).bru == Bru.Decode(k) && isa.fetch(m.pc).src2 == FromReg
    ensures var i, n := isa.fetch(m.pc), Execute(isa, m, e);
            var a := if i.rs1 == 0 then 0 else m.regs[i.rs1];
            var b := if i.rs2 == 0 then 0 else m.regs[i.rs2];
            var t := ((if k.Jalr? then a else m.pc) + i.imm) % 0x1_0000_0000 / 2 * 2;
            if !Bru.Condition(k, a, b) then n.pc == (m.pc + 4) % 0x1_0000_0000
            else if t % 4 == 0 then n.pc == t
            else n == Arch(e.vector, m.regs)
  {
    var i := isa.fetch(m.pc);
    var a, b := Operand1(i, m.regs), Operand2(i, m.regs, m.pc);
    RegisterOperands(isa, m);
    TransferGoes(isa, m, e, a, b);
    Bru.TakenIsTheIsa(k, a, b);
    Bru.TargetIsTheIsa(k, a, m.pc, i.imm);
    Misaligned(((if k.Jalr? then a else m.pc) + i.imm) % 0x1_0000_0000);
  }

  lemma {:induction false} JumpLinks(isa: Isa, m: Arch, e: Event, k: Bru.Branch)
    requires DecoderOk(isa) && !e.preExc && !e.unitExc && !e.replay && e.csrRdata == 0 && e.unitRslt == 0
    requires isa.fetch(m.pc).bru == Bru.Decode(k) && isa.fetch(m.pc).rfWe && (k.Jal? || k.Jalr?)
    requires forall a, b :: isa.alu(isa.fetch(m.pc).alu, a, b) == 0
    requires !Traps(isa.fetch(m.pc), m.pc, Operand1(isa.fetch(m.pc), m.regs),
                    Operand2(isa.fetch(m.pc), m.regs, m.pc), e)
    ensures Execute(isa, m, e).regs == m.regs[isa.fetch(m.pc).rd := (m.pc + 4) % 0x1_0000_0000]
  {
    assert InstrOk(isa, isa.fetch(m.pc));
    Bru.LinkIsTheIsa(k, m.pc);
    OrZero((m.pc + 4) % 0x1_0000_0000);
  }
}
