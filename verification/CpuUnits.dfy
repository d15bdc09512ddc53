/** The pipeline with its multiplier and divider: what the pipeline alone takes for granted about unit results
    is proved here, so that the sequential machine it implements multiplies and divides as the ISA says.

    The fetch unit and the load/store unit remain the environment. */
module CpuUnits {
  import opened Words
  import M = Multiplier
  import D = Divider
  import U = ExecUnits
  import C = Cpu
  import P = CpuProof
  import J = CpuJourney
  import Bru

  datatype Sys = Sys(cpu: C.Sys, units: U.Sys)

  /** The inputs of one cycle.  `memRslt` names the value that a memory access issued now will have left in the
      side register when it is done. */
  datatype Cycle = Cycle(
    ifuStall: bool, ibusReady: bool, lsuStall: bool, dbusReady: bool, lsuRslt: Word, memRslt: Word,
    predTkn: bool, predPc: Word, idExc: bool, ofExc: bool, csrRdata: Word, unitExc: bool, vector: Word, epc: Word,
    csrFlush: bool)

  // ---- The wires between pipeline and units ----

  /** The pipeline's inputs as far as they come from elsewhere. */
  function Outside(c: Cycle): C.Cycle {
    C.Cycle(c.ifuStall, false, 0, c.predTkn, c.predPc, c.idExc, c.ofExc, c.csrRdata, c.unitExc, c.vector, c.epc,
            c.csrFlush, 0)
  }

  /** The command in EX, with the operands behind the bypass multiplexers. */
  function UnitPins(s: Sys, c: Cycle): U.Cycle {
    var x, cmd := s.cpu.p.ofEx, s.cpu.p.ofEx.i.cmd;
    U.Cycle(x.v && !x.exc && !C.Squash(s.cpu.p.exWb, Outside(c)),
            cmd.Mul?, cmd.Mul? && cmd.src1Signed, cmd.Mul? && cmd.src2Signed, cmd.Mul? && cmd.isHigh,
            cmd.Div?, cmd.Div? && cmd.isSigned, cmd.Div? && cmd.isRem, cmd.Memory?,
            C.ExSrc1(s.cpu.p), C.ExSrc2(s.cpu.p),
            c.ifuStall, c.ibusReady, c.lsuStall, c.dbusReady, c.lsuRslt)
  }

  function PipePins(s: Sys, c: Cycle): C.Cycle {
    var u := UnitPins(s, c);
    Outside(c).(exStall := U.ExStall(s.units, u),
                unitOut := Or(Or(c.lsuRslt, M.Output(s.units.mul)), D.Output(s.units.div)),
                unitRslt := if U.Pending(U.Demand(u)) then U.Expected(U.Demand(u)) else c.memRslt)
  }

  function Next(isa: C.Isa, s: Sys, c: Cycle): Sys {
    Sys(C.Next(isa, s.cpu, PipePins(s, c)), U.Step(s.units, UnitPins(s, c)))
  }

  /** A load/store unit without a command is idle, and `memRslt` is what it says it is. */
  predicate Allowed(s: Sys, c: Cycle) {
    && (s.units.wb != U.Access ==> !c.lsuStall && c.dbusReady && c.lsuRslt == 0)
    && (s.units.wb == U.Access && !C.Stall(PipePins(s, c)) ==> s.cpu.p.side == s.cpu.wbUnit)
  }

  ghost predicate Initial(s: Sys) {
    C.Initial(s.cpu) && U.Initial(s.units) && s.cpu.p.side == 0 && s.cpu.wbUnit == 0
  }

  ghost predicate IsRun(isa: C.Isa, tr: seq<Sys>, cs: seq<Cycle>) {
    && C.DecoderOk(isa) && |tr| == |cs| + 1 && Initial(tr[0])
    && forall k | 0 <= k < |cs| :: Allowed(tr[k], cs[k]) && tr[k + 1] == Next(isa, tr[k], cs[k])
  }

  // ---- The sequential machine with the M extension ----

  function CommandFor(cmd: C.UnitCmd, c: C.Command): U.Command {
    match cmd
    case NoUnit => U.NoCommand
    case Memory => U.Access
    case Mul(src1Signed, src2Signed, isHigh) => U.Multiply(M.Op(src1Signed, src2Signed, isHigh, c.a, c.b))
    case Div(isSigned, isRem) => U.Divide(D.Op(isSigned, isRem, c.a, c.b))
  }

  /** What the next instruction asks of the units, with the machine's own operands. */
  function CommandAt(isa: C.Isa, m: C.Arch): U.Command { CommandFor(isa.fetch(m.pc).cmd, C.CommandOf(isa, m)) }

  /** Products, quotients and remainders are the ISA's; only a memory access takes its value from outside. */
  function Execute(isa: C.Isa, m: C.Arch, e: C.Event): C.Arch {
    var k := CommandAt(isa, m);
    C.Execute(isa, m, e.(unitRslt := if U.Pending(k) then U.Expected(k) else if k == U.Access then e.unitRslt else 0))
  }

  function After(isa: C.Isa, m: C.Arch, es: seq<C.Event>): C.Arch {
    if es == [] then m else Execute(isa, After(isa, m, es[..|es| - 1]), es[|es| - 1])
  }

  function Path(isa: C.Isa, m: C.Arch, es: seq<C.Event>): seq<Word> {
    if es == [] then [] else Path(isa, m, es[..|es| - 1]) + [After(isa, m, es[..|es| - 1]).pc]
  }

  // ---- The invariant ----

  /** The result an instruction got is that of its own command on the sequential operands. */
  predicate RightResult(isa: C.Isa, m: C.Arch, e: C.Event) {
    !e.preExc ==>
      && (U.Pending(CommandAt(isa, m)) ==> e.unitRslt == U.Expected(CommandAt(isa, m)))
      && (CommandAt(isa, m) == U.NoCommand ==> e.unitRslt == 0)
  }

  ghost predicate RightResults(isa: C.Isa, m0: C.Arch, es: seq<C.Event>) {
    forall j | 0 <= j < |es| :: RightResult(isa, C.After(isa, m0, es[..j]), es[j])
  }

  /** What the instruction in write-back asked for. */
  function Asked(isa: C.Isa, p: C.Pipe, m: C.Arch): U.Command {
    if p.exWb.v && !p.exWb.exc then CommandAt(isa, m) else U.NoCommand
  }

  /** The result that the pipeline's histories expect is the one its unit is working on. */
  predicate Promised(s: Sys) {
    && (U.Pending(s.units.wb) ==> s.cpu.wbUnit == U.Expected(s.units.wb))
    && (s.units.wb == U.NoCommand ==> s.cpu.wbUnit == 0)
  }

  ghost predicate Coupled(isa: C.Isa, s: Sys, m: C.Arch) {
    U.Units(s.units) && s.units.side == s.cpu.p.side && s.units.wb == Asked(isa, s.cpu.p, m) && Promised(s)
  }

  ghost predicate Inv(isa: C.Isa, s: Sys, m0: C.Arch) {
    && P.Inv(isa, s.cpu, m0) && Coupled(isa, s, C.After(isa, m0, s.cpu.events))
    && RightResults(isa, m0, s.cpu.events)
  }

  // ---- One edge ----

  /** The units keep their side of the pipeline's contract. */
  lemma {:induction false} ContractIsKept(s: Sys, c: Cycle)
    requires U.Units(s.units) && s.units.side == s.cpu.p.side && Promised(s) && Allowed(s, c)
    ensures C.Allowed(s.cpu, PipePins(s, c)) && U.Allowed(s.units, UnitPins(s, c))
    ensures C.Stall(PipePins(s, c)) <==> U.Stall(s.units, UnitPins(s, c))
  {
  }

  /** The two models of the side register are one register. */
  lemma {:induction false} OneSideRegister(isa: C.Isa, s: Sys, c: Cycle)
    requires s.units.side == s.cpu.p.side
    ensures Next(isa, s, c).units.side == Next(isa, s, c).cpu.p.side
  {
  }

  lemma {:induction false} DemandInEx(s: Sys, c: Cycle)
    ensures var p, x := s.cpu.p, s.cpu.p.ofEx;
            var valid := x.v && !x.exc && !C.Squash(p.exWb, PipePins(s, c));
            var command := C.Command(x.pc, C.ExSrc1(p), C.ExSrc2(p));
            U.Demand(UnitPins(s, c)) == if valid then CommandFor(x.i.cmd, command) else U.NoCommand
  {
  }

  /** The command in EX is the one the sequential machine gives at the instruction that enters write-back. */
  lemma {:induction false} DemandIsAsked(isa: C.Isa, s: Sys, c: Cycle, m: C.Arch)
    requires C.DecoderOk(isa) && P.Follows(isa, s.cpu.p, s.cpu.wbCsr, m)
    requires C.Allowed(s.cpu, PipePins(s, c)) && !C.Stall(PipePins(s, c))
    ensures U.Demand(UnitPins(s, c))
         == Asked(isa, C.Step(isa, s.cpu.p, PipePins(s, c)), P.Retired(isa, s.cpu, PipePins(s, c), m))
  {
    DemandInEx(s, c);
    if s.cpu.p.ofEx.v && !C.Squash(s.cpu.p.exWb, PipePins(s, c)) {
      EntersWriteBack(isa, s.cpu, PipePins(s, c), m);
    }
  }

  /** The instruction that leaves EX is the sequential machine's next one, with its operands if a unit needs them. */
  lemma {:induction false} EntersWriteBack(isa: C.Isa, s: C.Sys, c: C.Cycle, m: C.Arch)
    requires C.DecoderOk(isa) && P.Follows(isa, s.p, s.wbCsr, m) && C.Allowed(s, c) && !C.Stall(c)
    requires s.p.ofEx.v && !C.Squash(s.p.exWb, c)
    ensures var m', i := P.Retired(isa, s, c, m), s.p.ofEx.i;
            && i == isa.fetch(m'.pc)
            && (i.cmd != C.NoUnit ==> C.CommandOf(isa, m') == C.Command(m'.pc, C.ExSrc1(s.p), C.ExSrc2(s.p)))
  {
    P.WriteBackIsExecute(isa, s, c, m);
    P.OperandsAreSequential(isa, s, c, m);
    assert C.InstrOk(isa, isa.fetch(s.p.ofEx.pc));
  }

  lemma {:induction false} IssueIsPromised(isa: C.Isa, s: Sys, c: Cycle)
    requires !C.Stall(PipePins(s, c)) && !U.Stall(s.units, UnitPins(s, c))
    ensures Promised(Next(isa, s, c))
  {
  }

  lemma {:induction false} MovedCoupled(isa: C.Isa, s: Sys, c: Cycle, m: C.Arch)
    requires C.DecoderOk(isa) && P.Follows(isa, s.cpu.p, s.cpu.wbCsr, m) && Coupled(isa, s, m) && Allowed(s, c)
    requires !C.Stall(PipePins(s, c))
    ensures Coupled(isa, Next(isa, s, c), P.Retired(isa, s.cpu, PipePins(s, c), m))
  {
    ContractIsKept(s, c);
    U.UnitsKeep(s.units, UnitPins(s, c));
    OneSideRegister(isa, s, c);
    DemandIsAsked(isa, s, c, m);
    IssueIsPromised(isa, s, c);
  }

  lemma {:induction false} StalledCoupled(isa: C.Isa, s: Sys, c: Cycle, m: C.Arch)
    requires Coupled(isa, s, m) && Allowed(s, c) && C.Stall(PipePins(s, c))
    ensures Coupled(isa, Next(isa, s, c), m)
  {
    ContractIsKept(s, c);
    U.UnitsKeep(s.units, UnitPins(s, c));
    OneSideRegister(isa, s, c);
  }

  /** When an instruction leaves write-back, the result it takes along is right. */
  lemma {:induction false} LeavesWithResult(isa: C.Isa, s: Sys, c: C.Cycle, m: C.Arch)
    requires Coupled(isa, s, m) && s.cpu.p.exWb.v
    ensures RightResult(isa, m, C.EventOf(s.cpu, c))
  {
  }

  lemma {:induction false} RightSnoc(isa: C.Isa, m0: C.Arch, es: seq<C.Event>, e: C.Event)
    requires RightResults(isa, m0, es) && RightResult(isa, C.After(isa, m0, es), e)
    ensures RightResults(isa, m0, es + [e])
  {
    forall j | 0 <= j < |es + [e]|
      ensures RightResult(isa, C.After(isa, m0, (es + [e])[..j]), (es + [e])[j])
    {
      assert (es + [e])[..j] == es[..j] && es[..|es|] == es;
    }
  }

  /** The history of the pipeline after one edge. */
  lemma {:induction false} HistoryMoves(isa: C.Isa, s: C.Sys, c: C.Cycle, m0: C.Arch)
    requires !C.Stall(c)
    ensures var es := C.Next(isa, s, c).events;
            && es == (if s.p.exWb.v then s.events + [C.EventOf(s, c)] else s.events)
            && C.After(isa, m0, es) == P.Retired(isa, s, c, C.After(isa, m0, s.events))
  {
    P.HistorySnoc(isa, m0, s.events, C.EventOf(s, c));
  }

  lemma {:induction false} StepKeeps(isa: C.Isa, s: Sys, c: Cycle, m0: C.Arch)
    requires C.DecoderOk(isa) && Inv(isa, s, m0) && Allowed(s, c)
    ensures C.Allowed(s.cpu, PipePins(s, c)) && U.Allowed(s.units, UnitPins(s, c))
    ensures Inv(isa, Next(isa, s, c), m0)
  {
    var m, pins := C.After(isa, m0, s.cpu.events), PipePins(s, c);
    ContractIsKept(s, c);
    P.StepKeeps(isa, s.cpu, pins, m0);
    if C.Stall(pins) {
      StalledCoupled(isa, s, c, m);
    } else {
      HistoryMoves(isa, s.cpu, pins, m0);
      MovedCoupled(isa, s, c, m);
      if s.cpu.p.exWb.v {
        LeavesWithResult(isa, s, pins, m);
        RightSnoc(isa, m0, s.cpu.events, C.EventOf(s.cpu, pins));
      }
    }
  }

  function Start(tr: seq<Sys>): C.Arch
    requires |tr| > 0
  {
    C.Arch(tr[0].cpu.p.pc, tr[0].cpu.p.regs)
  }

  lemma {:induction false} RunKeeps(isa: C.Isa, tr: seq<Sys>, cs: seq<Cycle>, k: nat)
    requires IsRun(isa, tr, cs) && k < |tr|
    ensures Inv(isa, tr[k], Start(tr))
  {
    if k > 0 {
      RunKeeps(isa, tr, cs, k - 1);
      StepKeeps(isa, tr[k - 1], cs[k - 1], Start(tr));
    }
  }

  // ---- The main results ----

  function PipeTrace(tr: seq<Sys>): seq<C.Sys> { seq(|tr|, k requires 0 <= k < |tr| => tr[k].cpu) }

  function PipeCycles(tr: seq<Sys>, cs: seq<Cycle>): seq<C.Cycle>
    requires |tr| == |cs| + 1
  {
    seq(|cs|, k requires 0 <= k < |cs| => PipePins(tr[k], cs[k]))
  }

  function UnitTrace(tr: seq<Sys>): seq<U.Sys> { seq(|tr|, k requires 0 <= k < |tr| => tr[k].units) }

  function UnitCycles(tr: seq<Sys>, cs: seq<Cycle>): seq<U.Cycle>
    requires |tr| == |cs| + 1
  {
    seq(|cs|, k requires 0 <= k < |cs| => UnitPins(tr[k], cs[k]))
  }

  lemma {:induction false} EdgeOf(isa: C.Isa, tr: seq<Sys>, cs: seq<Cycle>, k: nat)
    requires IsRun(isa, tr, cs) && k < |cs|
    ensures tr[k + 1] == Next(isa, tr[k], cs[k])
    ensures C.Allowed(tr[k].cpu, PipePins(tr[k], cs[k])) && U.Allowed(tr[k].units, UnitPins(tr[k], cs[k]))
  {
    RunKeeps(isa, tr, cs, k);
    StepKeeps(isa, tr[k], cs[k], Start(tr));
  }

  /** Both halves of a run are runs of the two models: what each assumes of the other, the other provides. */
  lemma {:induction false} BothHalvesAreRuns(isa: C.Isa, tr: seq<Sys>, cs: seq<Cycle>)
    requires IsRun(isa, tr, cs)
    ensures C.IsRun(isa, PipeTrace(tr), PipeCycles(tr, cs))
    ensures U.IsRun(UnitTrace(tr), UnitCycles(tr, cs))
  {
    PipeHalf(isa, tr, cs);
    UnitHalf(isa, tr, cs);
  }

  lemma {:induction false} PipeHalf(isa: C.Isa, tr: seq<Sys>, cs: seq<Cycle>)
    requires IsRun(isa, tr, cs)
    ensures C.IsRun(isa, PipeTrace(tr), PipeCycles(tr, cs))
  {
    forall k | 0 <= k < |cs|
      ensures C.Allowed(tr[k].cpu, PipePins(tr[k], cs[k]))
      ensures tr[k + 1].cpu == C.Next(isa, tr[k].cpu, PipePins(tr[k], cs[k]))
    {
      EdgeOf(isa, tr, cs, k);
    }
  }

  lemma {:induction false} UnitHalf(isa: C.Isa, tr: seq<Sys>, cs: seq<Cycle>)
    requires IsRun(isa, tr, cs)
    ensures U.IsRun(UnitTrace(tr), UnitCycles(tr, cs))
  {
    forall k | 0 <= k < |cs|
      ensures U.Allowed(tr[k].units, UnitPins(tr[k], cs[k]))
      ensures tr[k + 1].units == U.Step(tr[k].units, UnitPins(tr[k], cs[k]))
    {
      EdgeOf(isa, tr, cs, k);
    }
  }

  lemma {:induction false} RightPrefix(isa: C.Isa, m0: C.Arch, es: seq<C.Event>, n: nat)
    requires RightResults(isa, m0, es) && n <= |es|
    ensures RightResults(isa, m0, es[..n])
    ensures n < |es| ==> RightResult(isa, C.After(isa, m0, es[..n]), es[n])
  {
    forall j | 0 <= j < n
      ensures RightResult(isa, C.After(isa, m0, es[..n][..j]), es[..n][j])
    {
      assert es[..n][..j] == es[..j];
    }
  }

  lemma {:induction false} SameMachine(isa: C.Isa, m0: C.Arch, es: seq<C.Event>)
    requires RightResults(isa, m0, es)
    ensures After(isa, m0, es) == C.After(isa, m0, es) && Path(isa, m0, es) == C.Path(isa, m0, es)
  {
    if es != [] {
      var last := |es| - 1;
      RightPrefix(isa, m0, es, last);
      SameMachine(isa, m0, es[..last]);
      SameInstruction(isa, C.After(isa, m0, es[..last]), es[last]);
    }
  }

  lemma {:induction false} SameInstruction(isa: C.Isa, m: C.Arch, e: C.Event)
    requires RightResult(isa, m, e)
    ensures Execute(isa, m, e) == C.Execute(isa, m, e)
  {
  }

  /** Whatever stalls, is predicted or squashed: the pipeline with its units executes the sequential machine whose
      multiply and divide instructions have the meaning the M extension gives them. */
  lemma {:induction false} RefinesWithUnits(isa: C.Isa, tr: seq<Sys>, cs: seq<Cycle>, k: nat)
    requires IsRun(isa, tr, cs) && k < |tr|
    ensures var s, m := tr[k].cpu, After(isa, Start(tr), tr[k].cpu.events);
            s.pcs == Path(isa, Start(tr), s.events) && s.p.regs == m.regs && P.HeadPc(s.p) == m.pc
  {
    RunKeeps(isa, tr, cs, k);
    SameMachine(isa, Start(tr), tr[k].cpu.events);
  }

  /** Every multiplication and division that left write-back took along the ISA's result for the operands of the
      sequential machine at that instruction. */
  lemma {:induction false} ResultsAreTheIsa(isa: C.Isa, tr: seq<Sys>, cs: seq<Cycle>, k: nat, j: nat)
    requires IsRun(isa, tr, cs) && k < |tr| && j < |tr[k].cpu.events|
    requires var es := tr[k].cpu.events;
             !es[j].preExc && U.Pending(CommandAt(isa, After(isa, Start(tr), es[..j])))
    ensures var es := tr[k].cpu.events;
            es[j].unitRslt == U.Expected(CommandAt(isa, After(isa, Start(tr), es[..j])))
  {
    RunKeeps(isa, tr, cs, k);
    RightPrefix(isa, Start(tr), tr[k].cpu.events, j);
    SameMachine(isa, Start(tr), tr[k].cpu.events[..j]);
  }

  // ---- The instructions on numbers ----

  /** The unit commands, as the decoder sets their control bits. */
  function MulCmd(k: M.Instr): C.UnitCmd {
    match k
    case Mul => C.Mul(false, false, false)
    case Mulh => C.Mul(true, true, true)
    case Mulhsu => C.Mul(true, false, true)
    case Mulhu => C.Mul(false, false, true)
  }

  function DivCmd(k: D.Instr): C.UnitCmd {
    match k
    case Div => C.Div(true, false)
    case Divu => C.Div(false, false)
    case Rem => C.Div(true, true)
    case Remu => C.Div(false, true)
  }

  lemma {:induction false} MulCommand(k: M.Instr, c: C.Command)
    ensures CommandFor(MulCmd(k), c) == U.Multiply(M.OpFor(k, c.a, c.b))
  {
    match k
    case _ =>
  }

  lemma {:induction false} DivCommand(k: D.Instr, c: C.Command)
    ensures CommandFor(DivCmd(k), c) == U.Divide(D.OpFor(k, c.a, c.b))
  {
    match k
    case _ =>
  }

  /** An instruction that only a unit answers: nothing interferes, and ALU and CSR contribute nothing. */
  ghost predicate UnitOnly(isa: C.Isa, m: C.Arch, e: C.Event) {
    var i := isa.fetch(m.pc);
    && J.Undisturbed(i, e) && i.bru == Bru.NoBranch && i.rfWe && i.src2 == C.FromReg && !i.useUimm
    && e.csrRdata == 0 && forall a, b :: isa.alu(i.alu, a, b) == 0
  }

  lemma {:induction false} UnitWrites(isa: C.Isa, m: C.Arch, e: C.Event)
    requires C.DecoderOk(isa) && UnitOnly(isa, m, e) && U.Pending(CommandAt(isa, m))
    ensures Execute(isa, m, e)
         == C.Arch((m.pc + 4) % 0x1_0000_0000, m.regs[isa.fetch(m.pc).rd := U.Expected(CommandAt(isa, m))])
  {
    J.PlainWrites(isa, m, e.(unitRslt := U.Expected(CommandAt(isa, m))));
  }

  lemma {:induction false} OperandsAre(isa: C.Isa, m: C.Arch, e: C.Event)
    requires C.DecoderOk(isa) && UnitOnly(isa, m, e)
    ensures var i, c := isa.fetch(m.pc), C.CommandOf(isa, m);
            && c.a == (if i.rs1 == 0 then 0 else m.regs[i.rs1])
            && c.b == (if i.rs2 == 0 then 0 else m.regs[i.rs2])
  {
    J.RegisterOperands(isa, m);
  }

  /** In the sequential machine, and by `RefinesWithUnits` in the pipeline, a multiply instruction leaves the word of
      the product that `MultipliesLikeTheIsa` describes in its destination, and goes on behind itself. */
  lemma {:induction false} MultiplyWrites(isa: C.Isa, m: C.Arch, e: C.Event, k: M.Instr)
    requires C.DecoderOk(isa) && UnitOnly(isa, m, e) && isa.fetch(m.pc).cmd == MulCmd(k)
    ensures var i := isa.fetch(m.pc);
            var a, b := if i.rs1 == 0 then 0 else m.regs[i.rs1], if i.rs2 == 0 then 0 else m.regs[i.rs2];
            Execute(isa, m, e) == C.Arch((m.pc + 4) % 0x1_0000_0000, m.regs[i.rd := M.Result(M.OpFor(k, a, b))])
  {
    OperandsAre(isa, m, e);
    MulCommand(k, C.CommandOf(isa, m));
    UnitWrites(isa, m, e);
  }

  /** Likewise a divide instruction, as `UnsignedIsTheIsa` and `SignedIsTheIsa` describe its result. */
  lemma {:induction false} DivideWrites(isa: C.Isa, m: C.Arch, e: C.Event, k: D.Instr)
    requires C.DecoderOk(isa) && UnitOnly(isa, m, e) && isa.fetch(m.pc).cmd == DivCmd(k)
    ensures var i := isa.fetch(m.pc);
            var a, b := if i.rs1 == 0 then 0 else m.regs[i.rs1], if i.rs2 == 0 then 0 else m.regs[i.rs2];
            Execute(isa, m, e) == C.Arch((m.pc + 4) % 0x1_0000_0000, m.regs[i.rd := D.Result(D.OpFor(k, a, b))])
  {
    OperandsAre(isa, m, e);
    DivCommand(k, C.CommandOf(isa, m));
    UnitWrites(isa, m, e);
  }
}
