/** The side result path of the pipeline: the multiplier and the divider share a stall network with the fetch
    and load/store units, and their results reach write-back through one OR-ed register.

    The fetch unit and the load/store unit are the environment: they may delay `ready` for as long as they like. */
module ExecUnits {
  import opened Words
  import M = Multiplier
  import D = Divider

  /** What the instruction in write-back asked of the units. */
  datatype Command = NoCommand | Multiply(mop: M.Op) | Divide(dop: D.Op) | Access

  datatype Sys = Sys(mul: M.Regs, div: D.Regs, side: Word, wb: Command, issued: seq<Command>, retired: seq<Word>)

  /** One cycle: the command in EX and the state of the two other units. */
  datatype Cycle = Cycle(
    cmdValid: bool, isMul: bool, src1Signed: bool, src2Signed: bool, isHigh: bool,
    isDiv: bool, isSigned: bool, isRem: bool, isMem: bool, src1: Word, src2: Word,
    ifuStall: bool, ibusReady: bool, lsuStall: bool, dbusReady: bool, lsuRslt: Word)

  function Demand(c: Cycle): Command {
    if !c.cmdValid then NoCommand
    else if c.isMul then Multiply(M.Op(c.src1Signed, c.src2Signed, c.isHigh, c.src1, c.src2))
    else if c.isDiv then Divide(D.Op(c.isSigned, c.isRem, c.src1, c.src2))
    else if c.isMem then Access
    else NoCommand
  }

  predicate ExStall(s: Sys, c: Cycle) { c.lsuStall || s.mul.stall || s.div.stall }

  predicate Stall(s: Sys, c: Cycle) { c.ifuStall || ExStall(s, c) }

  function MulPins(s: Sys, c: Cycle): M.Pins {
    M.Pins(c.cmdValid && !c.ifuStall && !c.lsuStall && !s.div.stall, c.isMul, c.src1Signed, c.src2Signed, c.isHigh,
           c.src1, c.src2, c.ibusReady && c.dbusReady && D.ReadyOut(s.div))
  }

  function DivPins(s: Sys, c: Cycle): D.Pins {
    D.Pins(c.cmdValid && !c.ifuStall && !c.lsuStall && !s.mul.stall, c.isDiv, c.isSigned, c.isRem,
           c.src1, c.src2, c.ibusReady && c.dbusReady && M.ReadyOut(s.mul))
  }

  predicate Pending(k: Command) { k.Multiply? || k.Divide? }

  function NextSide(s: Sys, c: Cycle): Word
  {
    if ExStall(s, c) then Or(Or(c.lsuRslt, M.Output(s.mul)), D.Output(s.div))
    else if !c.ifuStall then 0
    else s.side
  }

  /** One clock edge.  `issued` and `retired` log multiplications and divisions. */
  function Step(s: Sys, c: Cycle): Sys
  {
    var go := !Stall(s, c);
    Sys(M.Step(s.mul, MulPins(s, c)), D.Step(s.div, DivPins(s, c)), NextSide(s, c),
        if go then Demand(c) else s.wb,
        if go && Pending(Demand(c)) then s.issued + [Demand(c)] else s.issued,
        if go && Pending(s.wb) then s.retired + [s.side] else s.retired)
  }

  /** Decoded commands are exclusive, and a load/store unit without a command is idle. */
  predicate Allowed(s: Sys, c: Cycle) {
    && !(c.isMul && c.isDiv)
    && (s.wb != Access ==> !c.lsuStall && c.dbusReady && c.lsuRslt == 0)
  }

  function Expected(k: Command): Word
    requires Pending(k)
  {
    if k.Multiply? then M.Result(k.mop) else D.Result(k.dop)
  }

  ghost predicate Initial(s: Sys) {
    && s.mul.state == M.Idle && !s.mul.stall && s.div.state == D.Idle && !s.div.stall
    && s.side == 0 && s.wb == NoCommand && s.issued == [] && s.retired == []
  }

  ghost predicate Logs(s: Sys) {
    && (forall k | 0 <= k < |s.issued| :: Pending(s.issued[k]))
    && (if Pending(s.wb) then |s.issued| == |s.retired| + 1 && s.issued[|s.retired|] == s.wb
        else |s.issued| == |s.retired|)
    && forall k | 0 <= k < |s.retired| :: s.retired[k] == Expected(s.issued[k])
  }

  ghost predicate Units(s: Sys) {
    && s.mul.stall == (s.mul.state != M.Idle)
    && s.div.stall == (s.div.state != D.Idle)
    && match s.wb
       case NoCommand => s.mul.state == M.Idle && s.div.state == D.Idle && s.side == 0
       case Access => s.mul.state == M.Idle && s.div.state == D.Idle
       case Multiply(o) =>
         s.div.state == D.Idle && M.Working(s.mul, o) && (s.mul.state == M.Idle ==> s.side == M.Result(o))
       case Divide(o) =>
         s.mul.state == M.Idle && D.Working(s.div, o) && (s.div.state == D.Idle ==> s.side == D.Result(o))
  }

  lemma {:induction false} MultiplyKeeps(s: Sys, c: Cycle)
    requires Units(s) && Allowed(s, c) && s.wb.Multiply?
    ensures Units(Step(s, c))
  {
    OrZero(M.Output(s.mul));
    OrZero(0);
    M.StepKeeps(s.mul, MulPins(s, c), s.wb.mop);
  }

  lemma {:induction false} DivideKeeps(s: Sys, c: Cycle)
    requires Units(s) && Allowed(s, c) && s.wb.Divide?
    ensures Units(Step(s, c))
  {
    OrZero(D.Output(s.div));
    OrZero(0);
    D.StepKeeps(s.div, DivPins(s, c), s.wb.dop);
  }

  lemma {:induction false} UnitsKeep(s: Sys, c: Cycle)
    requires Units(s) && Allowed(s, c)
    ensures Units(Step(s, c))
  {
    match s.wb
    case Multiply(_) => MultiplyKeeps(s, c);
    case Divide(_) => DivideKeeps(s, c);
    case _ =>
  }

  lemma {:induction false} LogsKeep(s: Sys, c: Cycle)
    requires Units(s) && Logs(s) && Allowed(s, c)
    ensures Logs(Step(s, c))
  {
  }

  /** A unit starts on a valid command of its own while no other unit stalls, and keeps its result until every other
      one is ready, so that all stalls end together. */
  lemma {:induction false} UnitsWaitForEachOther(s: Sys, c: Cycle)
    ensures var n := Step(s, c);
            && (s.mul.state == M.Idle ==>
                  (n.mul.state == M.Exec <==>
                     c.cmdValid && c.isMul && !c.ifuStall && !c.lsuStall && !s.div.stall))
            && (s.div.state == D.Idle ==>
                  (n.div.state == D.Check <==>
                     c.cmdValid && c.isDiv && !c.ifuStall && !c.lsuStall && !s.mul.stall))
            && (s.mul.state == M.Ret ==>
                  (n.mul.state == M.Idle <==>
                     c.ibusReady && c.dbusReady && s.div.state != D.Check && s.div.state != D.Exec))
            && (s.div.state == D.Ret ==>
                  (n.div.state == D.Idle <==> c.ibusReady && c.dbusReady && s.mul.state != M.Exec))
  {
  }

  ghost predicate IsRun(tr: seq<Sys>, cycles: seq<Cycle>) {
    && |tr| == |cycles| + 1 && Initial(tr[0])
    && forall k | 0 <= k < |cycles| :: Allowed(tr[k], cycles[k]) && tr[k + 1] == Step(tr[k], cycles[k])
  }

  lemma {:induction false} RunKeeps(tr: seq<Sys>, cycles: seq<Cycle>, k: nat)
    requires IsRun(tr, cycles) && k < |tr|
    ensures Units(tr[k]) && Logs(tr[k])
  {
    if k > 0 {
      RunKeeps(tr, cycles, k - 1);
      UnitsKeep(tr[k - 1], cycles[k - 1]);
      LogsKeep(tr[k - 1], cycles[k - 1]);
    }
  }

  /** However long the other units hold `ready` back, the results that retired are exactly the ISA's results of
      the operations issued, each once and in order; at most the one in write-back has yet to retire. */
  lemma {:induction false} RetiresExactlyOnce(tr: seq<Sys>, cycles: seq<Cycle>, k: nat)
    requires IsRun(tr, cycles) && k < |tr|
    ensures |tr[k].retired| <= |tr[k].issued| <= |tr[k].retired| + 1
    ensures forall j | 0 <= j < |tr[k].retired| ::
              Pending(tr[k].issued[j]) && tr[k].retired[j] == Expected(tr[k].issued[j])
    ensures tr[k].mul.stall <==> tr[k].mul.state != M.Idle
    ensures tr[k].div.stall <==> tr[k].div.state != D.Idle
  {
    RunKeeps(tr, cycles, k);
  }

  /** On every cycle in which the pipeline moves, the side register holds the result of the command in
      write-back, or zero if that instruction had none. */
  lemma {:induction false} SideResultIsRight(tr: seq<Sys>, cycles: seq<Cycle>, k: nat)
    requires IsRun(tr, cycles) && k < |cycles| && !Stall(tr[k], cycles[k])
    ensures Pending(tr[k].wb) ==> tr[k].side == Expected(tr[k].wb)
    ensures tr[k].wb == NoCommand ==> tr[k].side == 0
    ensures tr[k + 1].side == 0
    ensures tr[k + 1].wb == Demand(cycles[k])
  {
    RunKeeps(tr, cycles, k);
  }
}
