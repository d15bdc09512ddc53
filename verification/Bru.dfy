/** The branch resolution unit, against the instruction set's own branch conditions. */
module Bru {
  import opened Words

  /** The control bits the decoder hands to the unit. */
  datatype Ctrl = Ctrl(
    ctrlTsfr: bool, isSigned: bool, beq: bool, bne: bool, blt: bool, bge: bool, jalr: bool, jalJalr: bool)

  const NoBranch := Ctrl(false, false, false, false, false, false, false, false)

  function SignExtended(signed: bool, w: Word): int { if signed then Signed(w) else w }

  predicate Taken(c: Ctrl, a: Word, b: Word) {
    || (if a == b then c.beq else c.bne)
    || (if SignExtended(c.isSigned, a) < SignExtended(c.isSigned, b) then c.blt else c.bge)
    || c.jalJalr
  }

  /** The target with its lowest bit cleared. */
  function Target(c: Ctrl, a: Word, pc: Word, imm: Word): Word {
    var t := Add(if c.jalr then a else pc, imm);
    t - t % 2
  }

  function Link(c: Ctrl, pc: Word): Word { if c.jalJalr then Add(pc, 4) else 0 }

  /** The control-transfer instructions, their control bits in the decoder, and the ISA's conditions. */
  datatype Branch = Beq | Bne | Blt | Bge | Bltu | Bgeu | Jal | Jalr

  function Decode(k: Branch): Ctrl {
    match k
    case Beq => NoBranch.(ctrlTsfr := true, beq := true)
    case Bne => NoBranch.(ctrlTsfr := true, bne := true)
    case Blt => NoBranch.(ctrlTsfr := true, isSigned := true, blt := true)
    case Bge => NoBranch.(ctrlTsfr := true, isSigned := true, bge := true)
    case Bltu => NoBranch.(ctrlTsfr := true, blt := true)
    case Bgeu => NoBranch.(ctrlTsfr := true, bge := true)
    case Jal => NoBranch.(ctrlTsfr := true, jalJalr := true)
    case Jalr => NoBranch.(ctrlTsfr := true, jalJalr := true, jalr := true)
  }

  /** The ISA's conditions; words compare as signed numbers when they compare with the sign bit inverted. */
  predicate Condition(k: Branch, a: Word, b: Word) {
    match k
    case Beq => a == b
    case Bne => a != b
    case Blt => (a + 0x8000_0000) % 0x1_0000_0000 < (b + 0x8000_0000) % 0x1_0000_0000
    case Bge => (a + 0x8000_0000) % 0x1_0000_0000 >= (b + 0x8000_0000) % 0x1_0000_0000
    case Bltu => a < b
    case Bgeu => a >= b
    case Jal => true
    case Jalr => true
  }

  lemma {:induction false} TakenIsTheIsa(k: Branch, a: Word, b: Word)
    ensures Taken(Decode(k), a, b) <==> Condition(k, a, b)
    ensures !Taken(NoBranch, a, b)
  {
    SignedOrder(a, b);
    match k
    case _ =>
  }

  lemma {:induction false} SignedOrder(a: Word, b: Word)
    ensures Signed(a) < Signed(b) <==> (a + 0x8000_0000) % 0x1_0000_0000 < (b + 0x8000_0000) % 0x1_0000_0000
  {
    Flipped(a);
    Flipped(b);
  }

  lemma {:induction false} Flipped(a: Word)
    ensures (a + 0x8000_0000) % 0x1_0000_0000 == Signed(a) + 0x8000_0000
  {
  }

  /** Where a taken transfer goes: to pc + imm, or for JALR to rs1 + imm, modulo 2^32 and with bit 0 cleared. */
  lemma {:induction false} TargetIsTheIsa(k: Branch, a: Word, pc: Word, imm: Word)
    ensures var t := ((if k.Jalr? then a else pc) + imm) % 0x1_0000_0000;
            Target(Decode(k), a, pc, imm) == t / 2 * 2
  {
    match k
    case _ =>
  }

  /** What is linked: the address of the next instruction by JAL and JALR, nothing by the branches. */
  lemma {:induction false} LinkIsTheIsa(k: Branch, pc: Word)
    ensures Link(Decode(k), pc) == if k.Jal? || k.Jalr? then (pc + 4) % 0x1_0000_0000 else 0
    ensures Link(NoBranch, pc) == 0
  {
    match k
    case _ =>
  }
}
