/** The L2 cache between an arbitrary requester and an arbitrary, slow memory bus.

    The bus may take any number of cycles to accept a transaction, to commit a write and to respond.
    All it promises is that it answers only what was asked, that a response to a cached line is OKAY,
    and that a read of memory returns what memory holds. */
module L2System {
  import opened FlatMemory
  import opened L2Cache

  datatype WriteTxn = NoWrite | Accepted(addr: Addr, data: Line, strb: Strobe) | Committed(addr: Addr)
  datatype ReadTxn = NoRead | Reading(addr: Addr)
  datatype Bus = Bus(mem: Memory, w: WriteTxn, r: ReadTxn)

  /** One cycle of the environment: the cache's input pins and whether memory commits the write it holds. */
  datatype Cycle = Cycle(pins: Pins, commit: bool)

  /** The whole system, with the requests the cache accepted and the responses it delivered, in order. */
  datatype Sys = Sys(l2: Regs, bus: Bus, reqs: seq<Req>, resps: seq<Resp>)

  function WriteIssued(b: Bus, p: BusPort, pins: Pins): WriteTxn {
    if p.wvalid && pins.busWready then Accepted(p.awaddr, p.wdata, p.wstrb) else b.w
  }

  function ReadIssued(b: Bus, p: BusPort, pins: Pins): ReadTxn {
    if p.arvalid && pins.busArready then Reading(p.araddr) else b.r
  }

  function CommitTxn(w: WriteTxn, commit: bool): WriteTxn {
    if commit && w.Accepted? then Committed(w.addr) else w
  }

  /** Memory ignores the byte offset of an address and writes the strobed bytes of the line. */
  function CommitMem(sets: nat, mem: Memory, w: WriteTxn, commit: bool): Memory {
    if commit && w.Accepted? && !Peripheral(sets, w.addr.line)
    then mem[w.addr.line := Merge(At(mem, w.addr.line), w.data, w.strb)]
    else mem
  }

  function NextBus(sets: nat, b: Bus, c: Control, cy: Cycle): Bus {
    var w := WriteIssued(b, c.bus, cy.pins);
    var bready := c.state == WriteBack || c.state == PeriphWrite;
    var rready := c.state == Allocate || c.state == PeriphRead;
    Bus(CommitMem(sets, b.mem, w, cy.commit),
        if cy.pins.busBvalid && bready then NoWrite else CommitTxn(w, cy.commit),
        if cy.pins.busRvalid && rready then NoRead else ReadIssued(b, c.bus, cy.pins))
  }

  /** What the environment promises in a cycle. */
  predicate Allowed(s: Sys, cy: Cycle) {
    var p := cy.pins;
    var w := WriteIssued(s.bus, s.l2.c.bus, p);
    var r := ReadIssued(s.bus, s.l2.c.bus, p);
    && PinsFit(s.l2, p)
    && (p.busBvalid ==>
          var t := CommitTxn(w, cy.commit);
          t.Committed? && (Peripheral(s.l2.sets, t.addr.line) || p.busBresp == OKAY))
    && (p.busRvalid ==>
          r.Reading? &&
          (Peripheral(s.l2.sets, r.addr.line) ||
           (p.busRresp == OKAY && p.busRdata == At(CommitMem(s.l2.sets, s.bus.mem, w, cy.commit), r.addr.line))))
  }

  /** The request accepted in this cycle, on the read or the write channel, if any. */
  function AcceptedNow(c: Control, p: Pins): seq<Req> {
    if c.state == Idle && p.arvalid then [Load(p.araddr)]
    else if c.state == Idle && p.wvalid then [Store(p.awaddr, p.wdata, p.wstrb)]
    else []
  }

  /** The response handed over in this cycle, if any. */
  function DeliveredNow(c: CpuPort, p: Pins): seq<Resp> {
    (if c.bvalid && p.bready then [Stored(c.bresp)] else [])
    + (if c.rvalid && p.rready then [Loaded(c.rdata, c.rresp)] else [])
  }

  function Next(s: Sys, cy: Cycle): Sys
    requires Shape(s.l2) && PinsFit(s.l2, cy.pins)
  {
    Sys(Step(s.l2, cy.pins), NextBus(s.l2.sets, s.bus, s.l2.c, cy),
        s.reqs + AcceptedNow(s.l2.c, cy.pins), s.resps + DeliveredNow(s.l2.c.cpu, cy.pins))
  }

  /** Just out of reset with power-up values: no valid way, nothing in flight. */
  predicate Initial(s: Sys) {
    && Shape(s.l2)
    && (forall i, w | 0 <= i < s.l2.sets && 0 <= w < 4 :: !s.l2.a.ram[i][w].valid)
    && s.l2.c.hit == NoWay && s.l2.c.we == NoWay && s.l2.c.state == Idle
    && !s.l2.c.isLoad && !s.l2.c.isStore
    && !s.l2.c.cpu.bvalid && !s.l2.c.cpu.rvalid && !s.l2.c.bus.wvalid && !s.l2.c.bus.arvalid
    && s.bus.w == NoWrite && s.bus.r == NoRead && s.reqs == [] && s.resps == []
  }

  /** `tr` is a run of the system: it starts in an initial state and every step is one allowed cycle. */
  ghost predicate IsRun(tr: seq<Sys>, cycles: seq<Cycle>) {
    && |tr| == |cycles| + 1 && Initial(tr[0])
    && forall k | 0 <= k < |cycles| ::
         Shape(tr[k].l2) && Allowed(tr[k], cycles[k]) && tr[k + 1] == Next(tr[k], cycles[k])
  }

  // ---- What a cache line means ----

  /** The way of `row` that holds `tag`; 4 if none does. */
  function Find(row: Row, tag: nat): (w: nat)
    ensures w <= 4 && (w < 4 ==> row[w].valid && row[w].tag == tag)
    ensures w == 4 ==> forall v | 0 <= v < 4 :: !(row[v].valid && row[v].tag == tag)
  {
    if row[0].valid && row[0].tag == tag then 0
    else if row[1].valid && row[1].tag == tag then 1
    else if row[2].valid && row[2].tag == tag then 2
    else if row[3].valid && row[3].tag == tag then 3
    else 4
  }

  /** The contents of line `id` as seen through the cache: the matching valid way, else memory. */
  function View(ram: seq<Row>, mem: Memory, id: LineId): Line
    requires id.index < |ram|
  {
    var w := Find(ram[id.index], id.tag);
    if w < 4 then ram[id.index][w].data else At(mem, id)
  }

  /** The RAMs with the pending write, if any, already done. */
  function Effective(s: Regs): seq<Row>
    requires Shape(s)
  {
    Written(s.a.ram, s.c, s.c.axaddr.line.index)
  }

  /** A set holds each tag once, holds cacheable lines only, and its clean lines equal memory. */
  ghost predicate RowOk(sets: nat, i: nat, row: Row, mem: Memory) {
    && (forall w | 0 <= w < 4 && row[w].valid :: !Peripheral(sets, LineId(row[w].tag, i)))
    && (forall w | 0 <= w < 4 && row[w].valid && !row[w].dirty :: row[w].data == At(mem, LineId(row[w].tag, i)))
    && (forall v, w | 0 <= v < w < 4 && row[v].valid && row[w].valid :: row[v].tag != row[w].tag)
  }

  ghost predicate Coherent(sets: nat, ram: seq<Row>, mem: Memory) {
    |ram| == sets && forall i | 0 <= i < sets :: RowOk(sets, i, ram[i], mem)
  }

  /** A store that was accepted but has not reached the RAMs yet. */
  datatype Pending = Nothing | Bytes(id: LineId, data: Line, strb: Strobe)

  function Overlay(l: Line, p: Pending, id: LineId): Line {
    if p.Bytes? && p.id == id then Merge(l, p.data, p.strb) else l
  }

  ghost predicate IsFlat(sets: nat, ram: seq<Row>, mem: Memory, p: Pending, initial: Memory, reqs: seq<Req>) {
    |ram| == sets &&
    forall id: LineId | id.index < sets && !Peripheral(sets, id) ::
      Overlay(View(ram, mem, id), p, id) == LineAfter(sets, initial, reqs, id)
  }

  /** Response `r` to request `q` is the one a flat memory gives after the requests `before`. */
  ghost predicate Answers(sets: nat, initial: Memory, before: seq<Req>, q: Req, r: Resp) {
    if q.Store? then r.Stored? && (Peripheral(sets, q.addr.line) || r.status == OKAY)
    else r.Loaded? && (Peripheral(sets, q.addr.line) ||
                       (r.status == OKAY && r.data == LineAfter(sets, initial, before, q.addr.line)))
  }

  ghost predicate AllAnswered(sets: nat, initial: Memory, reqs: seq<Req>, resps: seq<Resp>) {
    |resps| <= |reqs| && forall k | 0 <= k < |resps| :: Answers(sets, initial, reqs[..k], reqs[k], resps[k])
  }
}
