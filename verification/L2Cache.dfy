/** The unified L2 cache at register-transfer level: four ways, write-back, write-allocate, driven by
    an eleven-state machine over synchronous RAMs with a two-cycle read pipeline.

    `Regs` holds every register and RAM of the module; `Step` is one rising clock edge. */
module L2Cache {
  import opened FlatMemory

  /** One way of one set: the meta RAM word {valid, dirty, tag} and the data RAM word. */
  datatype Way = Way(valid: bool, dirty: bool, tag: nat, data: Line)

  const EmptyWay := Way(false, false, 0, ZeroLine)
  const NoWay := [false, false, false, false]

  type Row = s: seq<Way> | |s| == 4 witness [EmptyWay, EmptyWay, EmptyWay, EmptyWay]
  type Mask = s: seq<bool> | |s| == 4 witness NoWay

  /** The three bits of the pseudo-LRU tree. */
  datatype Plru = Plru(b0: bool, b1: bool, b2: bool)

  datatype Fsm =
    | Idle | CheckLock | CompareTag | CheckValid | WriteBack | Allocate
    | WriteCache | PeriphWrite | PeriphRead | Ret | Latency

  /** Response registers towards the MMU. */
  datatype CpuPort = CpuPort(bvalid: bool, bresp: nat, rvalid: bool, rdata: Line, rresp: nat)

  /** Request registers towards the bus. */
  datatype BusPort = BusPort(wvalid: bool, awaddr: Addr, wdata: Line, wstrb: Strobe, arvalid: bool, araddr: Addr)

  /** The registers the state machine drives. */
  datatype Control = Control(
    hit: Mask, we: Mask, wdirty: bool, wdata: Line, wstrb: Strobe,
    state: Fsm, isLoad: bool, isStore: bool,
    axaddr: Addr, cpuWdata: Line, cpuWstrb: Strobe,
    cpu: CpuPort, bus: BusPort)

  /** The RAMs, their read pipeline and the replacement registers. */
  datatype Arrays = Arrays(
    ram: seq<Row>, pipe: Row, out: Row,
    plruRam: seq<Plru>, plruOut: Plru, plruWe: bool, plruWdata: Plru, replace: nat)

  datatype Regs = Regs(sets: nat, a: Arrays, c: Control)

  /** The input pins during one cycle. */
  datatype Pins = Pins(
    wvalid: bool, awaddr: Addr, wdata: Line, wstrb: Strobe, bready: bool,
    arvalid: bool, araddr: Addr, rready: bool,
    busWready: bool, busBvalid: bool, busBresp: nat,
    busArready: bool, busRvalid: bool, busRdata: Line, busRresp: nat)

  predicate Shape(s: Regs) {
    s.sets > 0 && |s.a.ram| == s.sets && |s.a.plruRam| == s.sets && s.a.replace < 4 && s.c.axaddr.line.index < s.sets
  }

  predicate PinsFit(s: Regs, p: Pins) {
    p.awaddr.line.index < s.sets && p.araddr.line.index < s.sets
  }

  function Any(m: Mask): bool { m[0] || m[1] || m[2] || m[3] }

  function Only(w: nat): Mask { seq(4, k => k == w) }

  function Match(row: Row, tag: nat): Mask {
    seq(4, w requires 0 <= w < 4 => row[w].valid && row[w].tag == tag)
  }

  /** The write port of the RAMs: every enabled way gets a fresh meta word and the strobed bytes. */
  function WriteRow(row: Row, we: Mask, dirty: bool, tag: nat, data: Line, strb: Strobe): Row {
    seq(4, w requires 0 <= w < 4 =>
      if we[w] then Way(true, dirty, tag, Merge(row[w].data, data, strb)) else row[w])
  }

  /** The load multiplexer; a later way overrides an earlier one. */
  function Select(hit: Mask, row: Row, otherwise: Line): Line {
    if hit[3] then row[3].data else if hit[2] then row[2].data
    else if hit[1] then row[1].data else if hit[0] then row[0].data else otherwise
  }

  function Victim(t: Plru): nat {
    if t.b0 then (if t.b1 then 0 else 1) else (if t.b2 then 2 else 3)
  }

  function Touch(t: Plru, w: nat): Plru {
    if w == 3 then t.(b0 := true, b2 := true)
    else if w == 2 then t.(b0 := true, b2 := false)
    else if w == 1 then t.(b0 := false, b1 := true)
    else t.(b0 := false, b1 := false)
  }

  function HitWay(hit: Mask): nat {
    if hit[3] then 3 else if hit[2] then 2 else if hit[1] then 1 else 0
  }

  // ---- The combinational block, one function per state ----

  /** The RAM address of this cycle: in IDLE a cacheable request already addresses its own set. */
  function Index(s: Regs, p: Pins): nat {
    if s.c.state == Idle && p.arvalid && !Peripheral(s.sets, p.araddr.line) then p.araddr.line.index
    else if s.c.state == Idle && !p.arvalid && p.wvalid && !Peripheral(s.sets, p.awaddr.line) then p.awaddr.line.index
    else s.c.axaddr.line.index
  }

  function InIdle(sets: nat, d: Control, p: Pins): Control {
    if p.arvalid then
      if Peripheral(sets, p.araddr.line)
      then d.(isLoad := true, bus := d.bus.(arvalid := true, araddr := p.araddr), state := PeriphRead)
      else d.(isLoad := true, axaddr := p.araddr, state := Latency)
    else if p.wvalid then
      if Peripheral(sets, p.awaddr.line)
      then d.(isStore := true, state := PeriphWrite,
              bus := d.bus.(wvalid := true, awaddr := p.awaddr, wdata := p.wdata, wstrb := p.wstrb))
      else d.(isStore := true, axaddr := p.awaddr, cpuWdata := p.wdata, cpuWstrb := p.wstrb, state := CheckLock)
    else d
  }

  function VictimAddr(out: Row, replace: nat, axaddr: Addr): Addr
    requires replace < 4
  {
    Addr(LineId(out[replace].tag, axaddr.line.index), axaddr.offset)
  }

  /** The write of the store's bytes into the way(s) `hit`, and its response. */
  function StoreHit(d: Control, hit: Mask): Control {
    d.(we := hit, wdirty := true, wdata := d.cpuWdata, wstrb := d.cpuWstrb, cpu := d.cpu.(bvalid := true), state := Ret)
  }

  function InCheckValid(d: Control, hit: Mask, out: Row, replace: nat): Control
    requires replace < 4
  {
    if Any(hit) then
      var r := d.(cpu := d.cpu.(rdata := Select(hit, out, d.cpu.rdata), rresp := OKAY));
      if d.isStore then StoreHit(r, hit) else r.(cpu := r.cpu.(rvalid := true), state := Ret)
    else if out[replace].valid && out[replace].dirty then
      d.(state := WriteBack,
         bus := d.bus.(wvalid := true, awaddr := VictimAddr(out, replace, d.axaddr),
                       wdata := out[replace].data, wstrb := AllLanes))
    else
      d.(state := Allocate, bus := d.bus.(arvalid := true, araddr := d.axaddr))
  }

  function WriteAccepted(d: Control, p: Pins): Control {
    if p.busWready then d.(bus := d.bus.(wvalid := false)) else d
  }

  function ReadAccepted(d: Control, p: Pins): Control {
    if p.busArready then d.(bus := d.bus.(arvalid := false)) else d
  }

  function InWriteBack(d: Control, p: Pins): Control {
    var r := WriteAccepted(d, p);
    if !p.busBvalid then r
    else if p.busBresp == OKAY then r.(bus := r.bus.(arvalid := true, araddr := d.axaddr), state := Allocate)
    else r.(cpu := r.cpu.(bvalid := true, bresp := p.busBresp), state := Ret)
  }

  function InAllocate(d: Control, replace: nat, p: Pins): Control {
    var r := ReadAccepted(d, p);
    if !p.busRvalid then r
    else
      var ok := p.busRresp == OKAY;
      var f := r.(we := if ok then Only(replace) else NoWay, wdata := p.busRdata, wstrb := AllLanes,
                  cpu := r.cpu.(rdata := p.busRdata, rresp := p.busRresp));
      if d.isStore && ok then f.(hit := Only(replace), state := WriteCache)
      else f.(cpu := f.cpu.(rvalid := true), state := Ret)
  }

  function InPeriphWrite(d: Control, p: Pins): Control {
    var r := WriteAccepted(d, p);
    if p.busBvalid then r.(cpu := r.cpu.(bvalid := true, bresp := p.busBresp), state := Ret) else r
  }

  function InPeriphRead(d: Control, p: Pins): Control {
    var r := ReadAccepted(d, p);
    if p.busRvalid
    then r.(cpu := r.cpu.(rvalid := true, rdata := p.busRdata, rresp := p.busRresp), state := Ret)
    else r
  }

  function InRet(d: Control, p: Pins): Control {
    var r := if d.isStore && p.bready then d.(isStore := false, cpu := d.cpu.(bvalid := false), state := Idle) else d;
    if d.isLoad && p.rready then r.(isLoad := false, cpu := r.cpu.(rvalid := false), state := Idle) else r
  }

  /** The next value of every register that the state machine drives. */
  function NextControl(s: Regs, p: Pins): Control
    requires Shape(s)
  {
    var d := s.c.(hit := NoWay, we := NoWay, wdirty := false);
    match s.c.state
    case Idle => InIdle(s.sets, d, p)
    case CheckLock => d.(cpu := d.cpu.(bresp := OKAY), state := CompareTag)
    case Latency => d.(state := CompareTag)
    case CompareTag => d.(hit := Match(s.a.out, d.axaddr.line.tag), state := CheckValid)
    case CheckValid => InCheckValid(d, s.c.hit, s.a.out, s.a.replace)
    case WriteBack => InWriteBack(d, p)
    case Allocate => InAllocate(d, s.a.replace, p)
    case WriteCache => StoreHit(d, s.c.hit)
    case PeriphWrite => InPeriphWrite(d, p)
    case PeriphRead => InPeriphRead(d, p)
    case Ret => InRet(d, p)
  }

  function NextPlruWdata(a: Arrays, hit: Mask, we: Mask): Plru
    requires a.replace < 4
  {
    if we[a.replace] then Touch(a.plruOut, a.replace)
    else if Any(hit) then Touch(a.plruOut, HitWay(hit))
    else a.plruWdata
  }

  /** The RAM contents once the write that `we_q` has pending is done at set `idx`. */
  function Written(ram: seq<Row>, c: Control, idx: nat): (r: seq<Row>)
    requires idx < |ram|
    ensures |r| == |ram|
  {
    if Any(c.we)
    then ram[idx := WriteRow(ram[idx], c.we, c.wdirty, c.axaddr.line.tag, c.wdata, c.wstrb)]
    else ram
  }

  function NextArrays(a: Arrays, c: Control, idx: nat): Arrays
    requires a.replace < 4 && idx < |a.ram| && idx < |a.plruRam|
  {
    Arrays(
      Written(a.ram, c, idx), a.ram[idx], a.pipe,
      if a.plruWe then a.plruRam[idx := a.plruWdata] else a.plruRam, a.plruRam[idx],
      Any(c.hit) || c.we[a.replace], NextPlruWdata(a, c.hit, c.we), Victim(a.plruOut))
  }

  /** One clock edge. */
  function Step(s: Regs, p: Pins): (r: Regs)
    requires Shape(s) && PinsFit(s, p)
    ensures Shape(r) && r.sets == s.sets
  {
    Regs(s.sets, NextArrays(s.a, s.c, Index(s, p)), NextControl(s, p))
  }

  // ---- The replacement tree ----

  /** The way used last is not the next victim. */
  lemma {:induction false} UsedIsSafe(t: Plru, w: nat)
    requires w < 4
    ensures Victim(Touch(t, w)) != w && Victim(t) < 4
  {
  }

  /** Four misses in a row, whatever was used before, take all four ways. */
  lemma {:induction false} MissesGoAround(t: Plru)
    ensures var u := Touch(t, Victim(t));
            var v := Touch(u, Victim(u));
            var x := Touch(v, Victim(v));
            {Victim(t), Victim(u), Victim(v), Victim(x)} == {0, 1, 2, 3}
  {
  }

  /** A hit and a fill are both recorded: the tree that is written makes another way the victim. */
  lemma {:induction false} UseIsRecorded(a: Arrays, c: Control, idx: nat, w: nat)
    requires a.replace < 4 && idx < |a.ram| && idx < |a.plruRam| && w < 4
    ensures var n := NextArrays(a, c, idx);
            && (c.we[a.replace] ==> n.plruWe && Victim(n.plruWdata) != a.replace)
            && (c.hit == Only(w) && !c.we[a.replace] ==> n.plruWe && Victim(n.plruWdata) != w)
            && (c.hit == NoWay && c.we == NoWay ==> !n.plruWe)
  {
    UsedIsSafe(a.plruOut, a.replace);
    UsedIsSafe(a.plruOut, w);
  }

  // ---- Bus errors ----

  /** An error on the bus during a write-back or a fetch ends the request with the bus's status and without a write
      to the RAMs, but on the channel of the bus transaction: the response fits the request exactly when a store
      failed in WRITE_BACK or a load in ALLOCATE. */
  lemma {:induction false} ErrorsAnswer(d: Control, replace: nat, p: Pins)
    requires replace < 4 && d.isLoad != d.isStore && !d.cpu.bvalid && !d.cpu.rvalid && d.we == NoWay
    ensures p.busBvalid && p.busBresp != OKAY ==>
              var n := InWriteBack(d, p);
              && n.state == Ret && n.we == NoWay && n.cpu.bvalid && !n.cpu.rvalid && n.cpu.bresp == p.busBresp
              && (n.cpu.bvalid == n.isStore <==> d.isStore)
    ensures p.busRvalid && p.busRresp != OKAY ==>
              var n := InAllocate(d, replace, p);
              && n.state == Ret && n.we == NoWay && n.cpu.rvalid && !n.cpu.bvalid && n.cpu.rresp == p.busRresp
              && (n.cpu.rvalid == n.isLoad <==> d.isLoad)
  {
  }
}
