/** The cache as the clocked module it is: registers and block RAMs updated in place on every edge. */
module L2Module {
  import opened FlatMemory
  import opened L2Cache

  class Cache {
    const sets: nat
    const ram: array<Row>
    const plruRam: array<Plru>
    var pipe: Row
    var out: Row
    var plruOut: Plru
    var plruWe: bool
    var plruWdata: Plru
    var replace: nat
    var c: Control

    ghost function Value(): Regs
      reads this, ram, plruRam
    {
      Regs(sets, Arrays(ram[..], pipe, out, plruRam[..], plruOut, plruWe, plruWdata, replace), c)
    }

    ghost predicate Valid()
      reads this, ram, plruRam
    {
      Shape(Value())
    }

    /** Power-up: all ways invalid, all control registers clear. */
    constructor (sets: nat)
      requires sets > 0
      ensures Valid() && fresh(ram) && fresh(plruRam) && this.sets == sets
      ensures forall i, w | 0 <= i < sets && 0 <= w < 4 :: !ram[i][w].valid
      ensures c.state == Idle && c.hit == NoWay && c.we == NoWay && !c.isLoad && !c.isStore
      ensures !c.cpu.bvalid && !c.cpu.rvalid && !c.bus.wvalid && !c.bus.arvalid
    {
      var empty: Row := [EmptyWay, EmptyWay, EmptyWay, EmptyWay];
      var zero := Addr(LineId(0, 0), 0);
      this.sets := sets;
      ram := new Row[sets](_ => empty);
      plruRam := new Plru[sets](_ => Plru(false, false, false));
      pipe, out := empty, empty;
      plruOut, plruWe, plruWdata, replace := Plru(false, false, false), false, Plru(false, false, false), 0;
      c := Control(NoWay, NoWay, false, ZeroLine, AllLanes, Idle, false, false, zero, ZeroLine, AllLanes,
                   CpuPort(false, OKAY, false, ZeroLine, OKAY),
                   BusPort(false, zero, ZeroLine, AllLanes, false, zero));
    }

    /** The tag comparators. */
    method CompareTags(tag: nat) returns (hit: Mask)
      ensures hit == Match(out, tag)
    {
      var h: Mask := NoWay;
      for w := 0 to 4
        invariant forall k | 0 <= k < w :: h[k] == (out[k].valid && out[k].tag == tag)
      {
        h := h[w := out[w].valid && out[w].tag == tag];
      }
      hit := h;
    }

    /** The load multiplexer: the loop lets a later way override an earlier one. */
    method SelectData(hit: Mask, otherwise: Line) returns (data: Line)
      ensures data == Select(hit, out, otherwise)
    {
      data := otherwise;
      for w := 0 to 4
        invariant w == 0 ==> data == otherwise
        invariant w == 1 ==> data == if hit[0] then out[0].data else otherwise
        invariant w == 2 ==> data == if hit[1] then out[1].data else if hit[0] then out[0].data else otherwise
        invariant w == 3 ==> data == if hit[2] then out[2].data else if hit[1] then out[1].data
                                     else if hit[0] then out[0].data else otherwise
        invariant w == 4 ==> data == Select(hit, out, otherwise)
      {
        if hit[w] { data := out[w].data; }
      }
    }

    /** A request arrives: reads come first, and the address decides between device and memory. */
    method Accept(d0: Control, p: Pins) returns (d: Control)
      ensures d == InIdle(sets, d0, p)
    {
      d := d0;
      if p.arvalid {
        d := d.(isLoad := true);
        if Peripheral(sets, p.araddr.line) {
          d := d.(bus := d.bus.(arvalid := true, araddr := p.araddr), state := PeriphRead);
        } else {
          d := d.(axaddr := p.araddr, state := Latency);
        }
      } else if p.wvalid {
        d := d.(isStore := true);
        if Peripheral(sets, p.awaddr.line) {
          d := d.(bus := d.bus.(wvalid := true, awaddr := p.awaddr, wdata := p.wdata, wstrb := p.wstrb));
          d := d.(state := PeriphWrite);
        } else {
          d := d.(axaddr := p.awaddr, cpuWdata := p.wdata, cpuWstrb := p.wstrb, state := CheckLock);
        }
      }
    }

    /** The store's bytes go to the way that hit. */
    method WriteHit(d0: Control) returns (d: Control)
      ensures d == StoreHit(d0, c.hit)
    {
      d := d0.(we := c.hit, wdirty := true, wdata := d0.cpuWdata, wstrb := d0.cpuWstrb);
      d := d.(cpu := d.cpu.(bvalid := true), state := Ret);
    }

    /** A device request on the bus. */
    method ServeDevice(d0: Control, p: Pins) returns (d: Control)
      requires c.state == PeriphWrite || c.state == PeriphRead
      ensures d == if c.state == PeriphWrite then InPeriphWrite(d0, p) else InPeriphRead(d0, p)
    {
      d := d0;
      if c.state == PeriphWrite {
        if p.busWready { d := d.(bus := d.bus.(wvalid := false)); }
        if p.busBvalid { d := d.(cpu := d.cpu.(bvalid := true, bresp := p.busBresp), state := Ret); }
      } else {
        if p.busArready { d := d.(bus := d.bus.(arvalid := false)); }
        if p.busRvalid {
          d := d.(cpu := d.cpu.(rvalid := true, rdata := p.busRdata, rresp := p.busRresp), state := Ret);
        }
      }
    }

    /** The response is taken. */
    method Return(d0: Control, p: Pins) returns (d: Control)
      ensures d == InRet(d0, p)
    {
      d := d0;
      if d0.isStore {
        if p.bready { d := d.(isStore := false, cpu := d.cpu.(bvalid := false), state := Idle); }
      }
      if d0.isLoad && p.rready {
        d := d.(isLoad := false, cpu := d.cpu.(rvalid := false), state := Idle);
      }
    }

    /** The memory side of the combinational block. */
    method ServeMiss(d0: Control, p: Pins) returns (d: Control)
      requires Valid()
      requires c.state == WriteBack || c.state == Allocate
      ensures d == if c.state == WriteBack then InWriteBack(d0, p) else InAllocate(d0, replace, p)
    {
      d := d0;
      if c.state == WriteBack {
        if p.busWready { d := d.(bus := d.bus.(wvalid := false)); }
        if p.busBvalid {
          if p.busBresp == OKAY {
            d := d.(bus := d.bus.(arvalid := true, araddr := d.axaddr), state := Allocate);
          } else {
            d := d.(cpu := d.cpu.(bvalid := true, bresp := p.busBresp), state := Ret);
          }
        }
      } else {
        if p.busArready { d := d.(bus := d.bus.(arvalid := false)); }
        if p.busRvalid {
          if p.busRresp == OKAY { d := d.(we := Only(replace)); } else { d := d.(we := NoWay); }
          d := d.(wdata := p.busRdata, wstrb := AllLanes, cpu := d.cpu.(rdata := p.busRdata, rresp := p.busRresp));
          if d0.isStore && p.busRresp == OKAY {
            d := d.(hit := Only(replace), state := WriteCache);
          } else {
            d := d.(cpu := d.cpu.(rvalid := true), state := Ret);
          }
        }
      }
    }

    /** The hit path and the choice of what a miss does first. */
    method CheckHit(d0: Control, p: Pins) returns (d: Control)
      requires Valid()
      ensures d == InCheckValid(d0, c.hit, out, replace)
    {
      d := d0;
      if Any(c.hit) {
        var data := SelectData(c.hit, d.cpu.rdata);
        d := d.(cpu := d.cpu.(rdata := data, rresp := OKAY));
        if d.isStore {
          d := WriteHit(d);
        } else {
          d := d.(cpu := d.cpu.(rvalid := true), state := Ret);
        }
      } else if out[replace].valid && out[replace].dirty {
        d := d.(bus := d.bus.(wvalid := true, awaddr := VictimAddr(out, replace, d.axaddr),
                             wdata := out[replace].data, wstrb := AllLanes));
        d := d.(state := WriteBack);
      } else {
        d := d.(bus := d.bus.(arvalid := true, araddr := d.axaddr), state := Allocate);
      }
    }

    /** The combinational block: defaults first, then what the current state overrides. */
    method NextRegisters(p: Pins) returns (d: Control)
      requires Valid() && PinsFit(Value(), p)
      ensures d == NextControl(Value(), p)
    {
      d := c.(hit := NoWay, we := NoWay, wdirty := false);
      match c.state {
        case Idle => d := Accept(d, p);
        case CheckLock => d := d.(cpu := d.cpu.(bresp := OKAY), state := CompareTag);
        case Latency => d := d.(state := CompareTag);
        case CompareTag =>
          var hit := CompareTags(d.axaddr.line.tag);
          d := d.(hit := hit, state := CheckValid);
        case CheckValid => d := CheckHit(d, p);
        case WriteBack => d := ServeMiss(d, p);
        case Allocate => d := ServeMiss(d, p);
        case WriteCache => d := WriteHit(d);
        case PeriphWrite => d := ServeDevice(d, p);
        case PeriphRead => d := ServeDevice(d, p);
        case Ret => d := Return(d, p);
      }
    }

    /** The write ports: each enabled way of set `idx` takes the meta word and the strobed bytes. */
    method WriteWays(idx: nat)
      requires Valid() && idx < sets
      modifies ram
      ensures ram[..] == Written(old(ram[..]), c, idx)
    {
      ghost var before := ram[..];
      for w := 0 to 4
        invariant forall i | 0 <= i < sets && i != idx :: ram[i] == before[i]
        invariant forall k | 0 <= k < w ::
          ram[idx][k] == if c.we[k]
                         then Way(true, c.wdirty, c.axaddr.line.tag, Merge(before[idx][k].data, c.wdata, c.wstrb))
                         else before[idx][k]
        invariant forall k | w <= k < 4 :: ram[idx][k] == before[idx][k]
      {
        if c.we[w] {
          ram[idx] := ram[idx][w := Way(true, c.wdirty, c.axaddr.line.tag, Merge(ram[idx][w].data, c.wdata, c.wstrb))];
        }
      }
      ghost var row := WriteRow(before[idx], c.we, c.wdirty, c.axaddr.line.tag, c.wdata, c.wstrb);
      assert ram[idx] == row;
      if !Any(c.we) { assert row == before[idx]; }
    }

    ghost function ArraysValue(): Arrays
      reads this, ram, plruRam
    {
      Arrays(ram[..], pipe, out, plruRam[..], plruOut, plruWe, plruWdata, replace)
    }

    /** The replacement registers. */
    method ClockTree(idx: nat)
      requires Valid() && idx < sets
      modifies this`plruOut, this`plruWe, this`plruWdata, this`replace, plruRam
      ensures var n := NextArrays(old(ArraysValue()), c, idx);
              && plruRam[..] == n.plruRam && plruOut == n.plruOut
              && plruWe == n.plruWe && plruWdata == n.plruWdata && replace == n.replace
    {
      var tree := plruWdata;
      if Any(c.hit) { tree := Touch(plruOut, HitWay(c.hit)); }
      if c.we[replace] { tree := Touch(plruOut, replace); }
      var bits := plruRam[idx];
      if plruWe { plruRam[idx] := plruWdata; }
      plruWe := Any(c.hit) || c.we[replace];
      plruWdata := tree;
      replace := Victim(plruOut);
      plruOut := bits;
    }

    /** The RAM ports and the replacement registers on a clock edge that addresses set `idx`. */
    method ClockArrays(idx: nat)
      requires Valid() && idx < sets
      modifies this`pipe, this`out, this`plruOut, this`plruWe, this`plruWdata, this`replace, ram, plruRam
      ensures ArraysValue() == NextArrays(old(ArraysValue()), c, idx)
    {
      ghost var next := NextArrays(ArraysValue(), c, idx);
      var row := ram[idx];
      ClockTree(idx);
      WriteWays(idx);
      out, pipe := pipe, row;
      assert ArraysValue() == next;
    }

    /** The RAM address: in IDLE a cacheable request already addresses its own set. */
    method RamIndex(p: Pins) returns (idx: nat)
      requires Valid() && PinsFit(Value(), p)
      ensures idx == Index(Value(), p) < sets
    {
      idx := c.axaddr.line.index;
      if c.state == Idle && p.arvalid && !Peripheral(sets, p.araddr.line) {
        idx := p.araddr.line.index;
      } else if c.state == Idle && !p.arvalid && p.wvalid && !Peripheral(sets, p.awaddr.line) {
        idx := p.awaddr.line.index;
      }
    }

    /** One rising clock edge: every register takes its next value, the RAM ports read and write. */
    method Clock(p: Pins)
      requires Valid() && PinsFit(Value(), p)
      modifies this, ram, plruRam
      ensures Value() == Step(old(Value()), p) && Valid()
    {
      ghost var next := Step(Value(), p);
      var idx := RamIndex(p);
      var d := NextRegisters(p);
      ClockArrays(idx);
      c := d;
      assert Value() == next;
    }
  }
}
