/** Peripherals behind the cache: over every run each device sees exactly the requests that were addressed to it,
    and the requester gets exactly what the device answered. */
module L2Devices {
  import opened FlatMemory
  import opened L2Cache
  import opened L2System
  import opened L2Invariant
  import T = L2Theorem

  /** While a device request is offered to the bus, it is the request in hand: address, data and strobes. */
  lemma {:induction false} RequestOnBus(tr: seq<Sys>, cycles: seq<Cycle>, k: nat)
    requires IsRun(tr, cycles) && k < |tr|
    ensures var s := tr[k];
            && (s.l2.c.state == PeriphWrite || s.l2.c.state == PeriphRead ==> |s.resps| < |s.reqs|)
            && (s.l2.c.state == PeriphWrite && s.l2.c.bus.wvalid ==>
                  Store(s.l2.c.bus.awaddr, s.l2.c.bus.wdata, s.l2.c.bus.wstrb) == s.reqs[|s.resps|])
            && (s.l2.c.state == PeriphRead && s.l2.c.bus.arvalid ==> Load(s.l2.c.bus.araddr) == s.reqs[|s.resps|])
  {
    T.RunKeeps(tr, cycles, k);
  }

  // ---- What the devices see ----

  function OfDevice(sets: nat, q: Req): seq<Req> { if Peripheral(sets, q.addr.line) then [q] else [] }

  /** The device requests among `reqs`, in order. */
  function DeviceReqs(sets: nat, reqs: seq<Req>): seq<Req> {
    if reqs == [] then [] else DeviceReqs(sets, reqs[..|reqs| - 1]) + OfDevice(sets, reqs[|reqs| - 1])
  }

  lemma {:induction false} DeviceReqsSnoc(sets: nat, reqs: seq<Req>, q: Req)
    ensures DeviceReqs(sets, reqs + [q]) == DeviceReqs(sets, reqs) + OfDevice(sets, q)
  {
    assert (reqs + [q])[..|reqs|] == reqs;
  }

  /** The transactions that the bus takes in one cycle and that are addressed to a device. */
  function Taken(sets: nat, b: BusPort, p: Pins): seq<Req> {
    (if b.wvalid && p.busWready then OfDevice(sets, Store(b.awaddr, b.wdata, b.wstrb)) else [])
    + (if b.arvalid && p.busArready then OfDevice(sets, Load(b.araddr)) else [])
  }

  /** All of them up to cycle `k`, whatever state the cache was in. */
  function ToDevices(tr: seq<Sys>, cycles: seq<Cycle>, k: nat): seq<Req>
    requires |tr| == |cycles| + 1 && k <= |cycles|
  {
    if k == 0 then []
    else ToDevices(tr, cycles, k - 1) + Taken(tr[0].l2.sets, tr[k - 1].l2.c.bus, cycles[k - 1].pins)
  }

  /** The device request in hand, as long as the bus has not taken it. */
  function Offered(s: Sys): seq<Req> {
    var c := s.l2.c;
    if |s.resps| < |s.reqs| && ((c.state == PeriphWrite && c.bus.wvalid) || (c.state == PeriphRead && c.bus.arvalid))
    then [s.reqs[|s.resps|]] else []
  }

  /** What one cycle adds to the device requests. */
  function NewDeviceReqs(s: Sys, cy: Cycle): seq<Req> {
    var now := AcceptedNow(s.l2.c, cy.pins);
    if now == [] then [] else OfDevice(s.l2.sets, now[0])
  }

  predicate Balanced(s: Sys, cy: Cycle, n: Sys) {
    Taken(s.l2.sets, s.l2.c.bus, cy.pins) + Offered(n) == Offered(s) + NewDeviceReqs(s, cy)
  }

  lemma {:induction false} IdleBalances(s: Sys, cy: Cycle)
    requires Shape(s.l2) && s.l2.c.state == Idle && AtIdle(s) && Allowed(s, cy)
    ensures Balanced(s, cy, Next(s, cy))
  {
    assert Next(s, cy).resps == s.resps;
  }

  /** Outside IDLE nothing is accepted from the requester. */
  lemma {:induction false} DeviceBalances(s: Sys, cy: Cycle, n: Sys)
    requires Shape(s.l2) && Allowed(s, cy)
    requires s.l2.c.state == PeriphWrite || s.l2.c.state == PeriphRead
    requires if s.l2.c.state == PeriphWrite then AtPeriphWrite(s) else AtPeriphRead(s)
    requires Follows(s, cy, n, NextControl(s.l2, cy.pins))
    ensures Balanced(s, cy, n)
  {
  }

  /** No transaction that is offered to the bus is for a device, and none becomes one. */
  lemma {:induction false} MemoryBalances(s: Sys, cy: Cycle, n: Sys)
    requires s.l2.c.bus.wvalid ==> !Peripheral(s.l2.sets, s.l2.c.bus.awaddr.line)
    requires s.l2.c.bus.arvalid ==> !Peripheral(s.l2.sets, s.l2.c.bus.araddr.line)
    requires s.l2.c.state != Idle && s.l2.c.state != PeriphWrite && s.l2.c.state != PeriphRead
    requires n.l2.c.state != PeriphWrite && n.l2.c.state != PeriphRead
    ensures Balanced(s, cy, n)
  {
  }

  /** Write-backs and fetches go to memory only. */
  lemma {:induction false} BusIsForMemory(s: Sys, initial: Memory)
    requires Inv(s, initial) && s.l2.c.state != PeriphWrite && s.l2.c.state != PeriphRead
    ensures s.l2.c.bus.wvalid ==> !Peripheral(s.l2.sets, s.l2.c.bus.awaddr.line)
    ensures s.l2.c.bus.arvalid ==> !Peripheral(s.l2.sets, s.l2.c.bus.araddr.line)
  {
    if s.l2.c.state == WriteBack { ContentsHere(s, initial); }
  }

  lemma {:induction false} StaysWithMemory(s: Regs, p: Pins)
    requires Shape(s) && s.c.state != Idle && s.c.state != PeriphWrite && s.c.state != PeriphRead
    ensures NextControl(s, p).state != PeriphWrite && NextControl(s, p).state != PeriphRead
  {
  }

  lemma {:induction false} StepBalances(s: Sys, cy: Cycle, initial: Memory)
    requires Inv(s, initial) && Allowed(s, cy)
    ensures Balanced(s, cy, Next(s, cy))
  {
    if s.l2.c.state == Idle {
      IdleBalances(s, cy);
    } else if s.l2.c.state == PeriphWrite || s.l2.c.state == PeriphRead {
      T.OthersFollow(s, cy);
      DeviceBalances(s, cy, Next(s, cy));
    } else {
      BusIsForMemory(s, initial);
      StaysWithMemory(s.l2, cy.pins);
      MemoryBalances(s, cy, Next(s, cy));
    }
  }

  lemma {:induction false} ReqsGrow(s: Sys, cy: Cycle)
    requires Shape(s.l2) && PinsFit(s.l2, cy.pins)
    ensures DeviceReqs(s.l2.sets, Next(s, cy).reqs) == DeviceReqs(s.l2.sets, s.reqs) + NewDeviceReqs(s, cy)
  {
    var now := AcceptedNow(s.l2.c, cy.pins);
    if now == [] {
      assert s.reqs + now == s.reqs;
    } else {
      assert s.reqs + now == s.reqs + [now[0]];
      DeviceReqsSnoc(s.l2.sets, s.reqs, now[0]);
    }
  }

  lemma {:induction false} Rearrange(taken: seq<Req>, now: seq<Req>, offered: seq<Req>, offered': seq<Req>,
                                      more: seq<Req>, all: seq<Req>)
    requires taken + offered == all && now + offered' == offered + more
    ensures (taken + now) + offered' == all + more
  {
    assert (taken + now) + offered' == taken + (now + offered');
    assert taken + (offered + more) == (taken + offered) + more;
  }

  lemma {:induction false} CycleBalances(tr: seq<Sys>, cycles: seq<Cycle>, k: nat)
    requires IsRun(tr, cycles) && 0 < k < |tr|
    ensures var s, cy, sets := tr[k - 1], cycles[k - 1], tr[0].l2.sets;
            && Taken(sets, s.l2.c.bus, cy.pins) + Offered(tr[k]) == Offered(s) + NewDeviceReqs(s, cy)
            && DeviceReqs(sets, tr[k].reqs) == DeviceReqs(sets, s.reqs) + NewDeviceReqs(s, cy)
  {
    T.RunKeeps(tr, cycles, k - 1);
    StepBalances(tr[k - 1], cycles[k - 1], tr[0].bus.mem);
    ReqsGrow(tr[k - 1], cycles[k - 1]);
  }

  /** Over every run: the transactions that reached devices are exactly the device requests that were accepted,
      each once, in order and unchanged; only the one in hand may still be waiting.  Nothing else the cache does
      on the bus, no write-back and no fetch, ever reaches a device. */
  lemma {:induction false} EachRequestOnce(tr: seq<Sys>, cycles: seq<Cycle>, k: nat)
    requires IsRun(tr, cycles) && k < |tr|
    ensures ToDevices(tr, cycles, k) + Offered(tr[k]) == DeviceReqs(tr[0].l2.sets, tr[k].reqs)
  {
    if k > 0 {
      EachRequestOnce(tr, cycles, k - 1);
      CycleBalances(tr, cycles, k);
      Rearrange(ToDevices(tr, cycles, k - 1), Taken(tr[0].l2.sets, tr[k - 1].l2.c.bus, cycles[k - 1].pins),
                Offered(tr[k - 1]), Offered(tr[k]), NewDeviceReqs(tr[k - 1], cycles[k - 1]),
                DeviceReqs(tr[0].l2.sets, tr[k - 1].reqs));
    }
  }

  // ---- What the requester gets back ----

  /** The bus answers the device request in hand with `r`. */
  predicate Answered(s: Sys, cy: Cycle, r: Resp) {
    || (s.l2.c.state == PeriphWrite && cy.pins.busBvalid && r == Stored(cy.pins.busBresp))
    || (s.l2.c.state == PeriphRead && cy.pins.busRvalid && r == Loaded(cy.pins.busRdata, cy.pins.busRresp))
  }

  /** The response that is offered in RET. */
  function Response(c: CpuPort): Resp { if c.bvalid then Stored(c.bresp) else Loaded(c.rdata, c.rresp) }

  predicate ForDevice(s: Sys) { |s.resps| < |s.reqs| && Peripheral(s.l2.sets, s.reqs[|s.resps|].addr.line) }

  /** The bus answered the request that `tr[k]` has in hand, in cycle `i`, with `r`. */
  predicate AnsweredAt(tr: seq<Sys>, cycles: seq<Cycle>, i: nat, j: nat, r: Resp)
    requires |tr| == |cycles| + 1
  {
    i < |cycles| && |tr[i].resps| == j && Answered(tr[i], cycles[i], r)
  }

  lemma {:induction false} EntersReturn(s: Sys, cy: Cycle, initial: Memory)
    requires Inv(s, initial) && Allowed(s, cy) && s.l2.c.state != Ret && Next(s, cy).l2.c.state == Ret
    requires ForDevice(Next(s, cy))
    ensures Answered(s, cy, Response(Next(s, cy).l2.c.cpu)) && Next(s, cy).resps == s.resps
  {
    if s.l2.c.state != Idle { T.OthersFollow(s, cy); }
  }

  lemma {:induction false} StaysInReturn(s: Sys, cy: Cycle, initial: Memory)
    requires Inv(s, initial) && Allowed(s, cy) && s.l2.c.state == Ret && Next(s, cy).l2.c.state == Ret
    ensures Next(s, cy).l2.c.cpu == s.l2.c.cpu && Next(s, cy).reqs == s.reqs && Next(s, cy).resps == s.resps
  {
  }

  lemma {:induction false} Delivers(s: Sys, cy: Cycle, initial: Memory)
    requires Inv(s, initial) && Allowed(s, cy)
    ensures Next(s, cy).resps == s.resps
         || (s.l2.c.state == Ret && Next(s, cy).resps == s.resps + [Response(s.l2.c.cpu)]
             && |s.reqs| == |s.resps| + 1 && Next(s, cy).reqs == s.reqs)
    ensures |s.resps| <= |s.reqs| && s.reqs <= Next(s, cy).reqs
  {
  }

  /** What a cycle means for responses: RET is entered with the bus's answer to a device request, is kept
      unchanged, and is left by handing over what it offers. */
  predicate Responds(s: Sys, cy: Cycle, n: Sys) {
    && |s.resps| <= |s.reqs| && s.reqs <= n.reqs && n.l2.sets == s.l2.sets
    && (n.resps == s.resps || (s.l2.c.state == Ret && n.resps == s.resps + [Response(s.l2.c.cpu)]
                               && |s.reqs| == |s.resps| + 1))
    && (n.l2.c.state == Ret ==>
          if s.l2.c.state == Ret then n.l2.c.cpu == s.l2.c.cpu && n.reqs == s.reqs && n.resps == s.resps
          else ForDevice(n) ==> Answered(s, cy, Response(n.l2.c.cpu)) && n.resps == s.resps)
  }

  lemma {:induction false} StepResponds(s: Sys, cy: Cycle, initial: Memory)
    requires Inv(s, initial) && Allowed(s, cy)
    ensures Responds(s, cy, Next(s, cy))
  {
    Delivers(s, cy, initial);
    if Next(s, cy).l2.c.state == Ret {
      if s.l2.c.state == Ret {
        StaysInReturn(s, cy, initial);
      } else if ForDevice(Next(s, cy)) {
        EntersReturn(s, cy, initial);
      }
    }
  }

  ghost predicate AllRespond(tr: seq<Sys>, cycles: seq<Cycle>) {
    && |tr| == |cycles| + 1 && tr[0].l2.c.state == Idle && tr[0].resps == []
    && forall k | 0 <= k < |cycles| :: Responds(tr[k], cycles[k], tr[k + 1])
  }

  lemma {:induction false} RunResponds(tr: seq<Sys>, cycles: seq<Cycle>)
    requires IsRun(tr, cycles)
    ensures AllRespond(tr, cycles)
  {
    forall k | 0 <= k < |cycles|
      ensures Responds(tr[k], cycles[k], tr[k + 1])
    {
      CycleResponds(tr, cycles, k);
    }
  }

  lemma {:induction false} CycleResponds(tr: seq<Sys>, cycles: seq<Cycle>, k: nat)
    requires IsRun(tr, cycles) && k < |cycles|
    ensures Responds(tr[k], cycles[k], tr[k + 1])
  {
    T.RunKeeps(tr, cycles, k);
    StepResponds(tr[k], cycles[k], tr[0].bus.mem);
  }

  /** The response offered to a device request is the one the bus gave. */
  lemma {:induction false} OfferIsTheDevices(tr: seq<Sys>, cycles: seq<Cycle>, k: nat) returns (i: nat)
    requires AllRespond(tr, cycles) && k < |tr| && tr[k].l2.c.state == Ret && ForDevice(tr[k])
    ensures i < k && AnsweredAt(tr, cycles, i, |tr[k].resps|, Response(tr[k].l2.c.cpu))
  {
    assert Responds(tr[k - 1], cycles[k - 1], tr[k]);
    if tr[k - 1].l2.c.state == Ret {
      i := OfferIsTheDevices(tr, cycles, k - 1);
    } else {
      i := k - 1;
    }
  }

  lemma {:induction false} SameSets(tr: seq<Sys>, cycles: seq<Cycle>, k: nat)
    requires AllRespond(tr, cycles) && k < |tr|
    ensures tr[k].l2.sets == tr[0].l2.sets
  {
    if k > 0 {
      SameSets(tr, cycles, k - 1);
      assert Responds(tr[k - 1], cycles[k - 1], tr[k]);
    }
  }

  lemma {:induction false} Delivered(tr: seq<Sys>, cycles: seq<Cycle>, k: nat, j: nat) returns (i: nat)
    requires AllRespond(tr, cycles) && k < |tr| && j < |tr[k].resps| && j < |tr[k].reqs|
    requires Peripheral(tr[0].l2.sets, tr[k].reqs[j].addr.line)
    ensures i < k && AnsweredAt(tr, cycles, i, j, tr[k].resps[j])
  {
    assert Responds(tr[k - 1], cycles[k - 1], tr[k]);
    SameSets(tr, cycles, k - 1);
    if j < |tr[k - 1].resps| {
      i := Delivered(tr, cycles, k - 1, j);
    } else {
      i := OfferIsTheDevices(tr, cycles, k - 1);
    }
  }

  /** Over every run: each response to a device request carries the data and the status with which the bus
      answered that very request. */
  lemma {:induction false} ResponseIsTheDevices(tr: seq<Sys>, cycles: seq<Cycle>, k: nat, j: nat) returns (i: nat)
    requires IsRun(tr, cycles) && k < |tr| && j < |tr[k].resps| && j < |tr[k].reqs|
    requires Peripheral(tr[0].l2.sets, tr[k].reqs[j].addr.line)
    ensures i < k && AnsweredAt(tr, cycles, i, j, tr[k].resps[j])
  {
    RunResponds(tr, cycles);
    i := Delivered(tr, cycles, k, j);
  }
}
