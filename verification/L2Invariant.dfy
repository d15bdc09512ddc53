/** The invariant of the cache and its preservation, one lemma per state of the machine. */
module L2Invariant {
  import opened FlatMemory
  import opened L2Cache
  import opened L2System

  function PendingStore(c: Control): Pending {
    if c.isStore && (c.state == CheckLock || c.state == CompareTag || c.state == CheckValid
                     || c.state == WriteBack || c.state == Allocate || c.state == WriteCache)
    then Bytes(c.axaddr.line, c.cpuWdata, c.cpuWstrb)
    else Nothing
  }

  /** No way is being written or was just hit. */
  predicate Quiet(c: Control) { c.hit == NoWay && c.we == NoWay }

  predicate BusIdle(c: Control, b: Bus) {
    !c.bus.wvalid && !c.bus.arvalid && b.w == NoWrite && b.r == NoRead
  }

  /** Registers of a request that is being served. */
  predicate Serving(sets: nat, c: Control, reqs: seq<Req>, resps: seq<Resp>) {
    && |reqs| == |resps| + 1
    && c.isLoad != c.isStore
    && (c.isLoad ==> reqs[|resps|].Load?)
    && (c.isStore ==> reqs[|resps|].Store?)
  }

  predicate ServingLine(sets: nat, c: Control, reqs: seq<Req>, resps: seq<Resp>) {
    && Serving(sets, c, reqs, resps)
    && !c.cpu.bvalid && !c.cpu.rvalid
    && !Peripheral(sets, c.axaddr.line)
    && reqs[|resps|] == (if c.isLoad then Load(c.axaddr) else Store(c.axaddr, c.cpuWdata, c.cpuWstrb))
    && (c.isStore && c.state != CheckLock ==> c.cpu.bresp == OKAY)
  }

  predicate ServingDevice(sets: nat, c: Control, reqs: seq<Req>, resps: seq<Resp>) {
    Serving(sets, c, reqs, resps) && !c.cpu.bvalid && !c.cpu.rvalid && Peripheral(sets, reqs[|resps|].addr.line)
  }

  /** The replacement registers have caught up with the tree of the indexed set. */
  predicate VictimStable(a: Arrays, i: nat)
    requires i < |a.plruRam|
  {
    !a.plruWe && a.plruOut == a.plruRam[i] && a.replace == Victim(a.plruRam[i])
  }

  predicate Missed(a: Arrays, c: Control)
    requires c.axaddr.line.index < |a.ram| && |a.ram| == |a.plruRam|
  {
    && Quiet(c) && VictimStable(a, c.axaddr.line.index)
    && Find(a.ram[c.axaddr.line.index], c.axaddr.line.tag) == 4
  }

  // What holds in each state.  `row` below is the set that the request in hand indexes.

  function IndexedRow(s: Regs): Row
    requires Shape(s)
  {
    s.a.ram[s.c.axaddr.line.index]
  }

  predicate AtIdle(s: Sys) {
    var c := s.l2.c;
    && Quiet(c) && BusIdle(c, s.bus) && !c.isLoad && !c.isStore && !c.cpu.bvalid && !c.cpu.rvalid
    && |s.reqs| == |s.resps|
  }

  /** LATENCY for loads, CHECK_LOCK for stores: the first pipeline register holds the set. */
  predicate AtWait(s: Sys)
    requires Shape(s.l2)
  {
    var c := s.l2.c;
    && Quiet(c) && BusIdle(c, s.bus) && ServingLine(s.l2.sets, c, s.reqs, s.resps)
    && c.isLoad == (c.state == Latency) && s.l2.a.pipe == IndexedRow(s.l2) && !s.l2.a.plruWe
  }

  predicate AtCompareTag(s: Sys)
    requires Shape(s.l2)
  {
    var a, c := s.l2.a, s.l2.c;
    && Quiet(c) && BusIdle(c, s.bus) && ServingLine(s.l2.sets, c, s.reqs, s.resps)
    && a.pipe == a.out == IndexedRow(s.l2) && !a.plruWe && a.plruOut == a.plruRam[c.axaddr.line.index]
  }

  predicate AtCheckValid(s: Sys)
    requires Shape(s.l2)
  {
    var a, c := s.l2.a, s.l2.c;
    && c.we == NoWay && BusIdle(c, s.bus) && ServingLine(s.l2.sets, c, s.reqs, s.resps)
    && a.out == IndexedRow(s.l2) && c.hit == Match(IndexedRow(s.l2), c.axaddr.line.tag)
    && VictimStable(a, c.axaddr.line.index)
  }

  predicate AtWriteBack(s: Sys)
    requires Shape(s.l2)
  {
    var a, c := s.l2.a, s.l2.c;
    && ServingLine(s.l2.sets, c, s.reqs, s.resps) && Missed(a, c) && !c.bus.arvalid && s.bus.r == NoRead
    && WritingBack(c.bus, s.bus, IndexedRow(s.l2)[a.replace], c.axaddr.line.index)
  }

  predicate AtAllocate(s: Sys)
    requires Shape(s.l2)
  {
    var a, c := s.l2.a, s.l2.c;
    var victim := IndexedRow(s.l2)[a.replace];
    && ServingLine(s.l2.sets, c, s.reqs, s.resps) && Missed(a, c) && !c.bus.wvalid && s.bus.w == NoWrite
    && (victim.valid ==> victim.data == At(s.bus.mem, LineId(victim.tag, c.axaddr.line.index)))
    && Fetching(c.bus, s.bus, c.axaddr)
  }

  predicate AtWriteCache(s: Sys)
    requires Shape(s.l2)
  {
    var c := s.l2.c;
    var filled := Effective(s.l2)[c.axaddr.line.index];
    && BusIdle(c, s.bus) && ServingLine(s.l2.sets, c, s.reqs, s.resps) && c.isStore && Any(c.we)
    && c.hit == Match(filled, c.axaddr.line.tag) && Find(filled, c.axaddr.line.tag) < 4
  }

  predicate AtPeriphWrite(s: Sys) {
    var c := s.l2.c;
    && Quiet(c) && ServingDevice(s.l2.sets, c, s.reqs, s.resps) && c.isStore && !c.bus.arvalid && s.bus.r == NoRead
    && OnItsWay(c.bus, s.bus, s.reqs[|s.resps|])
  }

  /** The request itself is on the bus: offered, taken with its own data and strobes, or written. */
  predicate OnItsWay(p: BusPort, b: Bus, q: Req) {
    if p.wvalid then b.w == NoWrite && Store(p.awaddr, p.wdata, p.wstrb) == q
    else if b.w.Accepted? then Store(b.w.addr, b.w.data, b.w.strb) == q
    else b.w.Committed? && b.w.addr == q.addr
  }

  predicate AtPeriphRead(s: Sys) {
    var c := s.l2.c;
    && Quiet(c) && ServingDevice(s.l2.sets, c, s.reqs, s.resps) && c.isLoad && !c.bus.wvalid && s.bus.w == NoWrite
    && if c.bus.arvalid then s.bus.r == NoRead && Load(c.bus.araddr) == s.reqs[|s.resps|]
       else s.bus.r == Reading(s.reqs[|s.resps|].addr)
  }

  /** The registers hold the answer a flat memory gives. */
  ghost predicate AtRet(s: Sys, initial: Memory) {
    var c := s.l2.c;
    && c.hit == NoWay && BusIdle(c, s.bus) && Serving(s.l2.sets, c, s.reqs, s.resps)
    && c.cpu.bvalid == c.isStore && c.cpu.rvalid == c.isLoad
    && Answers(s.l2.sets, initial, s.reqs[..|s.resps|], s.reqs[|s.resps|],
               if c.isStore then Stored(c.cpu.bresp) else Loaded(c.cpu.rdata, c.cpu.rresp))
  }

  ghost predicate InState(s: Sys, initial: Memory)
    requires Shape(s.l2)
  {
    match s.l2.c.state
    case Idle => AtIdle(s)
    case Latency => AtWait(s)
    case CheckLock => AtWait(s)
    case CompareTag => AtCompareTag(s)
    case CheckValid => AtCheckValid(s)
    case WriteBack => AtWriteBack(s)
    case Allocate => AtAllocate(s)
    case WriteCache => AtWriteCache(s)
    case PeriphWrite => AtPeriphWrite(s)
    case PeriphRead => AtPeriphRead(s)
    case Ret => AtRet(s, initial)
  }

  /** The dirty victim is on its way to memory. */
  predicate WritingBack(p: BusPort, b: Bus, victim: Way, i: nat) {
    && victim.valid && victim.dirty
    && var id := LineId(victim.tag, i);
       if p.wvalid then b.w == NoWrite && p.awaddr.line == id && p.wdata == victim.data && p.wstrb == AllLanes
       else if b.w.Accepted? then b.w.addr.line == id && b.w.data == victim.data && b.w.strb == AllLanes
       else b.w.Committed? && b.w.addr.line == id && At(b.mem, id) == victim.data
  }

  predicate Fetching(p: BusPort, b: Bus, axaddr: Addr) {
    if p.arvalid then b.r == NoRead && p.araddr == axaddr else b.r == Reading(axaddr)
  }

  /** The part of the invariant that does not mention the state machine: the sets are coherent with
      memory, cache and memory together show the flat contents, and every response so far was right. */
  ghost predicate Contents(s: Sys, initial: Memory)
    requires Shape(s.l2)
  {
    && Coherent(s.l2.sets, Effective(s.l2), s.bus.mem)
    && IsFlat(s.l2.sets, Effective(s.l2), s.bus.mem, PendingStore(s.l2.c), initial, s.reqs)
    && AllAnswered(s.l2.sets, initial, s.reqs, s.resps)
  }

  ghost predicate Inv(s: Sys, initial: Memory) {
    Shape(s.l2) && Contents(s, initial) && InState(s, initial)
  }

  // ---- Lines, rows and memory ----

  lemma {:induction false} FullMerge(l: Line, data: Line)
    ensures Merge(l, data, AllLanes) == data
  {
    assert forall k | 0 <= k < 16 :: AllLanes[k];
    assert forall k | 0 <= k < 16 :: Merge(l, data, AllLanes)[k] == data[k];
  }

  /** Merging a store into the one way that hits is merging it into the line, and nothing else moves. */
  lemma {:induction false} StoreIntoHit(sets: nat, ram: seq<Row>, mem: Memory, id: LineId, data: Line, strb: Strobe)
    requires Coherent(sets, ram, mem) && id.index < sets && Find(ram[id.index], id.tag) < 4
    ensures var row := WriteRow(ram[id.index], Match(ram[id.index], id.tag), true, id.tag, data, strb);
            var ram' := ram[id.index := row];
            && Coherent(sets, ram', mem)
            && forall x: LineId | x.index < sets ::
                 View(ram', mem, x) == if x == id then Merge(View(ram, mem, x), data, strb) else View(ram, mem, x)
  {
    var row := WriteRow(ram[id.index], Match(ram[id.index], id.tag), true, id.tag, data, strb);
    var ram' := ram[id.index := row];
    assert RowOk(sets, id.index, ram[id.index], mem);
    assert RowOk(sets, id.index, row, mem);
    forall x: LineId | x.index < sets
      ensures View(ram', mem, x) == if x == id then Merge(View(ram, mem, x), data, strb) else View(ram, mem, x)
    {
      if x.index == id.index {
        assert Find(row, x.tag) == Find(ram[id.index], x.tag);
      }
    }
  }

  /** So the bytes of a pending store leave the overlay and enter the cache in one move. */
  lemma {:induction false} StoreLands(sets: nat, ram: seq<Row>, mem: Memory, id: LineId, data: Line, strb: Strobe,
                   initial: Memory, reqs: seq<Req>)
    requires Coherent(sets, ram, mem) && id.index < sets && Find(ram[id.index], id.tag) < 4
    requires IsFlat(sets, ram, mem, Bytes(id, data, strb), initial, reqs)
    ensures var row := WriteRow(ram[id.index], Match(ram[id.index], id.tag), true, id.tag, data, strb);
            var ram' := ram[id.index := row];
            Coherent(sets, ram', mem) && IsFlat(sets, ram', mem, Nothing, initial, reqs)
  {
    StoreIntoHit(sets, ram, mem, id, data, strb);
  }

  /** Filling way `w`, whose line memory already holds, with a line fetched from memory ... */
  lemma {:induction false} FillRow(sets: nat, before: Row, mem: Memory, id: LineId, w: nat)
    requires RowOk(sets, id.index, before, mem) && Find(before, id.tag) == 4 && w < 4 && !Peripheral(sets, id)
    ensures var row := WriteRow(before, Only(w), false, id.tag, At(mem, id), AllLanes);
            && RowOk(sets, id.index, row, mem) && Find(row, id.tag) == w && Match(row, id.tag) == Only(w)
            && row == before[w := Way(true, false, id.tag, At(mem, id))]
  {
    FullMerge(before[w].data, At(mem, id));
    var row := WriteRow(before, Only(w), false, id.tag, At(mem, id), AllLanes);
    assert row == before[w := Way(true, false, id.tag, At(mem, id))];
  }

  /** ... changes no view. */
  lemma {:induction false} FillVictim(sets: nat, ram: seq<Row>, mem: Memory, id: LineId, w: nat)
    requires Coherent(sets, ram, mem) && id.index < sets && Find(ram[id.index], id.tag) == 4 && w < 4
    requires !Peripheral(sets, id)
    requires var v := ram[id.index][w]; v.valid ==> v.data == At(mem, LineId(v.tag, id.index))
    ensures var ram' := ram[id.index := WriteRow(ram[id.index], Only(w), false, id.tag, At(mem, id), AllLanes)];
            && Coherent(sets, ram', mem)
            && forall x: LineId | x.index < sets :: View(ram', mem, x) == View(ram, mem, x)
  {
    var before := ram[id.index];
    var row := WriteRow(before, Only(w), false, id.tag, At(mem, id), AllLanes);
    assert RowOk(sets, id.index, before, mem);
    FillRow(sets, before, mem, id, w);
    forall x: LineId | x.index < sets
      ensures View(ram[id.index := row], mem, x) == View(ram, mem, x)
    {
      if x.index == id.index && x.tag != id.tag {
        var f := Find(before, x.tag);
        if f == w { assert Find(row, x.tag) == 4; } else { assert Find(row, x.tag) == f; }
      }
    }
  }

  /** Committing the write-back of a dirty way changes memory only below the cache. */
  lemma {:induction false} CommitVictim(sets: nat, ram: seq<Row>, mem: Memory, i: nat, w: nat, id: LineId, mem': Memory)
    requires Coherent(sets, ram, mem) && i < sets && w < 4 && ram[i][w].valid && ram[i][w].dirty
    requires id == LineId(ram[i][w].tag, i) && mem' == mem[id := ram[i][w].data]
    ensures Coherent(sets, ram, mem')
    ensures forall x: LineId | x.index < sets :: View(ram, mem', x) == View(ram, mem, x)
  {
    forall j | 0 <= j < sets
      ensures RowOk(sets, j, ram[j], mem')
    {
      assert RowOk(sets, j, ram[j], mem);
    }
    forall x: LineId | x.index < sets
      ensures View(ram, mem', x) == View(ram, mem, x)
    {
      assert RowOk(sets, i, ram[i], mem);
    }
  }

  // ---- The two histories ----

  lemma {:induction false} AnsweredAfterAccept(sets: nat, initial: Memory, reqs: seq<Req>, resps: seq<Resp>,
                                                more: seq<Req>)
    requires AllAnswered(sets, initial, reqs, resps)
    ensures AllAnswered(sets, initial, reqs + more, resps)
  {
    forall k | 0 <= k < |resps|
      ensures Answers(sets, initial, (reqs + more)[..k], (reqs + more)[k], resps[k])
    {
      assert (reqs + more)[..k] == reqs[..k];
    }
  }

  lemma {:induction false} AnsweredAfterDeliver(sets: nat, initial: Memory, reqs: seq<Req>, resps: seq<Resp>, r: Resp)
    requires AllAnswered(sets, initial, reqs, resps) && |resps| < |reqs|
    requires Answers(sets, initial, reqs[..|resps|], reqs[|resps|], r)
    ensures AllAnswered(sets, initial, reqs, resps + [r])
  {
  }

  /** The request being served is the newest one, so a load's answer may be read off the current contents. */
  lemma {:induction false} NewestLoad(sets: nat, initial: Memory, reqs: seq<Req>, n: nat, id: LineId)
    requires |reqs| == n + 1 && reqs[n].Load?
    ensures LineAfter(sets, initial, reqs, id) == LineAfter(sets, initial, reqs[..n], id)
  {
  }

  // ---- One pair of lemmas per state: where the machine goes, and what the contents become ----

  /** The register defaults of the combinational block. */
  function Defaults(c: Control): Control { c.(hit := NoWay, we := NoWay, wdirty := false) }

  /** `n` is the successor of `s` when the state machine's registers become `c` and the requester sees
      nothing new. */
  predicate Follows(s: Sys, cy: Cycle, n: Sys, c: Control) {
    && Shape(s.l2) && Shape(n.l2) && PinsFit(s.l2, cy.pins)
    && n.l2 == Regs(s.l2.sets, NextArrays(s.l2.a, s.l2.c, s.l2.c.axaddr.line.index), c)
    && n.bus == NextBus(s.l2.sets, s.bus, s.l2.c, cy)
    && n.reqs == s.reqs && n.resps == s.resps
  }

  /** What the machine needs to know about the contents: the indexed set is coherent, and a load's line
      reads as the flat memory does. */
  ghost predicate Here(s: Sys, initial: Memory)
    requires Shape(s.l2)
  {
    var id := s.l2.c.axaddr.line;
    && RowOk(s.l2.sets, id.index, IndexedRow(s.l2), s.bus.mem)
    && (s.l2.c.isLoad && !Peripheral(s.l2.sets, id) ==>
          View(s.l2.a.ram, s.bus.mem, id) == LineAfter(s.l2.sets, initial, s.reqs, id))
  }

  lemma {:induction false} ContentsHere(s: Sys, initial: Memory)
    requires Shape(s.l2) && Contents(s, initial) && s.l2.c.we == NoWay && (s.l2.c.isLoad ==> !s.l2.c.isStore)
    ensures Here(s, initial)
  {
    assert Effective(s.l2) == s.l2.a.ram;
    var id := s.l2.c.axaddr.line;
    assert RowOk(s.l2.sets, id.index, Effective(s.l2)[id.index], s.bus.mem);
  }

  lemma {:induction false} Unchanged(s: Sys, n: Sys, initial: Memory)
    requires Shape(s.l2) && Contents(s, initial) && Shape(n.l2) && n.l2.sets == s.l2.sets
    requires Effective(n.l2) == Effective(s.l2) && n.bus.mem == s.bus.mem && n.reqs == s.reqs && n.resps == s.resps
    requires PendingStore(n.l2.c) == PendingStore(s.l2.c)
    ensures Contents(n, initial)
  {
  }

  /** A step that moves lines between cache and memory, but changes no view of them. */
  lemma {:induction false} SameViews(s: Sys, n: Sys, initial: Memory)
    requires Shape(s.l2) && Contents(s, initial) && Shape(n.l2) && n.l2.sets == s.l2.sets
    requires Coherent(s.l2.sets, Effective(n.l2), n.bus.mem)
    requires forall x: LineId | x.index < s.l2.sets ::
               View(Effective(n.l2), n.bus.mem, x) == View(Effective(s.l2), s.bus.mem, x)
    requires PendingStore(n.l2.c) == PendingStore(s.l2.c) && n.reqs == s.reqs && n.resps == s.resps
    ensures Contents(n, initial)
  {
  }

  /** A step that puts the pending store into the cache. */
  lemma {:induction false} Landed(s: Sys, n: Sys, initial: Memory)
    requires Shape(s.l2) && Contents(s, initial) && Shape(n.l2) && n.l2.sets == s.l2.sets
    requires Coherent(s.l2.sets, Effective(n.l2), n.bus.mem) && PendingStore(n.l2.c) == Nothing
    requires IsFlat(s.l2.sets, Effective(n.l2), n.bus.mem, Nothing, initial, s.reqs)
    requires n.reqs == s.reqs && n.resps == s.resps
    ensures Contents(n, initial)
  {
  }

  lemma {:induction false} RamStays(s: Sys, cy: Cycle, n: Sys, c: Control)
    requires Follows(s, cy, n, c) && s.l2.c.we == NoWay
    ensures n.l2.a.ram == s.l2.a.ram == Effective(s.l2)
    ensures c.we == NoWay ==> Effective(n.l2) == s.l2.a.ram
  {
  }

  lemma {:induction false} DeviceLeavesMemory(s: Sys, cy: Cycle)
    requires Shape(s.l2) && s.l2.c.state == PeriphWrite && AtPeriphWrite(s) && Allowed(s, cy)
    ensures NextBus(s.l2.sets, s.bus, s.l2.c, cy).mem == s.bus.mem
  {
  }

  lemma {:induction false} WaitMoves(s: Sys, cy: Cycle, n: Sys, initial: Memory)
    requires Shape(s.l2) && Here(s, initial) && AtWait(s) && Allowed(s, cy)
    requires s.l2.c.state == Latency || s.l2.c.state == CheckLock
    requires Follows(s, cy, n, if s.l2.c.state == Latency then Defaults(s.l2.c).(state := CompareTag)
                            else Defaults(s.l2.c).(cpu := s.l2.c.cpu.(bresp := OKAY), state := CompareTag))
    ensures InState(n, initial)
  {
  }

  lemma {:induction false} WaitContents(s: Sys, cy: Cycle, n: Sys, initial: Memory)
    requires Shape(s.l2) && Contents(s, initial) && AtWait(s) && Allowed(s, cy)
    requires s.l2.c.state == Latency || s.l2.c.state == CheckLock
    requires Follows(s, cy, n, if s.l2.c.state == Latency then Defaults(s.l2.c).(state := CompareTag)
                            else Defaults(s.l2.c).(cpu := s.l2.c.cpu.(bresp := OKAY), state := CompareTag))
    ensures Contents(n, initial)
  {
    Unchanged(s, n, initial);
  }

  lemma {:induction false} CompareMoves(s: Sys, cy: Cycle, n: Sys, initial: Memory)
    requires Shape(s.l2) && Here(s, initial) && s.l2.c.state == CompareTag && AtCompareTag(s) && Allowed(s, cy)
    requires Follows(s, cy, n, Defaults(s.l2.c).(hit := Match(s.l2.a.out, s.l2.c.axaddr.line.tag), state := CheckValid))
    ensures InState(n, initial)
  {
  }

  lemma {:induction false} CompareContents(s: Sys, cy: Cycle, n: Sys, initial: Memory)
    requires Shape(s.l2) && Contents(s, initial) && s.l2.c.state == CompareTag && AtCompareTag(s) && Allowed(s, cy)
    requires Follows(s, cy, n, Defaults(s.l2.c).(hit := Match(s.l2.a.out, s.l2.c.axaddr.line.tag), state := CheckValid))
    ensures Contents(n, initial)
  {
    Unchanged(s, n, initial);
  }

  lemma {:induction false} DeviceWriteMoves(s: Sys, cy: Cycle, n: Sys, initial: Memory)
    requires Shape(s.l2) && Here(s, initial) && s.l2.c.state == PeriphWrite && AtPeriphWrite(s) && Allowed(s, cy)
    requires Follows(s, cy, n, InPeriphWrite(Defaults(s.l2.c), cy.pins))
    ensures InState(n, initial)
  {
  }

  lemma {:induction false} DeviceWriteContents(s: Sys, cy: Cycle, n: Sys, initial: Memory)
    requires Shape(s.l2) && Contents(s, initial) && s.l2.c.state == PeriphWrite && AtPeriphWrite(s) && Allowed(s, cy)
    requires Follows(s, cy, n, InPeriphWrite(Defaults(s.l2.c), cy.pins))
    ensures Contents(n, initial)
  {
    DeviceLeavesMemory(s, cy);
    Unchanged(s, n, initial);
  }

  lemma {:induction false} DeviceReadMoves(s: Sys, cy: Cycle, n: Sys, initial: Memory)
    requires Shape(s.l2) && Here(s, initial) && s.l2.c.state == PeriphRead && AtPeriphRead(s) && Allowed(s, cy)
    requires Follows(s, cy, n, InPeriphRead(Defaults(s.l2.c), cy.pins))
    ensures InState(n, initial)
  {
  }

  lemma {:induction false} DeviceReadContents(s: Sys, cy: Cycle, n: Sys, initial: Memory)
    requires Shape(s.l2) && Contents(s, initial) && s.l2.c.state == PeriphRead && AtPeriphRead(s) && Allowed(s, cy)
    requires Follows(s, cy, n, InPeriphRead(Defaults(s.l2.c), cy.pins))
    ensures Contents(n, initial)
  {
    Unchanged(s, n, initial);
  }

  /** A hit sends the store's bytes to the way that matched, or takes that way's data ... */
  lemma {:induction false} HitMoves(s: Sys, cy: Cycle, n: Sys, initial: Memory)
    requires Shape(s.l2) && Here(s, initial) && s.l2.c.state == CheckValid && AtCheckValid(s) && Allowed(s, cy)
    requires Follows(s, cy, n, InCheckValid(Defaults(s.l2.c), s.l2.c.hit, s.l2.a.out, s.l2.a.replace))
    requires Any(s.l2.c.hit)
    ensures InState(n, initial)
  {
    if s.l2.c.isLoad {
      NewestLoad(s.l2.sets, initial, s.reqs, |s.resps|, s.l2.c.axaddr.line);
    }
  }

  /** ... and a miss picks a victim. */
  lemma {:induction false} MissMoves(s: Sys, cy: Cycle, n: Sys, initial: Memory)
    requires Shape(s.l2) && Here(s, initial) && s.l2.c.state == CheckValid && AtCheckValid(s) && Allowed(s, cy)
    requires Follows(s, cy, n, InCheckValid(Defaults(s.l2.c), s.l2.c.hit, s.l2.a.out, s.l2.a.replace))
    requires !Any(s.l2.c.hit)
    ensures InState(n, initial)
  {
  }

  lemma {:induction false} StoreHitContents(s: Sys, cy: Cycle, n: Sys, initial: Memory)
    requires Shape(s.l2) && Contents(s, initial) && s.l2.c.state == CheckValid && AtCheckValid(s) && Allowed(s, cy)
    requires Follows(s, cy, n, InCheckValid(Defaults(s.l2.c), s.l2.c.hit, s.l2.a.out, s.l2.a.replace))
    requires Any(s.l2.c.hit) && s.l2.c.isStore
    ensures Contents(n, initial)
  {
    var c := s.l2.c;
    RamStays(s, cy, n, n.l2.c);
    StoreLands(s.l2.sets, s.l2.a.ram, s.bus.mem, c.axaddr.line, c.cpuWdata, c.cpuWstrb, initial, s.reqs);
    Landed(s, n, initial);
  }

  lemma {:induction false} HitContents(s: Sys, cy: Cycle, n: Sys, initial: Memory)
    requires Shape(s.l2) && Contents(s, initial) && s.l2.c.state == CheckValid && AtCheckValid(s) && Allowed(s, cy)
    requires Follows(s, cy, n, InCheckValid(Defaults(s.l2.c), s.l2.c.hit, s.l2.a.out, s.l2.a.replace))
    requires Any(s.l2.c.hit)
    ensures Contents(n, initial)
  {
    if s.l2.c.isStore {
      StoreHitContents(s, cy, n, initial);
    } else {
      RamStays(s, cy, n, n.l2.c);
      Unchanged(s, n, initial);
    }
  }

  lemma {:induction false} MissContents(s: Sys, cy: Cycle, n: Sys, initial: Memory)
    requires Shape(s.l2) && Contents(s, initial) && s.l2.c.state == CheckValid && AtCheckValid(s) && Allowed(s, cy)
    requires Follows(s, cy, n, InCheckValid(Defaults(s.l2.c), s.l2.c.hit, s.l2.a.out, s.l2.a.replace))
    requires !Any(s.l2.c.hit)
    ensures Contents(n, initial)
  {
    Unchanged(s, n, initial);
  }

  /** Whatever the bus does in a cycle, the victim's data is asked for, held, or in memory. */
  lemma {:induction false} WriteBackOnBus(s: Sys, cy: Cycle)
    requires Shape(s.l2) && s.l2.c.state == WriteBack && AtWriteBack(s) && Allowed(s, cy)
    requires RowOk(s.l2.sets, s.l2.c.axaddr.line.index, IndexedRow(s.l2), s.bus.mem)
    ensures var b, victim := NextBus(s.l2.sets, s.bus, s.l2.c, cy), IndexedRow(s.l2)[s.l2.a.replace];
            var id := LineId(victim.tag, s.l2.c.axaddr.line.index);
            && b.r == NoRead
            && (cy.pins.busBvalid ==> b.w == NoWrite && At(b.mem, id) == victim.data && cy.pins.busBresp == OKAY)
            && (!cy.pins.busBvalid ==>
                  WritingBack(WriteAccepted(s.l2.c, cy.pins).bus, b, victim, s.l2.c.axaddr.line.index))
  {
    var victim := IndexedRow(s.l2)[s.l2.a.replace];
    FullMerge(At(s.bus.mem, LineId(victim.tag, s.l2.c.axaddr.line.index)), victim.data);
  }

  lemma {:induction false} WriteBackWaits(s: Sys, cy: Cycle, n: Sys, initial: Memory)
    requires Shape(s.l2) && Here(s, initial) && s.l2.c.state == WriteBack && AtWriteBack(s) && Allowed(s, cy)
    requires Follows(s, cy, n, InWriteBack(Defaults(s.l2.c), cy.pins))
    requires !cy.pins.busBvalid
    ensures InState(n, initial)
  {
    WriteBackOnBus(s, cy);
  }

  lemma {:induction false} WriteBackEnds(s: Sys, cy: Cycle, n: Sys, initial: Memory)
    requires Shape(s.l2) && Here(s, initial) && s.l2.c.state == WriteBack && AtWriteBack(s) && Allowed(s, cy)
    requires Follows(s, cy, n, InWriteBack(Defaults(s.l2.c), cy.pins))
    requires cy.pins.busBvalid
    ensures InState(n, initial)
  {
    WriteBackOnBus(s, cy);
  }

  /** The only write memory can take meanwhile is the victim's line. */
  lemma {:induction false} WriteBackMemory(s: Sys, cy: Cycle)
    requires Shape(s.l2) && s.l2.c.state == WriteBack && AtWriteBack(s) && Allowed(s, cy)
    ensures var victim := IndexedRow(s.l2)[s.l2.a.replace];
            var mem := NextBus(s.l2.sets, s.bus, s.l2.c, cy).mem;
            mem == s.bus.mem || mem == s.bus.mem[LineId(victim.tag, s.l2.c.axaddr.line.index) := victim.data]
  {
    var victim := IndexedRow(s.l2)[s.l2.a.replace];
    FullMerge(At(s.bus.mem, LineId(victim.tag, s.l2.c.axaddr.line.index)), victim.data);
  }

  lemma {:induction false} WriteBackContents(s: Sys, cy: Cycle, n: Sys, initial: Memory)
    requires Shape(s.l2) && Contents(s, initial) && s.l2.c.state == WriteBack && AtWriteBack(s) && Allowed(s, cy)
    requires Follows(s, cy, n, InWriteBack(Defaults(s.l2.c), cy.pins))
    ensures Contents(n, initial)
  {
    var i := s.l2.c.axaddr.line.index;
    RamStays(s, cy, n, n.l2.c);
    WriteBackMemory(s, cy);
    if n.bus.mem == s.bus.mem {
      Unchanged(s, n, initial);
    } else {
      var victim := LineId(IndexedRow(s.l2)[s.l2.a.replace].tag, i);
      CommitVictim(s.l2.sets, s.l2.a.ram, s.bus.mem, i, s.l2.a.replace, victim, n.bus.mem);
      SameViews(s, n, initial);
    }
  }

  lemma {:induction false} AllocateWaits(s: Sys, cy: Cycle, n: Sys, initial: Memory)
    requires Shape(s.l2) && Here(s, initial) && s.l2.c.state == Allocate && AtAllocate(s) && Allowed(s, cy)
    requires Follows(s, cy, n, InAllocate(Defaults(s.l2.c), s.l2.a.replace, cy.pins))
    requires !cy.pins.busRvalid
    ensures InState(n, initial)
  {
  }

  lemma {:induction false} AllocateFills(s: Sys, cy: Cycle, n: Sys, initial: Memory)
    requires Shape(s.l2) && Here(s, initial) && s.l2.c.state == Allocate && AtAllocate(s) && Allowed(s, cy)
    requires Follows(s, cy, n, InAllocate(Defaults(s.l2.c), s.l2.a.replace, cy.pins))
    requires cy.pins.busRvalid
    ensures InState(n, initial)
  {
    var c := s.l2.c;
    FillRow(s.l2.sets, IndexedRow(s.l2), s.bus.mem, c.axaddr.line, s.l2.a.replace);
    if c.isLoad {
      NewestLoad(s.l2.sets, initial, s.reqs, |s.resps|, c.axaddr.line);
    }
  }

  /** The line that arrives answers a load, and it fills the victim way with the hit vector at that way for a store. */
  lemma {:induction false} AllocateMoves(s: Sys, cy: Cycle, n: Sys, initial: Memory)
    requires Shape(s.l2) && Here(s, initial) && s.l2.c.state == Allocate && AtAllocate(s) && Allowed(s, cy)
    requires Follows(s, cy, n, InAllocate(Defaults(s.l2.c), s.l2.a.replace, cy.pins))
    ensures InState(n, initial)
  {
    if cy.pins.busRvalid { AllocateFills(s, cy, n, initial); } else { AllocateWaits(s, cy, n, initial); }
  }

  lemma {:induction false} FillContents(s: Sys, cy: Cycle, n: Sys, initial: Memory)
    requires Shape(s.l2) && Contents(s, initial) && s.l2.c.state == Allocate && AtAllocate(s) && Allowed(s, cy)
    requires Follows(s, cy, n, InAllocate(Defaults(s.l2.c), s.l2.a.replace, cy.pins))
    requires cy.pins.busRvalid
    ensures Contents(n, initial)
  {
    RamStays(s, cy, n, n.l2.c);
    FillVictim(s.l2.sets, s.l2.a.ram, s.bus.mem, s.l2.c.axaddr.line, s.l2.a.replace);
    SameViews(s, n, initial);
  }

  lemma {:induction false} AllocateContents(s: Sys, cy: Cycle, n: Sys, initial: Memory)
    requires Shape(s.l2) && Contents(s, initial) && s.l2.c.state == Allocate && AtAllocate(s) && Allowed(s, cy)
    requires Follows(s, cy, n, InAllocate(Defaults(s.l2.c), s.l2.a.replace, cy.pins))
    ensures Contents(n, initial)
  {
    if cy.pins.busRvalid {
      FillContents(s, cy, n, initial);
    } else {
      RamStays(s, cy, n, n.l2.c);
      Unchanged(s, n, initial);
    }
  }

  lemma {:induction false} WriteCacheMoves(s: Sys, cy: Cycle, n: Sys, initial: Memory)
    requires Shape(s.l2) && s.l2.c.state == WriteCache && AtWriteCache(s) && Allowed(s, cy)
    requires Follows(s, cy, n, StoreHit(Defaults(s.l2.c), s.l2.c.hit))
    ensures InState(n, initial)
  {
  }

  lemma {:induction false} WriteCacheContents(s: Sys, cy: Cycle, n: Sys, initial: Memory)
    requires Shape(s.l2) && Contents(s, initial) && s.l2.c.state == WriteCache && AtWriteCache(s) && Allowed(s, cy)
    requires Follows(s, cy, n, StoreHit(Defaults(s.l2.c), s.l2.c.hit))
    ensures Contents(n, initial)
  {
    var c := s.l2.c;
    StoreLands(s.l2.sets, n.l2.a.ram, s.bus.mem, c.axaddr.line, c.cpuWdata, c.cpuWstrb, initial, s.reqs);
    Landed(s, n, initial);
  }
}
