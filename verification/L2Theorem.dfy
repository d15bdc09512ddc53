/** The main results about the L2 cache: over every run it is a flat memory. */
module L2Theorem {
  import opened FlatMemory
  import opened L2Cache
  import opened L2System
  import opened L2Invariant

  lemma {:induction false} IdleMoves(s: Sys, cy: Cycle, initial: Memory)
    requires Shape(s.l2) && s.l2.c.state == Idle && AtIdle(s) && Allowed(s, cy)
    ensures InState(Next(s, cy), initial)
  {
    assert Next(s, cy).resps == s.resps;
  }

  /** Accepting a request: a store joins the overlay and the reference at the same moment. */
  lemma {:induction false} FlatAfterAccept(sets: nat, ram: seq<Row>, mem: Memory,
                                            initial: Memory, reqs: seq<Req>, q: Req)
    requires IsFlat(sets, ram, mem, Nothing, initial, reqs)
    ensures IsFlat(sets, ram, mem,
                   if q.Store? && !Peripheral(sets, q.addr.line) then Bytes(q.addr.line, q.data, q.strb) else Nothing,
                   initial, reqs + [q])
  {
    forall id: LineId {
      LineAfterSnoc(sets, initial, reqs, q, id);
    }
  }

  lemma {:induction false} IdleContents(s: Sys, cy: Cycle, initial: Memory)
    requires Shape(s.l2) && Contents(s, initial) && s.l2.c.state == Idle && AtIdle(s) && Allowed(s, cy)
    ensures Contents(Next(s, cy), initial)
  {
    var n := Next(s, cy);
    var more := AcceptedNow(s.l2.c, cy.pins);
    AnsweredAfterAccept(s.l2.sets, initial, s.reqs, s.resps, more);
    assert n.resps == s.resps;
    if more == [] {
      Unchanged(s, n, initial);
    } else {
      FlatAfterAccept(s.l2.sets, s.l2.a.ram, s.bus.mem, initial, s.reqs, more[0]);
    }
  }

  /** `n` is `s` after a cycle in RET. */
  ghost predicate Returned(s: Sys, cy: Cycle, n: Sys) {
    && Shape(s.l2) && Shape(n.l2) && PinsFit(s.l2, cy.pins)
    && n.l2 == Regs(s.l2.sets, NextArrays(s.l2.a, s.l2.c, s.l2.c.axaddr.line.index),
                    InRet(Defaults(s.l2.c), cy.pins))
    && n.bus == NextBus(s.l2.sets, s.bus, s.l2.c, cy)
    && n.reqs == s.reqs && n.resps == s.resps + DeliveredNow(s.l2.c.cpu, cy.pins)
  }

  lemma {:induction false} ReturnWaits(s: Sys, cy: Cycle, n: Sys, initial: Memory)
    requires Shape(s.l2) && Contents(s, initial) && s.l2.c.state == Ret && AtRet(s, initial) && Allowed(s, cy)
    requires Returned(s, cy, n) && DeliveredNow(s.l2.c.cpu, cy.pins) == []
    ensures Inv(n, initial)
  {
    assert n.resps == s.resps;
    assert Effective(n.l2) == Effective(s.l2);
    Unchanged(s, n, initial);
  }

  lemma {:induction false} ReturnDelivers(s: Sys, cy: Cycle, n: Sys, initial: Memory)
    requires Shape(s.l2) && Contents(s, initial) && s.l2.c.state == Ret && AtRet(s, initial) && Allowed(s, cy)
    requires Returned(s, cy, n) && DeliveredNow(s.l2.c.cpu, cy.pins) != []
    ensures Inv(n, initial)
  {
    var now := DeliveredNow(s.l2.c.cpu, cy.pins);
    assert n.resps == s.resps + [now[0]];
    AnsweredAfterDeliver(s.l2.sets, initial, s.reqs, s.resps, now[0]);
    assert Effective(n.l2) == Effective(s.l2);
  }

  /** The response log and the invariant move together. */
  lemma {:induction false} ReturnKeeps(s: Sys, cy: Cycle, initial: Memory)
    requires Shape(s.l2) && Contents(s, initial) && s.l2.c.state == Ret && AtRet(s, initial) && Allowed(s, cy)
    ensures Inv(Next(s, cy), initial)
  {
    var n := Next(s, cy);
    assert n.reqs == s.reqs;
    if DeliveredNow(s.l2.c.cpu, cy.pins) == [] {
      ReturnWaits(s, cy, n, initial);
    } else {
      ReturnDelivers(s, cy, n, initial);
    }
  }

  /** In every other state the requester sees nothing. */
  lemma {:induction false} OthersFollow(s: Sys, cy: Cycle)
    requires Shape(s.l2) && Allowed(s, cy) && s.l2.c.state != Idle && !s.l2.c.cpu.bvalid && !s.l2.c.cpu.rvalid
    ensures Follows(s, cy, Next(s, cy), NextControl(s.l2, cy.pins))
  {
    var n := Next(s, cy);
    assert n.reqs == s.reqs && n.resps == s.resps;
  }

  /** Up to the decision between hit and miss. */
  lemma {:induction false} LookupKeeps(s: Sys, cy: Cycle, n: Sys, initial: Memory)
    requires Inv(s, initial) && Allowed(s, cy)
    requires s.l2.c.state == Latency || s.l2.c.state == CheckLock
          || s.l2.c.state == CompareTag || s.l2.c.state == CheckValid
    requires Follows(s, cy, n, NextControl(s.l2, cy.pins))
    ensures Inv(n, initial)
  {
    ContentsHere(s, initial);
    match s.l2.c.state
    case CompareTag => CompareMoves(s, cy, n, initial); CompareContents(s, cy, n, initial);
    case CheckValid =>
      if Any(s.l2.c.hit) {
        HitMoves(s, cy, n, initial); HitContents(s, cy, n, initial);
      } else {
        MissMoves(s, cy, n, initial); MissContents(s, cy, n, initial);
      }
    case _ => WaitMoves(s, cy, n, initial); WaitContents(s, cy, n, initial);
  }

  lemma {:induction false} WriteBackKeeps(s: Sys, cy: Cycle, n: Sys, initial: Memory)
    requires Inv(s, initial) && Allowed(s, cy) && s.l2.c.state == WriteBack
    requires Follows(s, cy, n, NextControl(s.l2, cy.pins))
    ensures Inv(n, initial)
  {
    ContentsHere(s, initial);
    if cy.pins.busBvalid { WriteBackEnds(s, cy, n, initial); } else { WriteBackWaits(s, cy, n, initial); }
    WriteBackContents(s, cy, n, initial);
  }

  lemma {:induction false} AllocateKeeps(s: Sys, cy: Cycle, n: Sys, initial: Memory)
    requires Inv(s, initial) && Allowed(s, cy) && s.l2.c.state == Allocate
    requires Follows(s, cy, n, NextControl(s.l2, cy.pins))
    ensures Inv(n, initial)
  {
    ContentsHere(s, initial);
    AllocateMoves(s, cy, n, initial);
    AllocateContents(s, cy, n, initial);
  }

  lemma {:induction false} WriteCacheKeeps(s: Sys, cy: Cycle, n: Sys, initial: Memory)
    requires Inv(s, initial) && Allowed(s, cy) && s.l2.c.state == WriteCache
    requires Follows(s, cy, n, NextControl(s.l2, cy.pins))
    ensures Inv(n, initial)
  {
    WriteCacheMoves(s, cy, n, initial);
    WriteCacheContents(s, cy, n, initial);
  }

  lemma {:induction false} DeviceKeeps(s: Sys, cy: Cycle, n: Sys, initial: Memory)
    requires Inv(s, initial) && Allowed(s, cy) && (s.l2.c.state == PeriphWrite || s.l2.c.state == PeriphRead)
    requires Follows(s, cy, n, NextControl(s.l2, cy.pins))
    ensures Inv(n, initial)
  {
    ContentsHere(s, initial);
    if s.l2.c.state == PeriphWrite {
      DeviceWriteMoves(s, cy, n, initial); DeviceWriteContents(s, cy, n, initial);
    } else {
      DeviceReadMoves(s, cy, n, initial); DeviceReadContents(s, cy, n, initial);
    }
  }

  lemma {:induction false} BusyKeeps(s: Sys, cy: Cycle, n: Sys, initial: Memory)
    requires Inv(s, initial) && Allowed(s, cy) && s.l2.c.state != Idle && s.l2.c.state != Ret
    requires Follows(s, cy, n, NextControl(s.l2, cy.pins))
    ensures Inv(n, initial)
  {
    match s.l2.c.state
    case PeriphWrite => DeviceKeeps(s, cy, n, initial);
    case PeriphRead => DeviceKeeps(s, cy, n, initial);
    case WriteBack => WriteBackKeeps(s, cy, n, initial);
    case Allocate => AllocateKeeps(s, cy, n, initial);
    case WriteCache => WriteCacheKeeps(s, cy, n, initial);
    case _ => LookupKeeps(s, cy, n, initial);
  }

  lemma {:induction false} StepKeeps(s: Sys, cy: Cycle, initial: Memory)
    requires Inv(s, initial) && Allowed(s, cy)
    ensures Inv(Next(s, cy), initial)
  {
    if s.l2.c.state == Idle {
      IdleMoves(s, cy, initial); IdleContents(s, cy, initial);
    } else if s.l2.c.state == Ret {
      ReturnKeeps(s, cy, initial);
    } else {
      BusyKeeps(s, cy, Next(s, cy), initial) by { OthersFollow(s, cy); }
    }
  }

  lemma {:induction false} InitialIsGood(s: Sys)
    requires Initial(s)
    ensures Inv(s, s.bus.mem)
  {
    assert forall i | 0 <= i < s.l2.sets :: forall w | 0 <= w < 4 :: !s.l2.a.ram[i][w].valid;
  }

  lemma {:induction false} RunKeeps(tr: seq<Sys>, cycles: seq<Cycle>, k: nat)
    requires IsRun(tr, cycles) && k < |tr|
    ensures Inv(tr[k], tr[0].bus.mem) && tr[k].l2.sets == tr[0].l2.sets
  {
    if k == 0 {
      InitialIsGood(tr[0]);
    } else {
      RunKeeps(tr, cycles, k - 1);
      StepKeeps(tr[k - 1], cycles[k - 1], tr[0].bus.mem);
    }
  }

  /** However long the bus takes, whatever the requester asks for and whichever ways get evicted: the
      responses delivered so far answer the accepted requests one by one and in order, at most one is
      outstanding, and every cacheable load was given, byte for byte, what a flat memory would hold. */
  lemma {:induction false} CacheIsFlatMemory(tr: seq<Sys>, cycles: seq<Cycle>, k: nat)
    requires IsRun(tr, cycles) && k < |tr|
    ensures var s, sets := tr[k], tr[0].l2.sets;
            && |s.resps| <= |s.reqs| <= |s.resps| + 1
            && forall j | 0 <= j < |s.resps| ::
                 var q, r := s.reqs[j], s.resps[j];
                 && (q.Load? <==> r.Loaded?)
                 && (!Peripheral(sets, q.addr.line) ==>
                       && r.status == OKAY
                       && (q.Load? ==> forall b: nat | b < LINE_BYTES ::
                             r.data[b] == ByteAfter(sets, tr[0].bus.mem, s.reqs[..j], q.addr.line, b)))
  {
    var s, sets := tr[k], tr[0].l2.sets;
    RunKeeps(tr, cycles, k);
    forall j, b: nat | 0 <= j < |s.resps| && b < LINE_BYTES
      ensures LineAfter(sets, tr[0].bus.mem, s.reqs[..j], s.reqs[j].addr.line)[b]
           == ByteAfter(sets, tr[0].bus.mem, s.reqs[..j], s.reqs[j].addr.line, b)
    {
      LineAfterIsBytes(sets, tr[0].bus.mem, s.reqs[..j], s.reqs[j].addr.line, b);
    }
    assert forall j | 0 <= j < |s.resps| :: Answers(sets, tr[0].bus.mem, s.reqs[..j], s.reqs[j], s.resps[j]);
  }

  lemma {:induction false} RowIsOk(s: Sys, initial: Memory, i: nat)
    requires Inv(s, initial) && i < s.l2.sets
    ensures RowOk(s.l2.sets, i, Effective(s.l2)[i], s.bus.mem)
  {
  }

  ghost predicate TagsDiffer(s: Sys)
    requires Shape(s.l2)
  {
    forall i, v, w | 0 <= i < s.l2.sets && 0 <= v < w < 4 ::
      var row := Effective(s.l2)[i];
      row[v].valid && row[w].valid ==> row[v].tag != row[w].tag
  }

  ghost predicate CleanLinesAreMemory(s: Sys)
    requires Shape(s.l2)
  {
    forall i, w | 0 <= i < s.l2.sets && 0 <= w < 4 ::
      var way := Effective(s.l2)[i][w];
      way.valid && !way.dirty ==> way.data == At(s.bus.mem, LineId(way.tag, i))
  }

  ghost predicate OneHot(hit: Mask) { forall v, w | 0 <= v < w < 4 :: !(hit[v] && hit[w]) }

  lemma {:induction false} TagsDo(s: Sys, initial: Memory)
    requires Inv(s, initial)
    ensures TagsDiffer(s)
  {
    forall i, v, w | 0 <= i < s.l2.sets && 0 <= v < w < 4
      ensures var row := Effective(s.l2)[i]; row[v].valid && row[w].valid ==> row[v].tag != row[w].tag
    {
      RowIsOk(s, initial, i);
    }
  }

  lemma {:induction false} CleanLinesAre(s: Sys, initial: Memory)
    requires Inv(s, initial)
    ensures CleanLinesAreMemory(s)
  {
    forall i, w | 0 <= i < s.l2.sets && 0 <= w < 4
      ensures var way := Effective(s.l2)[i][w];
              way.valid && !way.dirty ==> way.data == At(s.bus.mem, LineId(way.tag, i))
    {
      RowIsOk(s, initial, i);
    }
  }

  lemma {:induction false} MatchIsOneHot(sets: nat, i: nat, row: Row, mem: Memory, tag: nat)
    requires RowOk(sets, i, row, mem)
    ensures OneHot(Match(row, tag))
  {
  }

  lemma {:induction false} HitIsOneHot(s: Sys, initial: Memory)
    requires Inv(s, initial)
    ensures OneHot(s.l2.c.hit)
  {
    var i := s.l2.c.axaddr.line.index;
    if s.l2.c.hit != NoWay {
      RowIsOk(s, initial, i);
      MatchIsOneHot(s.l2.sets, i, Effective(s.l2)[i], s.bus.mem, s.l2.c.axaddr.line.tag);
    }
  }

  /** The compared tags and the data used are the current RAM contents of the indexed set. */
  predicate ComparesCurrent(s: Sys)
    requires Shape(s.l2)
  {
    s.l2.c.state == CompareTag || s.l2.c.state == CheckValid ==>
      s.l2.a.out == s.l2.a.ram[s.l2.c.axaddr.line.index] == Effective(s.l2)[s.l2.c.axaddr.line.index]
  }

  lemma {:induction false} ComparesDo(s: Sys, initial: Memory)
    requires Inv(s, initial)
    ensures ComparesCurrent(s)
  {
  }

  /** Structure of every reachable state, a write pending in `we_q` included: no tag twice in a set, clean
      lines equal memory, the hit vector at most one-hot, nothing compared that is out of date. */
  lemma {:induction false} ReachableSets(tr: seq<Sys>, cycles: seq<Cycle>, k: nat)
    requires IsRun(tr, cycles) && k < |tr|
    ensures Shape(tr[k].l2) && TagsDiffer(tr[k]) && CleanLinesAreMemory(tr[k])
    ensures OneHot(tr[k].l2.c.hit) && ComparesCurrent(tr[k])
  {
    RunKeeps(tr, cycles, k);
    TagsDo(tr[k], tr[0].bus.mem);
    CleanLinesAre(tr[k], tr[0].bus.mem);
    HitIsOneHot(tr[k], tr[0].bus.mem);
    ComparesDo(tr[k], tr[0].bus.mem);
  }

  lemma {:induction false} ReplaceStays(a: Arrays, c: Control, i: nat)
    requires a.replace < 4 && i < |a.ram| == |a.plruRam| && c.we == NoWay && VictimStable(a, i)
    ensures NextArrays(a, c, i).replace == a.replace && NextArrays(a, c, i).ram == a.ram
  {
  }

  lemma {:induction false} VictimStays(s: Sys, cy: Cycle, initial: Memory)
    requires Inv(s, initial) && Allowed(s, cy)
    requires var c := s.l2.c;
             (c.state == CheckValid && !Any(c.hit)) || c.state == WriteBack || c.state == Allocate
    ensures Next(s, cy).l2.a.replace == s.l2.a.replace && Next(s, cy).l2.a.ram == s.l2.a.ram
  {
    ReplaceStays(s.l2.a, s.l2.c, s.l2.c.axaddr.line.index);
  }

  lemma {:induction false} MissGoesOn(s: Sys, cy: Cycle, initial: Memory)
    requires Inv(s, initial) && Allowed(s, cy)
    requires var c := s.l2.c; (c.state == CheckValid && !Any(c.hit)) || c.state == WriteBack
    ensures Next(s, cy).l2.c.state == WriteBack || Next(s, cy).l2.c.state == Allocate
  {
    if s.l2.c.state == WriteBack && cy.pins.busBvalid {
      ContentsHere(s, initial);
      WriteBackOnBus(s, cy);
    }
  }

  /** From the miss in CHECK_VALID to the end of ALLOCATE the victim register does not move, whatever the
      replacement tree holds. */
  lemma {:induction false} VictimDoesNotMove(tr: seq<Sys>, cycles: seq<Cycle>, k: nat)
    requires IsRun(tr, cycles) && k + 1 < |tr|
    requires var c := tr[k].l2.c;
             (c.state == CheckValid && !Any(c.hit)) || c.state == WriteBack || c.state == Allocate
    ensures tr[k + 1].l2.a.replace == tr[k].l2.a.replace
    ensures tr[k].l2.c.state != Allocate ==> tr[k + 1].l2.c.state == WriteBack || tr[k + 1].l2.c.state == Allocate
    ensures tr[k + 1].l2.a.ram == tr[k].l2.a.ram
  {
    RunKeeps(tr, cycles, k);
    VictimStays(tr[k], cycles[k], tr[0].bus.mem);
    if tr[k].l2.c.state != Allocate { MissGoesOn(tr[k], cycles[k], tr[0].bus.mem); }
  }
}
