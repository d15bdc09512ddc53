/** The cache answers: every request it accepts reaches RET within a number of cycles that only depends on how
    long the bus may keep it waiting. */
module L2Progress {
  import opened FlatMemory
  import opened L2Cache
  import opened L2System
  import opened L2Invariant
  import T = L2Theorem

  /** A request is in hand and its answer is not out yet. */
  predicate Busy(s: Sys) { s.l2.c.state != Idle && s.l2.c.state != Ret }

  predicate Writing(s: Sys) { s.l2.c.state == WriteBack || s.l2.c.state == PeriphWrite }

  predicate Reads(s: Sys) { s.l2.c.state == Allocate || s.l2.c.state == PeriphRead }

  predicate OnBus(s: Sys) { Writing(s) || Reads(s) }

  /** The bus does what the cache waits for: it accepts the transaction, commits the write it holds, or responds. */
  predicate BusMoves(s: Sys, cy: Cycle) {
    if Writing(s) then
      if s.l2.c.bus.wvalid then cy.pins.busWready
      else if s.bus.w.Accepted? then cy.commit
      else cy.pins.busBvalid
    else
      if s.l2.c.bus.arvalid then cy.pins.busArready else cy.pins.busRvalid
  }

  ghost predicate OnBusFrom(tr: seq<Sys>, k: nat, d: nat)
    requires k + d <= |tr|
  {
    forall j | k <= j < k + d :: OnBus(tr[j])
  }

  ghost predicate BusMovesFrom(tr: seq<Sys>, cycles: seq<Cycle>, k: nat, d: nat)
    requires k + d <= |cycles| < |tr|
  {
    exists j :: k <= j < k + d && BusMoves(tr[j], cycles[j])
  }

  /** A bus that moves at least once in any `d` cycles in a row in which the cache is on the bus. */
  ghost predicate Prompt(tr: seq<Sys>, cycles: seq<Cycle>, d: nat)
    requires |tr| == |cycles| + 1
  {
    forall k: nat | k + d <= |cycles| && OnBusFrom(tr, k, d) :: BusMovesFrom(tr, cycles, k, d)
  }

  // ---- What is left to do ----

  /** The moves of the bus that the request may still need. */
  function BusSteps(s: Sys): (n: nat)
    ensures n <= 5
  {
    var write := if s.l2.c.bus.wvalid then 3 else if s.bus.w.Accepted? then 2 else 1;
    var read := if s.l2.c.bus.arvalid then 2 else 1;
    match s.l2.c.state
    case WriteBack => write + 2
    case Allocate => read
    case PeriphWrite => write
    case PeriphRead => read
    case WriteCache => 0
    case _ => 5
  }

  /** The cycles it may still need beside them. */
  function OwnSteps(s: Sys): (n: nat)
    ensures n <= 4
  {
    match s.l2.c.state
    case CheckLock => 4
    case Latency => 4
    case CompareTag => 3
    case CheckValid => 2
    case WriteBack => 1
    case Allocate => 1
    case WriteCache => 1
    case _ => 0
  }

  /** n * d, for the few n there are. */
  function Times(n: nat, d: nat): nat
    requires n <= 5
  {
    match n
    case 0 => 0
    case 1 => d
    case 2 => 2 * d
    case 3 => 3 * d
    case 4 => 4 * d
    case _ => 5 * d
  }

  /** The cycles until RET at the latest, when the bus has already kept the cache waiting for `waited`. */
  function Rank(s: Sys, waited: nat, d: nat): int {
    Times(BusSteps(s), d) + OwnSteps(s) - if OnBus(s) then waited else 0
  }

  lemma {:induction false} RankBounds(s: Sys, waited: nat, d: nat)
    requires Busy(s) && waited < d
    ensures 0 < Rank(s, waited, d) <= 5 * d + 4
  {
  }

  /** The wait after this cycle. */
  function StillWaiting(s: Sys, cy: Cycle, waited: nat): nat {
    if OnBus(s) && !BusMoves(s, cy) then waited + 1 else 0
  }

  predicate Stepped(s: Sys, cy: Cycle, n: Sys) {
    && Shape(s.l2) && n.l2.c == NextControl(s.l2, cy.pins) && n.bus == NextBus(s.l2.sets, s.bus, s.l2.c, cy)
  }

  lemma {:induction false} WritingDrops(s: Sys, cy: Cycle, n: Sys, waited: nat, d: nat)
    requires Stepped(s, cy, n) && Writing(s) && waited < d
    ensures n.l2.c.state == Ret || (Busy(n) && Rank(n, StillWaiting(s, cy, waited), d) < Rank(s, waited, d))
  {
  }

  lemma {:induction false} ReadingDrops(s: Sys, cy: Cycle, n: Sys, waited: nat, d: nat)
    requires Stepped(s, cy, n) && Reads(s) && waited < d
    ensures n.l2.c.state == Ret || (Busy(n) && Rank(n, StillWaiting(s, cy, waited), d) < Rank(s, waited, d))
  {
  }

  lemma {:induction false} LookupDrops(s: Sys, cy: Cycle, n: Sys, waited: nat, d: nat)
    requires Stepped(s, cy, n) && Busy(s) && !OnBus(s) && waited < d
    ensures n.l2.c.state == Ret || (Busy(n) && Rank(n, StillWaiting(s, cy, waited), d) < Rank(s, waited, d))
  {
  }

  /** Every cycle brings the request in hand nearer to RET. */
  lemma {:induction false} RankDrops(s: Sys, cy: Cycle, n: Sys, waited: nat, d: nat)
    requires Stepped(s, cy, n) && Busy(s) && waited < d
    ensures n.l2.c.state == Ret || (Busy(n) && Rank(n, StillWaiting(s, cy, waited), d) < Rank(s, waited, d))
  {
    if Writing(s) {
      WritingDrops(s, cy, n, waited, d);
    } else if Reads(s) {
      ReadingDrops(s, cy, n, waited, d);
    } else {
      LookupDrops(s, cy, n, waited, d);
    }
  }

  // ---- Along a run ----

  /** For how many cycles in a row, up to cycle `k`, the cache has waited for the bus in vain. */
  function Waited(tr: seq<Sys>, cycles: seq<Cycle>, k: nat): (w: nat)
    requires |tr| == |cycles| + 1 && k <= |cycles|
    ensures w <= k
  {
    if k == 0 then 0 else StillWaiting(tr[k - 1], cycles[k - 1], Waited(tr, cycles, k - 1))
  }

  lemma {:induction false} WaitedInVain(tr: seq<Sys>, cycles: seq<Cycle>, k: nat)
    requires |tr| == |cycles| + 1 && k <= |cycles|
    ensures forall j | k - Waited(tr, cycles, k) <= j < k :: OnBus(tr[j]) && !BusMoves(tr[j], cycles[j])
  {
    if k > 0 { WaitedInVain(tr, cycles, k - 1); }
  }

  lemma {:induction false} NeverLong(tr: seq<Sys>, cycles: seq<Cycle>, d: nat, k: nat)
    requires |tr| == |cycles| + 1 && k <= |cycles| && d > 0 && Prompt(tr, cycles, d)
    ensures Waited(tr, cycles, k) < d
  {
    WaitedInVain(tr, cycles, k);
    if Waited(tr, cycles, k) >= d {
      assert OnBusFrom(tr, k - d, d);
    }
  }

  lemma {:induction false} OneCycle(tr: seq<Sys>, cycles: seq<Cycle>, k: nat)
    requires IsRun(tr, cycles) && k < |cycles| && Busy(tr[k])
    ensures Stepped(tr[k], cycles[k], tr[k + 1])
    ensures tr[k + 1].reqs == tr[k].reqs && tr[k + 1].resps == tr[k].resps
  {
    T.RunKeeps(tr, cycles, k);
    InHand(tr[k], tr[0].bus.mem);
    T.OthersFollow(tr[k], cycles[k]);
  }

  /** Until RET the requester is shown no response. */
  lemma {:induction false} InHand(s: Sys, initial: Memory)
    requires Inv(s, initial) && Busy(s)
    ensures !s.l2.c.cpu.bvalid && !s.l2.c.cpu.rvalid && |s.reqs| == |s.resps| + 1
  {
  }

  function RankAt(tr: seq<Sys>, cycles: seq<Cycle>, d: nat, k: nat): int
    requires |tr| == |cycles| + 1 && k <= |cycles|
  {
    Rank(tr[k], Waited(tr, cycles, k), d)
  }

  lemma {:induction false} RankAtBounds(tr: seq<Sys>, cycles: seq<Cycle>, d: nat, k: nat)
    requires |tr| == |cycles| + 1 && k <= |cycles| && d > 0 && Prompt(tr, cycles, d) && Busy(tr[k])
    ensures 0 < RankAt(tr, cycles, d, k) <= 5 * d + 4
  {
    NeverLong(tr, cycles, d, k);
    RankBounds(tr[k], Waited(tr, cycles, k), d);
  }

  lemma {:induction false} RankAtDrops(tr: seq<Sys>, cycles: seq<Cycle>, d: nat, k: nat)
    requires IsRun(tr, cycles) && k < |cycles| && d > 0 && Prompt(tr, cycles, d) && Busy(tr[k])
    ensures tr[k + 1].l2.c.state == Ret
         || (Busy(tr[k + 1]) && RankAt(tr, cycles, d, k + 1) < RankAt(tr, cycles, d, k))
  {
    NeverLong(tr, cycles, d, k);
    OneCycle(tr, cycles, k);
    RankDrops(tr[k], cycles[k], tr[k + 1], Waited(tr, cycles, k), d);
  }

  lemma {:induction false} ReachesReturn(tr: seq<Sys>, cycles: seq<Cycle>, d: nat, k: nat) returns (n: nat)
    requires IsRun(tr, cycles) && d > 0 && Prompt(tr, cycles, d) && k <= |cycles| && Busy(tr[k])
    requires k + RankAt(tr, cycles, d, k) <= |cycles|
    ensures k < n <= k + RankAt(tr, cycles, d, k)
    ensures tr[n].l2.c.state == Ret && tr[n].reqs == tr[k].reqs && tr[n].resps == tr[k].resps
    decreases |cycles| - k
  {
    RankAtBounds(tr, cycles, d, k);
    RankAtDrops(tr, cycles, d, k);
    OneCycle(tr, cycles, k);
    n := k + 1;
    if tr[n].l2.c.state != Ret { n := ReachesReturn(tr, cycles, d, n); }
  }

  lemma {:induction false} Offered(s: Sys, initial: Memory)
    requires Inv(s, initial) && s.l2.c.state == Ret
    ensures |s.reqs| == |s.resps| + 1
    ensures if s.reqs[|s.resps|].Store? then s.l2.c.cpu.bvalid else s.l2.c.cpu.rvalid
  {
  }

  /** From every reachable state with a request in hand, on a bus that moves at least once in `d` cycles: within
      5 * d + 4 cycles the cache offers the response to that request. */
  lemma {:induction false} ResponseIsOffered(tr: seq<Sys>, cycles: seq<Cycle>, d: nat, k: nat) returns (n: nat)
    requires IsRun(tr, cycles) && d > 0 && Prompt(tr, cycles, d)
    requires k + 5 * d + 4 <= |cycles| && Busy(tr[k])
    ensures k < n <= k + 5 * d + 4 && tr[n].l2.c.state == Ret
    ensures tr[n].reqs == tr[k].reqs && tr[n].resps == tr[k].resps && |tr[n].reqs| == |tr[n].resps| + 1
    ensures var r := tr[n]; if r.reqs[|r.resps|].Store? then r.l2.c.cpu.bvalid else r.l2.c.cpu.rvalid
  {
    RankAtBounds(tr, cycles, d, k);
    n := ReachesReturn(tr, cycles, d, k);
    T.RunKeeps(tr, cycles, n);
    Offered(tr[n], tr[0].bus.mem);
  }

  lemma {:induction false} AnswerIsTaken(s: Sys, cy: Cycle, initial: Memory)
    requires Inv(s, initial) && Allowed(s, cy) && s.l2.c.state == Ret && cy.pins.bready && cy.pins.rready
    ensures |Next(s, cy).resps| == |s.resps| + 1 && Next(s, cy).l2.c.state == Idle
  {
  }

  /** So a requester that is always ready has its response, and the cache is idle again, one cycle later. */
  lemma {:induction false} RequestIsAnswered(tr: seq<Sys>, cycles: seq<Cycle>, d: nat, k: nat) returns (n: nat)
    requires IsRun(tr, cycles) && d > 0 && Prompt(tr, cycles, d)
    requires k + 5 * d + 5 <= |cycles| && Busy(tr[k])
    requires forall j | 0 <= j < |cycles| :: cycles[j].pins.bready && cycles[j].pins.rready
    ensures k < n <= k + 5 * d + 5 && tr[n].l2.c.state == Idle && |tr[n].resps| == |tr[k].resps| + 1 == |tr[k].reqs|
  {
    var m := ResponseIsOffered(tr, cycles, d, k);
    T.RunKeeps(tr, cycles, m);
    AnswerIsTaken(tr[m], cycles[m], tr[0].bus.mem);
    n := m + 1;
  }
}
