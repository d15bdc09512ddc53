/** The FIFO loses, duplicates and reorders nothing, over every interleaving of its two clocks. */
module AsyncFifoProof {
  import opened GrayCode
  import opened Powers
  import opened AsyncFifo

  /** How many words each synchronizer flop believes were written (w1, w2) or read (r1, r2). */
  datatype Seen = Seen(w1: nat, w2: nat, r1: nat, r2: nat)

  /** The RAM holds the words from `r` on. */
  ghost predicate Holds<T>(ram: seq<T>, aw: nat, written: seq<T>, r: nat)
    requires |ram| == Pow2(aw)
  {
    forall k | r <= k < |written| :: ram[Place(k, aw)] == written[k]
  }

  lemma {:induction false} HoldsAfterWrite<T>(ram: seq<T>, aw: nat, written: seq<T>, r: nat, d: T)
    requires aw >= 2 && |ram| == Pow2(aw) && r <= |written| < r + Pow2(aw) && Holds(ram, aw, written, r)
    ensures Holds(ram[Place(|written|, aw) := d], aw, written + [d], r)
  {
    forall k | r <= k < |written|
      ensures Place(k, aw) != Place(|written|, aw)
    {
      Comparisons(k, |written|, aw);
    }
  }

  ghost predicate Inv<T>(s: Sys<T>, c: Seen) {
    var f, w, r := s.f, |s.written|, |s.read|;
    && Shape(f)
    && f.waddr == Ptr(w, f.aw + 1) && f.raddr == Ptr(r, f.aw + 1)
    && f.grayWaddr1 == Code(c.w1, f.aw) && f.grayWaddr2 == Code(c.w2, f.aw)
    && f.grayRaddr1 == Code(c.r1, f.aw) && f.grayRaddr2 == Code(c.r2, f.aw)
    && c.r2 <= c.r1 <= r <= c.w2 <= c.w1 <= w <= c.r2 + Pow2(f.aw)
    && s.read == s.written[..r]
    && Holds(f.ram, f.aw, s.written, r)
    && (f.rvalid ==> r < c.w2 && f.rdata == s.written[r])
  }

  /** What the hardware's tests mean in a good state. */
  lemma {:induction false} TestsAreExact<T>(s: Sys<T>, c: Seen)
    requires Inv(s, c)
    ensures Wready(s.f) <==> |s.written| < c.r2 + Pow2(s.f.aw)
    ensures NotEmpty(s.f) <==> |s.read| < c.w2
  {
    Comparisons(c.r2, |s.written|, s.f.aw);
    Comparisons(|s.read|, c.w2, s.f.aw);
  }

  lemma {:induction false} WriteSide<T>(s: Sys<T>, c: Seen, wvalid: bool, wdata: T, sample: seq<bool>)
    requires Inv(s, c) && |sample| == s.f.aw + 1
    ensures var f := WriteDomain(s.f, wvalid, wdata, sample);
            var written := if Writes(s.f, wvalid) then s.written + [wdata] else s.written;
            && Shape(f) && f.waddr == Ptr(|written|, f.aw + 1)
            && |written| <= c.r1 + Pow2(f.aw)
            && Holds(f.ram, f.aw, written, |s.read|)
  {
    TestsAreExact(s, c);
    WritePointer(s, wvalid, wdata, sample);
    if Writes(s.f, wvalid) {
      HoldsAfterWrite(s.f.ram, s.f.aw, s.written, |s.read|, wdata);
    }
  }

  lemma {:induction false} WritePointer<T>(s: Sys<T>, wvalid: bool, wdata: T, sample: seq<bool>)
    requires Shape(s.f) && s.f.waddr == Ptr(|s.written|, s.f.aw + 1) && |sample| == s.f.aw + 1
    ensures var f := WriteDomain(s.f, wvalid, wdata, sample);
            var written := if Writes(s.f, wvalid) then s.written + [wdata] else s.written;
            Shape(f) && f.waddr == Ptr(|written|, f.aw + 1)
  {
  }

  lemma {:induction false} ReadSide<T>(s: Sys<T>, c: Seen, rready: bool)
    requires Inv(s, c)
    ensures var read := if Reads(s.f, rready) then s.read + [s.f.rdata] else s.read;
            && NextRaddr(s.f, rready) == Ptr(|read|, s.f.aw + 1)
            && |s.read| <= |read| <= c.w1 <= |s.written|
            && read == s.written[..|read|]
            && Holds(s.f.ram, s.f.aw, s.written, |read|)
            && (!Reads(s.f, rready) && NotEmpty(s.f) ==>
                  |s.read| < c.w2 && s.f.ram[Slot(s.f.raddr, s.f.aw)] == s.written[|s.read|])
  {
    TestsAreExact(s, c);
    if |s.read| < |s.written| {
      assert s.f.ram[Place(|s.read|, s.f.aw)] == s.written[|s.read|];
    }
  }

  /** The pointer sample of a coinciding edge is a count between the old and the new one. */
  lemma {:induction false} SampleCount(k: nat, moved: bool, aw: nat, late: seq<bool>) returns (seen: nat)
    requires |late| == aw + 1
    ensures var k' := if moved then k + 1 else k;
            k <= seen <= k' && Mix(Code(k, aw), Code(k', aw), late) == Code(seen, aw)
  {
    if moved {
      SampleIsOldOrNew(Ptr(k, aw + 1), aw + 1, late);
      seen := if Mix(Code(k, aw), Code(k + 1, aw), late) == Code(k, aw) then k else k + 1;
    } else {
      MixOfEqual(Code(k, aw), late);
      seen := k;
    }
  }

  /** `n` is `s` after a write edge, field by field. */
  ghost predicate WriteMoved<T>(s: Sys<T>, e: Edge<T>, n: Sys<T>) {
    && Shape(s.f) && e.WriteEdge?
    && n.f == WriteDomain(s.f, e.wvalid, e.wdata, Gray(s.f.raddr, s.f.aw + 1))
    && n.written == (if Writes(s.f, e.wvalid) then s.written + [e.wdata] else s.written) && n.read == s.read
  }

  lemma {:induction false} WriteMovedKeeps<T>(s: Sys<T>, c: Seen, e: Edge<T>, n: Sys<T>)
    requires Inv(s, c) && WriteMoved(s, e, n)
    ensures Inv(n, Seen(c.w1, c.w2, |s.read|, c.r1))
  {
    WriteSide(s, c, e.wvalid, e.wdata, Gray(s.f.raddr, s.f.aw + 1));
  }

  lemma {:induction false} WriteEdgeKeeps<T>(s: Sys<T>, c: Seen, e: Edge<T>) returns (c': Seen)
    requires Inv(s, c) && e.WriteEdge?
    ensures Inv(Next(s, e), c') && c' == Seen(c.w1, c.w2, |s.read|, c.r1)
  {
    var n := Next(s, e);
    c' := Seen(c.w1, c.w2, |s.read|, c.r1);
    assert n.read == s.read;
    WriteMovedKeeps(s, c, e, n);
  }

  ghost predicate ReadMoved<T>(s: Sys<T>, e: Edge<T>, n: Sys<T>) {
    && Shape(s.f) && e.ReadEdge?
    && n.f == s.f.(raddr := NextRaddr(s.f, e.rready), rvalid := !Reads(s.f, e.rready) && NotEmpty(s.f),
                   rdata := s.f.ram[Slot(s.f.raddr, s.f.aw)],
                   grayWaddr1 := Gray(s.f.waddr, s.f.aw + 1), grayWaddr2 := s.f.grayWaddr1)
    && n.written == s.written && n.read == if Reads(s.f, e.rready) then s.read + [s.f.rdata] else s.read
  }

  lemma {:induction false} ReadMovedKeeps<T>(s: Sys<T>, c: Seen, e: Edge<T>, n: Sys<T>)
    requires Inv(s, c) && ReadMoved(s, e, n)
    ensures Inv(n, Seen(|s.written|, c.w1, c.r1, c.r2))
  {
    ReadSide(s, c, e.rready);
  }

  lemma {:induction false} ReadEdgeKeeps<T>(s: Sys<T>, c: Seen, e: Edge<T>) returns (c': Seen)
    requires Inv(s, c) && e.ReadEdge?
    ensures Inv(Next(s, e), c') && c' == Seen(|s.written|, c.w1, c.r1, c.r2)
  {
    c' := Seen(|s.written|, c.w1, c.r1, c.r2);
    assert Next(s, e).written == s.written;
    assert ReadMoved(s, e, Next(s, e));
    ReadMovedKeeps(s, c, e, Next(s, e));
  }

  /** A write that coincides with the fetch of a word about to be offered goes to another slot. */
  lemma {:induction false} FetchIsClean<T>(s: Sys<T>, c: Seen, wvalid: bool, torn: T)
    requires Inv(s, c) && |s.read| < c.w2
    ensures FetchDuringWrite(s.f, wvalid, torn) == s.written[|s.read|]
  {
    TestsAreExact(s, c);
    Comparisons(|s.read|, |s.written|, s.f.aw);
    assert s.f.ram[Place(|s.read|, s.f.aw)] == s.written[|s.read|];
  }

  /** `n` is `s` after both clocks rose, field by field. */
  ghost predicate BothMoved<T>(s: Sys<T>, e: Edge<T>, n: Sys<T>) {
    && Shape(s.f) && e.BothEdges? && EdgeFits(s.f, e) && n.f.aw == s.f.aw
    && n.f.ram == (if Writes(s.f, e.wvalid) then s.f.ram[Slot(s.f.waddr, s.f.aw) := e.wdata] else s.f.ram)
    && n.f.waddr == NextWaddr(s.f, e.wvalid) && n.f.raddr == NextRaddr(s.f, e.rready)
    && n.f.rvalid == (!Reads(s.f, e.rready) && NotEmpty(s.f))
    && n.f.rdata == FetchDuringWrite(s.f, e.wvalid, e.torn)
    && n.f.grayWaddr1 == Mix(Gray(s.f.waddr, s.f.aw + 1), Gray(NextWaddr(s.f, e.wvalid), s.f.aw + 1), e.lateW)
    && n.f.grayRaddr1 == Mix(Gray(s.f.raddr, s.f.aw + 1), Gray(NextRaddr(s.f, e.rready), s.f.aw + 1), e.lateR)
    && n.f.grayWaddr2 == s.f.grayWaddr1 && n.f.grayRaddr2 == s.f.grayRaddr1
    && n.written == (if Writes(s.f, e.wvalid) then s.written + [e.wdata] else s.written)
    && n.read == (if Reads(s.f, e.rready) then s.read + [s.f.rdata] else s.read)
  }

  lemma {:induction false} BothMove<T>(s: Sys<T>, e: Edge<T>)
    requires Shape(s.f) && EdgeFits(s.f, e) && e.BothEdges?
    ensures BothMoved(s, e, Next(s, e))
  {
    var n := Next(s, e);
    assert n.written == if Writes(s.f, e.wvalid) then s.written + [e.wdata] else s.written;
    assert n.read == if Reads(s.f, e.rready) then s.read + [s.f.rdata] else s.read;
  }

  lemma {:induction false} BothWrite<T>(s: Sys<T>, c: Seen, e: Edge<T>, n: Sys<T>)
    requires Inv(s, c) && BothMoved(s, e, n)
    ensures |n.f.ram| == Pow2(n.f.aw) && n.f.waddr == Ptr(|n.written|, n.f.aw + 1)
    ensures Holds(n.f.ram, n.f.aw, n.written, |s.read|) && |n.written| <= c.r1 + Pow2(n.f.aw)
  {
    WriteSide(s, c, e.wvalid, e.wdata, s.f.grayRaddr1);
  }

  lemma {:induction false} BothRead<T>(s: Sys<T>, c: Seen, e: Edge<T>, n: Sys<T>)
    requires Inv(s, c) && BothMoved(s, e, n)
    ensures n.f.raddr == Ptr(|n.read|, n.f.aw + 1)
    ensures |s.read| <= |n.read| <= c.w1 && n.read == n.written[..|n.read|]
  {
    ReadSide(s, c, e.rready);
  }

  lemma {:induction false} BothOffer<T>(s: Sys<T>, c: Seen, e: Edge<T>, n: Sys<T>)
    requires Inv(s, c) && BothMoved(s, e, n)
    ensures n.f.rvalid ==> |n.read| < c.w1 && n.f.rdata == n.written[|n.read|]
  {
    TestsAreExact(s, c);
    if |s.read| < c.w2 {
      FetchIsClean(s, c, e.wvalid, e.torn);
    }
  }

  /** What each synchronizer catches, in counts. */
  lemma {:induction false} BothSamples<T>(s: Sys<T>, e: Edge<T>, n: Sys<T>) returns (w1: nat, r1: nat)
    requires BothMoved(s, e, n)
    requires s.f.waddr == Ptr(|s.written|, s.f.aw + 1) && s.f.raddr == Ptr(|s.read|, s.f.aw + 1)
    ensures |s.written| <= w1 <= |n.written| && n.f.grayWaddr1 == Code(w1, s.f.aw)
    ensures |s.read| <= r1 <= |n.read| && n.f.grayRaddr1 == Code(r1, s.f.aw)
  {
    var k, j, m := |s.written|, |s.read|, s.f.aw + 1;
    assert Ptr(k + 1, m) == Succ(Ptr(k, m), m) && Ptr(j + 1, m) == Succ(Ptr(j, m), m);
    w1 := SampleCount(k, Writes(s.f, e.wvalid), s.f.aw, e.lateW);
    r1 := SampleCount(j, Reads(s.f, e.rready), s.f.aw, e.lateR);
  }

  lemma {:induction false} BothEdgesKeep<T>(s: Sys<T>, c: Seen, e: Edge<T>, n: Sys<T>) returns (c': Seen)
    requires Inv(s, c) && e.BothEdges? && EdgeFits(s.f, e) && n == Next(s, e)
    ensures Inv(n, c') && c'.w2 == c.w1 && c'.r2 == c.r1 && c'.w1 >= |s.written| && c'.r1 >= |s.read|
  {
    BothMove(s, e);
    BothWrite(s, c, e, n);
    BothRead(s, c, e, n);
    BothOffer(s, c, e, n);
    var w1, r1 := BothSamples(s, e, n);
    c' := Seen(w1, c.w1, r1, c.r1);
  }

  lemma {:induction false} StepKeeps<T>(s: Sys<T>, c: Seen, e: Edge<T>) returns (c': Seen)
    requires Inv(s, c) && EdgeFits(s.f, e)
    ensures Inv(Next(s, e), c')
    ensures c'.w2 >= c.w2 && (!e.WriteEdge? ==> c'.w2 == c.w1 && c'.w1 >= |s.written|)
    ensures c'.r2 >= c.r2 && (!e.ReadEdge? ==> c'.r2 == c.r1 && c'.r1 >= |s.read|)
    ensures c'.w1 >= c.w1 && c'.r1 >= c.r1
  {
    match e
    case WriteEdge(_, _) => c' := WriteEdgeKeeps(s, c, e);
    case ReadEdge(_) => c' := ReadEdgeKeeps(s, c, e);
    case BothEdges(_, _, _, _, _, _) => c' := BothEdgesKeep(s, c, e, Next(s, e));
  }

  lemma {:induction false} RunKeeps<T>(tr: seq<Sys<T>>, edges: seq<Edge<T>>, k: nat) returns (c: Seen)
    requires IsRun(tr, edges) && k < |tr|
    ensures Inv(tr[k], c)
  {
    if k == 0 {
      c := Seen(0, 0, 0, 0);
    } else {
      var b := RunKeeps(tr, edges, k - 1);
      c := StepKeeps(tr[k - 1], b, edges[k - 1]);
    }
  }

  /** Safety over every run: the reader has accepted a prefix of what the writer handed over, and at most
      2^ADDR_WIDTH words are in flight. */
  lemma {:induction false} FifoOrder<T>(tr: seq<Sys<T>>, edges: seq<Edge<T>>, k: nat)
    requires IsRun(tr, edges) && k < |tr|
    ensures tr[k].read <= tr[k].written
    ensures |tr[k].written| - |tr[k].read| <= Pow2(tr[k].f.aw)
    ensures tr[k].f.rvalid ==> |tr[k].read| < |tr[k].written| && tr[k].f.rdata == tr[k].written[|tr[k].read|]
  {
    var c := RunKeeps(tr, edges, k);
  }

  /** A word that is offered and not taken is still offered, unchanged, after any edge. */
  lemma {:induction false} OfferIsStable<T>(tr: seq<Sys<T>>, edges: seq<Edge<T>>, k: nat)
    requires IsRun(tr, edges) && k + 1 < |tr| && tr[k].f.rvalid
    requires Given(tr[k].f, edges[k]) == []
    ensures tr[k + 1].f.rvalid && tr[k + 1].f.rdata == tr[k].f.rdata
  {
    var c := RunKeeps(tr, edges, k);
    TestsAreExact(tr[k], c);
    var c' := StepKeeps(tr[k], c, edges[k]);
    assert tr[k + 1] == Next(tr[k], edges[k]);
    LogsGrow(tr[k], edges[k]);
  }

  /** The read-clock edges among edges[i..j]. */
  function ReadEdges<T>(edges: seq<Edge<T>>, i: nat, j: nat): nat
    requires i <= j <= |edges|
  {
    if i == j then 0 else ReadEdges(edges, i, j - 1) + if edges[j - 1].WriteEdge? then 0 else 1
  }

  /** How far the oldest word has come: into the first flop, the second one, the read port. */
  function Stage<T>(s: Sys<T>, c: Seen): nat {
    if s.f.rvalid then 3 else if c.w2 > |s.read| then 2 else if c.w1 > |s.read| then 1 else 0
  }

  lemma {:induction false} StageAdvances<T>(s: Sys<T>, c: Seen, e: Edge<T>) returns (c': Seen)
    requires Inv(s, c) && EdgeFits(s.f, e) && |s.read| < |s.written| && Given(s.f, e) == []
    ensures Inv(Next(s, e), c') && Next(s, e).read == s.read && |s.read| < |Next(s, e).written|
    ensures Stage(Next(s, e), c') >= Stage(s, c)
    ensures !e.WriteEdge? && Stage(s, c) < 3 ==> Stage(Next(s, e), c') >= Stage(s, c) + 1
  {
    c' := StepKeeps(s, c, e);
    LogsGrow(s, e);
    StageMoves(s, c, e, Next(s, e), c');
  }

  lemma {:induction false} StageMoves<T>(s: Sys<T>, c: Seen, e: Edge<T>, n: Sys<T>, c': Seen)
    requires Inv(s, c) && EdgeFits(s.f, e) && |s.read| < |s.written| && Given(s.f, e) == []
    requires n == Next(s, e) && n.read == s.read && c'.w2 >= c.w2 && c'.w1 >= c.w1
    requires !e.WriteEdge? ==> c'.w2 == c.w1 && c'.w1 >= |s.written|
    ensures Stage(n, c') >= Stage(s, c)
    ensures !e.WriteEdge? && Stage(s, c) < 3 ==> Stage(n, c') >= Stage(s, c) + 1
  {
    TestsAreExact(s, c);
  }

  lemma {:induction false} LogsGrow<T>(s: Sys<T>, e: Edge<T>)
    requires Shape(s.f) && EdgeFits(s.f, e) && Given(s.f, e) == []
    ensures Next(s, e).read == s.read && s.written <= Next(s, e).written
  {
  }

  ghost predicate NothingTaken<T>(tr: seq<Sys<T>>, edges: seq<Edge<T>>, i: nat, j: nat)
    requires IsRun(tr, edges) && i <= j < |tr|
  {
    forall k | i <= k < j :: Given(tr[k].f, edges[k]) == []
  }

  lemma {:induction false} StageAfter<T>(tr: seq<Sys<T>>, edges: seq<Edge<T>>, i: nat, j: nat) returns (c: Seen)
    requires IsRun(tr, edges) && i <= j < |tr| && |tr[i].read| < |tr[i].written| && NothingTaken(tr, edges, i, j)
    ensures Inv(tr[j], c) && tr[j].read == tr[i].read && |tr[j].read| < |tr[j].written|
    ensures Stage(tr[j], c) >= 3 || Stage(tr[j], c) >= ReadEdges(edges, i, j)
  {
    if i == j {
      c := RunKeeps(tr, edges, i);
    } else {
      assert NothingTaken(tr, edges, i, j - 1);
      var b := StageAfter(tr, edges, i, j - 1);
      c := StageAdvances(tr[j - 1], b, edges[j - 1]);
    }
  }

  /** Progress: a FIFO that holds a word offers it after three read-clock edges, whatever the write side does
      meanwhile. */
  lemma {:induction false} OffersAfterThreeReadEdges<T>(tr: seq<Sys<T>>, edges: seq<Edge<T>>, i: nat, j: nat)
    requires IsRun(tr, edges) && i <= j < |tr| && |tr[i].read| < |tr[i].written|
    requires NothingTaken(tr, edges, i, j) && ReadEdges(edges, i, j) >= 3
    ensures tr[j].f.rvalid && tr[j].f.rdata == tr[i].written[|tr[i].read|]
  {
    var c := StageAfter(tr, edges, i, j);
    WrittenGrows(tr, edges, i, j);
  }

  /** The write-clock edges among edges[i..j]. */
  function WriteEdges<T>(edges: seq<Edge<T>>, i: nat, j: nat): nat
    requires i <= j <= |edges|
  {
    if i == j then 0 else WriteEdges(edges, i, j - 1) + if edges[j - 1].ReadEdge? then 0 else 1
  }

  /** How far the news of free space has come through the writer's synchronizer. */
  function Room<T>(s: Sys<T>, c: Seen): nat {
    if |s.written| < c.r2 + Pow2(s.f.aw) then 2 else if |s.written| < c.r1 + Pow2(s.f.aw) then 1 else 0
  }

  ghost predicate NothingWritten<T>(tr: seq<Sys<T>>, edges: seq<Edge<T>>, i: nat, j: nat)
    requires IsRun(tr, edges) && i <= j < |tr|
  {
    forall k | i <= k < j :: Taken(tr[k].f, edges[k]) == []
  }

  lemma {:induction false} RoomAdvances<T>(s: Sys<T>, c: Seen, e: Edge<T>) returns (c': Seen)
    requires Inv(s, c) && EdgeFits(s.f, e) && |s.written| < |s.read| + Pow2(s.f.aw) && Taken(s.f, e) == []
    ensures Inv(Next(s, e), c') && |Next(s, e).written| < |Next(s, e).read| + Pow2(s.f.aw)
    ensures Room(Next(s, e), c') >= Room(s, c)
    ensures !e.ReadEdge? && Room(s, c) < 2 ==> Room(Next(s, e), c') >= Room(s, c) + 1
  {
    c' := StepKeeps(s, c, e);
    assert Next(s, e).written == s.written;
  }

  lemma {:induction false} RoomAfter<T>(tr: seq<Sys<T>>, edges: seq<Edge<T>>, i: nat, j: nat) returns (c: Seen)
    requires IsRun(tr, edges) && i <= j < |tr| && |tr[i].written| < |tr[i].read| + Pow2(tr[i].f.aw)
    requires NothingWritten(tr, edges, i, j)
    ensures Inv(tr[j], c) && |tr[j].written| < |tr[j].read| + Pow2(tr[j].f.aw)
    ensures Room(tr[j], c) >= 2 || Room(tr[j], c) >= WriteEdges(edges, i, j)
  {
    if i == j {
      c := RunKeeps(tr, edges, i);
    } else {
      assert NothingWritten(tr, edges, i, j - 1);
      var b := RoomAfter(tr, edges, i, j - 1);
      c := RoomAdvances(tr[j - 1], b, edges[j - 1]);
    }
  }

  /** The other direction: a FIFO with a free slot accepts after two write-clock edges. */
  lemma {:induction false} AcceptsAfterTwoWriteEdges<T>(tr: seq<Sys<T>>, edges: seq<Edge<T>>, i: nat, j: nat)
    requires IsRun(tr, edges) && i <= j < |tr| && |tr[i].written| < |tr[i].read| + Pow2(tr[i].f.aw)
    requires NothingWritten(tr, edges, i, j) && WriteEdges(edges, i, j) >= 2
    ensures Shape(tr[j].f) && Wready(tr[j].f)
  {
    var c := RoomAfter(tr, edges, i, j);
    TestsAreExact(tr[j], c);
  }

  lemma {:induction false} WrittenGrows<T>(tr: seq<Sys<T>>, edges: seq<Edge<T>>, i: nat, j: nat)
    requires IsRun(tr, edges) && i <= j < |tr|
    ensures tr[i].written <= tr[j].written
  {
    if i < j {
      WrittenGrows(tr, edges, i, j - 1);
      assert tr[j] == Next(tr[j - 1], edges[j - 1]);
    }
  }
}
