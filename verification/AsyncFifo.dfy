/** The dual-clock FIFO: Gray-coded pointers cross the clock domains through two-flop synchronizers, and
    the read port is registered.

    The two clocks are free: a run is any interleaving of write edges, read edges and edges that coincide.
    When they coincide, every bit of a pointer crossing over may be caught before or after it changes. */
module AsyncFifo {
  import opened GrayCode
  import opened Powers

  /** All registers; `aw` is ADDR_WIDTH.  Pointers have aw + 1 bits. */
  datatype Fifo<T> = Fifo(
    aw: nat, ram: seq<T>,
    waddr: nat, grayRaddr1: seq<bool>, grayRaddr2: seq<bool>,
    raddr: nat, grayWaddr1: seq<bool>, grayWaddr2: seq<bool>,
    rvalid: bool, rdata: T)

  ghost predicate Shape<T>(s: Fifo<T>) {
    && s.aw >= 2 && |s.ram| == Pow2(s.aw)
    && s.waddr < Pow2(s.aw + 1) && s.raddr < Pow2(s.aw + 1)
    && |s.grayRaddr1| == |s.grayRaddr2| == |s.grayWaddr1| == |s.grayWaddr2| == s.aw + 1
  }

  /** The RAM address: the pointer without its top bit. */
  function Slot(p: nat, aw: nat): nat {
    if p < Pow2(aw) then p else p - Pow2(aw)
  }

  predicate Wready<T>(s: Fifo<T>)
    requires |s.grayRaddr2| == s.aw + 1 >= 2
  {
    Gray(s.waddr, s.aw + 1) != FlipTopTwo(s.grayRaddr2)
  }

  predicate NotEmpty<T>(s: Fifo<T>) {
    Gray(s.raddr, s.aw + 1) != s.grayWaddr2
  }

  predicate Writes<T>(s: Fifo<T>, wvalid: bool)
    requires |s.grayRaddr2| == s.aw + 1 >= 2
  {
    wvalid && Wready(s)
  }

  predicate Reads<T>(s: Fifo<T>, rready: bool) { s.rvalid && rready }

  function NextWaddr<T>(s: Fifo<T>, wvalid: bool): nat
    requires |s.grayRaddr2| == s.aw + 1 >= 2
  {
    if Writes(s, wvalid) then Succ(s.waddr, s.aw + 1) else s.waddr
  }

  function NextRaddr<T>(s: Fifo<T>, rready: bool): nat {
    if Reads(s, rready) then Succ(s.raddr, s.aw + 1) else s.raddr
  }

  /** A write-clock edge that catches `sample` of the read pointer's Gray code. */
  function WriteDomain<T>(s: Fifo<T>, wvalid: bool, wdata: T, sample: seq<bool>): Fifo<T>
    requires Shape(s)
  {
    s.(ram := if Writes(s, wvalid) then s.ram[Slot(s.waddr, s.aw) := wdata] else s.ram,
       waddr := NextWaddr(s, wvalid), grayRaddr1 := sample, grayRaddr2 := s.grayRaddr1)
  }

  /** A read-clock edge that catches `sample` of the write pointer's Gray code and `word` from the RAM. */
  function ReadDomain<T>(s: Fifo<T>, rready: bool, sample: seq<bool>, word: T): Fifo<T> {
    s.(rdata := word, raddr := NextRaddr(s, rready),
       rvalid := if Reads(s, rready) then false else NotEmpty(s),
       grayWaddr1 := sample, grayWaddr2 := s.grayWaddr1)
  }

  /** One instant at which at least one clock rises. */
  datatype Edge<T> =
    | WriteEdge(wvalid: bool, wdata: T)
    | ReadEdge(rready: bool)
    | BothEdges(wvalid: bool, wdata: T, rready: bool, lateW: seq<bool>, lateR: seq<bool>, torn: T)

  /** The word the read port fetches while the write port writes `slot`: anything, if they collide. */
  function FetchDuringWrite<T>(s: Fifo<T>, wvalid: bool, torn: T): T
    requires Shape(s)
  {
    if Writes(s, wvalid) && Slot(s.waddr, s.aw) == Slot(s.raddr, s.aw) then torn
    else s.ram[Slot(s.raddr, s.aw)]
  }

  ghost predicate EdgeFits<T>(s: Fifo<T>, e: Edge<T>) {
    e.BothEdges? ==> |e.lateW| == |e.lateR| == s.aw + 1
  }

  function Step<T>(s: Fifo<T>, e: Edge<T>): Fifo<T>
    requires Shape(s) && EdgeFits(s, e)
  {
    var n := s.aw + 1;
    match e
    case WriteEdge(v, d) => WriteDomain(s, v, d, Gray(s.raddr, n))
    case ReadEdge(r) => ReadDomain(s, r, Gray(s.waddr, n), s.ram[Slot(s.raddr, s.aw)])
    case BothEdges(v, d, r, lateW, lateR, torn) =>
      WriteDomain(
        ReadDomain(s, r, Mix(Gray(s.waddr, n), Gray(NextWaddr(s, v), n), lateW), FetchDuringWrite(s, v, torn)),
        v, d, Mix(Gray(s.raddr, n), Gray(NextRaddr(s, r), n), lateR))
  }

  /** The word taken from the writer at this instant, if any, and the word handed to the reader, if any. */
  function Taken<T>(s: Fifo<T>, e: Edge<T>): seq<T>
    requires Shape(s)
  {
    if !e.ReadEdge? && e.wvalid && Wready(s) then [e.wdata] else []
  }

  function Given<T>(s: Fifo<T>, e: Edge<T>): seq<T> {
    if !e.WriteEdge? && s.rvalid && e.rready then [s.rdata] else []
  }

  /** The FIFO with the words accepted from the writer and by the reader so far. */
  datatype Sys<T> = Sys(f: Fifo<T>, written: seq<T>, read: seq<T>)

  function Next<T>(s: Sys<T>, e: Edge<T>): Sys<T>
    requires Shape(s.f) && EdgeFits(s.f, e)
  {
    Sys(Step(s.f, e), s.written + Taken(s.f, e), s.read + Given(s.f, e))
  }

  ghost predicate Initial<T>(s: Sys<T>) {
    var zero := Gray(0, s.f.aw + 1);
    && Shape(s.f) && s.f.waddr == 0 && s.f.raddr == 0 && !s.f.rvalid && s.written == [] && s.read == []
    && s.f.grayRaddr1 == s.f.grayRaddr2 == s.f.grayWaddr1 == s.f.grayWaddr2 == zero
  }

  ghost predicate IsRun<T>(tr: seq<Sys<T>>, edges: seq<Edge<T>>) {
    && |tr| == |edges| + 1 && Initial(tr[0])
    && forall k | 0 <= k < |edges| ::
         Shape(tr[k].f) && EdgeFits(tr[k].f, edges[k]) && tr[k + 1] == Next(tr[k], edges[k])
  }

  // ---- Pointers and counts ----

  /** The pointer after `k` increments from zero. */
  function Ptr(k: nat, n: nat): (p: nat)
    ensures p < Pow2(n)
  {
    if k == 0 then 0 else Succ(Ptr(k - 1, n), n)
  }

  lemma {:induction false} PtrAhead(k: nat, d: nat, n: nat)
    requires d <= Pow2(n)
    ensures Ptr(k + d, n) == if Ptr(k, n) + d < Pow2(n) then Ptr(k, n) + d else Ptr(k, n) + d - Pow2(n)
  {
    if d > 0 {
      PtrAhead(k, d - 1, n);
    }
  }

  /** The RAM slot of word `k` of the stream. */
  function Place(k: nat, aw: nat): (i: nat)
    ensures i < Pow2(aw)
  {
    assert Pow2(aw + 1) == 2 * Pow2(aw);
    Slot(Ptr(k, aw + 1), aw)
  }

  /** The code of a pointer that counted to `k`. */
  function Code(k: nat, aw: nat): (g: seq<bool>)
    ensures |g| == aw + 1
  {
    Gray(Ptr(k, aw + 1), aw + 1)
  }

  /** Pointers `d` increments apart, for at most a full FIFO. */
  lemma {:induction false} PointersApart(p: nat, q: nat, d: nat, aw: nat)
    requires d <= Pow2(aw) && Pow2(aw + 1) == 2 * Pow2(aw) && p < Pow2(aw + 1) && q < Pow2(aw + 1)
    requires q == if p + d < Pow2(aw + 1) then p + d else p + d - Pow2(aw + 1)
    ensures p == q <==> d == 0
    ensures q == HalfTurn(p, aw + 1) <==> d == Pow2(aw)
    ensures Slot(p, aw) == Slot(q, aw) <==> d == 0 || d == Pow2(aw)
  {
  }

  /** What the hardware's comparisons decide about two counts at most a full FIFO apart. */
  lemma {:induction false} Comparisons(r: nat, w: nat, aw: nat)
    requires aw >= 2 && r <= w <= r + Pow2(aw)
    ensures Code(r, aw) == Code(w, aw) <==> r == w
    ensures Code(w, aw) == FlipTopTwo(Code(r, aw)) <==> w == r + Pow2(aw)
    ensures Place(r, aw) == Place(w, aw) <==> r == w || w == r + Pow2(aw)
  {
    var n := aw + 1;
    assert Pow2(n) == 2 * Pow2(aw);
    PtrAhead(r, w - r, n);
    PointersApart(Ptr(r, n), Ptr(w, n), w - r, aw);
    GrayInjective(Ptr(r, n), Ptr(w, n), n);
    FullPattern(Ptr(w, n), Ptr(r, n), n);
  }
}
