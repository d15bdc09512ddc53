/** The FIFO as the module it is: one RAM, registers in two clock domains, each updated on its own edge. */
module AsyncFifoModule {
  import opened GrayCode
  import opened Powers
  import opened AsyncFifo

  class DualClockFifo<T(0)> {
    const aw: nat
    const ram: array<T>
    // write-clock domain
    var waddr: nat
    var grayRaddr1: seq<bool>
    var grayRaddr2: seq<bool>
    // read-clock domain
    var raddr: nat
    var grayWaddr1: seq<bool>
    var grayWaddr2: seq<bool>
    var rvalid: bool
    var rdata: T

    ghost function Value(): Fifo<T>
      reads this, ram
    {
      Fifo(aw, ram[..], waddr, grayRaddr1, grayRaddr2, raddr, grayWaddr1, grayWaddr2, rvalid, rdata)
    }

    ghost predicate Valid()
      reads this, ram
    {
      Shape(Value())
    }

    constructor (aw: nat, fill: T)
      requires aw >= 2
      ensures Valid() && fresh(ram) && this.aw == aw && Initial(Sys(Value(), [], []))
    {
      this.aw := aw;
      ram := new T[Pow2(aw)];
      waddr, raddr, rvalid, rdata := 0, 0, false, fill;
      grayRaddr1, grayRaddr2 := Gray(0, aw + 1), Gray(0, aw + 1);
      grayWaddr1, grayWaddr2 := Gray(0, aw + 1), Gray(0, aw + 1);
    }

    /** A rising write clock: store an accepted word, move the pointer, shift the synchronizer. */
    method WriteClock(wvalid: bool, wdata: T, sample: seq<bool>)
      requires Valid() && |sample| == aw + 1
      modifies ram, this`waddr, this`grayRaddr1, this`grayRaddr2
      ensures Valid() && Value() == WriteDomain(old(Value()), wvalid, wdata, sample)
    {
      assert Pow2(aw + 1) == 2 * Pow2(aw);
      var wready := Gray(waddr, aw + 1) != FlipTopTwo(grayRaddr2);
      if wvalid && wready {
        ram[Slot(waddr, aw)] := wdata;
        waddr := Succ(waddr, aw + 1);
      }
      grayRaddr2 := grayRaddr1;
      grayRaddr1 := sample;
    }

    /** A rising read clock: refill the output register, move the pointer, shift the synchronizer. */
    method ReadClock(rready: bool, sample: seq<bool>, word: T)
      requires Valid() && |sample| == aw + 1
      modifies this`raddr, this`rvalid, this`rdata, this`grayWaddr1, this`grayWaddr2
      ensures Valid() && Value() == ReadDomain(old(Value()), rready, sample, word)
    {
      var next := Gray(raddr, aw + 1) != grayWaddr2;
      if rvalid && rready {
        next := false;
        raddr := Succ(raddr, aw + 1);
      }
      rvalid := next;
      rdata := word;
      grayWaddr2 := grayWaddr1;
      grayWaddr1 := sample;
    }

    /** One instant of a run: whichever clocks rise, with what each domain catches of the other. */
    method Tick(e: Edge<T>)
      requires Valid() && EdgeFits(Value(), e)
      modifies this, ram
      ensures Valid() && Value() == Step(old(Value()), e)
    {
      assert Pow2(aw + 1) == 2 * Pow2(aw);
      var n := aw + 1;
      match e {
        case WriteEdge(v, d) => WriteClock(v, d, Gray(raddr, n));
        case ReadEdge(r) => ReadClock(r, Gray(waddr, n), ram[Slot(raddr, aw)]);
        case BothEdges(_, _, _, _, _, _) => TickBoth(e);
      }
    }

    /** What the two domains catch of each other when both clocks rise. */
    method CatchBoth(e: Edge<T>) returns (seenW: seq<bool>, seenR: seq<bool>, word: T)
      requires Valid() && EdgeFits(Value(), e) && e.BothEdges?
      ensures var s, n := Value(), aw + 1;
              && seenW == Mix(Gray(waddr, n), Gray(NextWaddr(s, e.wvalid), n), e.lateW)
              && seenR == Mix(Gray(raddr, n), Gray(NextRaddr(s, e.rready), n), e.lateR)
              && word == FetchDuringWrite(s, e.wvalid, e.torn)
    {
      assert Pow2(aw + 1) == 2 * Pow2(aw);
      var n := aw + 1;
      var writes := e.wvalid && Gray(waddr, n) != FlipTopTwo(grayRaddr2);
      var waddr' := if writes then Succ(waddr, n) else waddr;
      var raddr' := if rvalid && e.rready then Succ(raddr, n) else raddr;
      word := if writes && Slot(waddr, aw) == Slot(raddr, aw) then e.torn else ram[Slot(raddr, aw)];
      seenW := Mix(Gray(waddr, n), Gray(waddr', n), e.lateW);
      seenR := Mix(Gray(raddr, n), Gray(raddr', n), e.lateR);
    }

    method TickBoth(e: Edge<T>)
      requires Valid() && EdgeFits(Value(), e) && e.BothEdges?
      modifies this, ram
      ensures Valid() && Value() == Step(old(Value()), e)
    {
      var seenW, seenR, word := CatchBoth(e);
      BothDomains(Value(), e, seenW, seenR, word);
      ReadClock(e.rready, seenW, word);
      WriteClock(e.wvalid, e.wdata, seenR);
    }
  }

  lemma {:induction false} BothDomains<T>(s: Fifo<T>, e: Edge<T>, seenW: seq<bool>, seenR: seq<bool>, word: T)
    requires Shape(s) && EdgeFits(s, e) && e.BothEdges?
    requires seenW == Mix(Gray(s.waddr, s.aw + 1), Gray(NextWaddr(s, e.wvalid), s.aw + 1), e.lateW)
    requires seenR == Mix(Gray(s.raddr, s.aw + 1), Gray(NextRaddr(s, e.rready), s.aw + 1), e.lateR)
    requires word == FetchDuringWrite(s, e.wvalid, e.torn)
    ensures Shape(ReadDomain(s, e.rready, seenW, word))
    ensures Step(s, e) == WriteDomain(ReadDomain(s, e.rready, seenW, word), e.wvalid, e.wdata, seenR)
  {
  }
}
