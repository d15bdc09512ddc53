/** The block driver and the boot loader: the same card, copied through the window in chunks. */
module MmcDriver {
  import opened Bytes
  import opened MmcRequest

  class Driver {
    /** Main memory, and the bytes on the card. */
    const mem: array<Byte>
    const card: array<Byte>
    const rootfsOffset: nat
    /** The device's page register, and the driver's copy of it. */
    var addr29: nat
    var addr29Cached: nat
    var addr29Valid: bool

    /** A valid copy equals the register. */
    ghost predicate Valid()
      reads this
    {
      && card.Length <= CARD_LIMIT && card.Length % WINDOW == 0 && mem != card
      && (addr29Valid ==> addr29Cached == addr29)
    }

    constructor (mem: array<Byte>, card: array<Byte>, rootfsOffset: nat, register: nat)
      requires card.Length <= 0x200_0000_0000 && card.Length % 0x1000 == 0 && mem != card
      ensures Valid() && this.mem == mem && this.card == card && this.rootfsOffset == rootfsOffset
    {
      this.mem, this.card, this.rootfsOffset := mem, card, rootfsOffset;
      addr29, addr29Cached, addr29Valid := register, 0, false;
    }

    method SelectAddr29(a: nat)
      requires Valid()
      modifies this`addr29, this`addr29Cached, this`addr29Valid
      ensures Valid() && addr29 == Addr29(a)
    {
      var page := Addr29(a);
      if addr29Valid && addr29Cached == page { return; }
      addr29 := page;
      addr29Cached := page;
      addr29Valid := true;
    }

    /** Copy out of the window; neither the window nor the mapped page of memory is left. */
    method CopyFromIo(buf: nat, win: nat, n: nat)
      requires Valid() && win + n <= WINDOW && addr29 * WINDOW + win + n <= card.Length
      requires buf % PAGE_SIZE + n <= PAGE_SIZE && buf + n <= mem.Length
      modifies mem
      ensures var at := addr29 * WINDOW + win; mem[..] == Splice(old(mem[..]), buf, card[at..at + n])
    {
      forall j | 0 <= j < n {
        mem[buf + j] := card[addr29 * WINDOW + win + j];
      }
    }

    method CopyToIo(win: nat, buf: nat, n: nat)
      requires Valid() && win + n <= WINDOW && addr29 * WINDOW + win + n <= card.Length
      requires buf % PAGE_SIZE + n <= PAGE_SIZE && buf + n <= mem.Length
      modifies card
      ensures card[..] == Splice(old(card[..]), addr29 * WINDOW + win, mem[buf..buf + n])
    {
      forall j | 0 <= j < n {
        card[addr29 * WINDOW + win + j] := mem[buf + j];
      }
    }

    /** One chunk, which ends at the latest at the end of its window and of its page. */
    method CopyChunk(at: nat, a: nat, n: nat, isRead: bool)
      requires Valid() && at + n <= mem.Length && a + n <= card.Length && n > 0
      requires a % WINDOW + n <= WINDOW && at % PAGE_SIZE + n <= PAGE_SIZE
      modifies mem, card, this`addr29, this`addr29Cached, this`addr29Valid
      ensures Valid()
      ensures Crossed(old(mem[..]), old(card[..]), mem[..], card[..], at, a, n, isRead)
    {
      SelectAddr29(a);
      WindowReaches(a);
      if isRead {
        CopyFromIo(at, a % WINDOW, n);
      } else {
        CopyToIo(a % WINDOW, at, n);
      }
    }

    /** How much of the segment one step copies, and the place in memory of the mapped page. */
    method NextChunk(seg: Segment, segPos: nat, a: nat) returns (chunk: nat, buf: nat)
      requires segPos < seg.len
      ensures buf == seg.Start() + segPos == seg.page * 0x1000 + seg.offset + segPos
      ensures 0 < chunk <= seg.len - segPos
      ensures a % 0x1000 + chunk <= 0x1000 && buf % 0x1000 + chunk <= 0x1000
      ensures chunk == seg.len - segPos || a % 0x1000 + chunk == 0x1000 || buf % 0x1000 + chunk == 0x1000
    {
      var off := seg.offset + segPos;
      var page := seg.page + off / PAGE_SIZE;
      var pageOff := off % PAGE_SIZE;
      var segLeft := seg.len - segPos;
      var winOff := a % WINDOW;
      chunk := Min(segLeft, Min(WINDOW - winOff, PAGE_SIZE - pageOff));
      buf := page * PAGE_SIZE + pageOff;
    }

    /** The inner loop's body: one more chunk of the segment. */
    method CopyNext(seg: Segment, segPos: nat, a: nat, isRead: bool, ghost mem0: seq<Byte>, ghost card0: seq<Byte>)
      returns (next: nat)
      requires Valid() && segPos < seg.len && seg.End() <= mem.Length == |mem0|
      requires a + seg.len <= card.Length == |card0|
      requires Crossed(mem0, card0, mem[..], card[..], seg.Start(), a, segPos, isRead)
      modifies mem, card, this`addr29, this`addr29Cached, this`addr29Valid
      ensures Valid() && segPos < next <= seg.len
      ensures Crossed(mem0, card0, mem[..], card[..], seg.Start(), a, next, isRead)
    {
      var chunk, buf := NextChunk(seg, segPos, a + segPos);
      ghost var mem', card' := mem[..], card[..];
      CopyChunk(buf, a + segPos, chunk, isRead);
      assert buf == seg.Start() + segPos;
      CrossedConcat(mem0, card0, mem', card', mem[..], card[..], seg.Start(), a, segPos, chunk, isRead);
      next := segPos + chunk;
    }

    method CopySegment(seg: Segment, a: nat, isRead: bool)
      requires Valid() && seg.End() <= mem.Length && a + seg.len <= card.Length
      modifies mem, card, this`addr29, this`addr29Cached, this`addr29Valid
      ensures Valid()
      ensures Crossed(old(mem[..]), old(card[..]), mem[..], card[..], seg.Start(), a, seg.len, isRead)
    {
      ghost var mem0, card0 := mem[..], card[..];
      var segPos: nat := 0;
      CrossedNothing(mem0, card0, seg.Start(), a, isRead);
      while segPos < seg.len
        invariant segPos <= seg.len && Valid()
        invariant Crossed(mem0, card0, mem[..], card[..], seg.Start(), a, segPos, isRead)
      {
        segPos := CopyNext(seg, segPos, a, isRead, mem0, card0);
      }
    }

    /** One segment of the request: what is served from there on stays what it was. */
    method ServeNext(iter: seq<Segment>, a: nat, isRead: bool)
      requires Valid() && iter != [] && iter[0].len % SECTOR == 0
      requires Inside(iter, mem.Length) && a + Total(iter) <= card.Length
      modifies mem, card, this`addr29, this`addr29Cached, this`addr29Valid
      ensures Valid()
      ensures Inside(iter[1..], mem.Length) && a + iter[0].len + Total(iter[1..]) <= card.Length
      ensures Served(mem[..], card[..], iter[1..], a + iter[0].len, isRead)
           == Served(old(mem[..]), old(card[..]), iter, a, isRead)
    {
      ghost var mem', card' := mem[..], card[..];
      CopySegment(iter[0], a, isRead);
      ServedStep(mem', card', mem[..], card[..], iter, a, isRead);
    }

    /** The request: every segment, in chunks, until one is not whole sectors. */
    method QueueRq(segs: seq<Segment>, pos: nat, isRead: bool) returns (ok: bool)
      requires Valid() && Inside(segs, mem.Length)
      requires rootfsOffset + SECTOR * pos + Total(segs) <= card.Length
      modifies mem, card, this`addr29, this`addr29Cached, this`addr29Valid
      ensures Valid()
      ensures (mem[..], card[..], ok)
           == Served(old(mem[..]), old(card[..]), segs, rootfsOffset + 512 * pos, isRead)
    {
      var base := rootfsOffset + SECTOR * pos;
      var reqBytePos: nat, iter := 0, segs;
      ghost var goal := Served(mem[..], card[..], segs, base, isRead);
      while iter != []
        invariant Valid() && Inside(iter, mem.Length) && base + reqBytePos + Total(iter) <= card.Length
        invariant Served(mem[..], card[..], iter, base + reqBytePos, isRead) == goal
        decreases |iter|
      {
        if iter[0].len % SECTOR != 0 { return false; }
        ServeNext(iter, base + reqBytePos, isRead);
        reqBytePos := reqBytePos + iter[0].len;
        iter := iter[1..];
      }
      ok := true;
    }
  }

  function Min(a: nat, b: nat): nat { if a <= b then a else b }

  const WINDOW_WORDS: nat := WINDOW / 4

  /** The first `n` words are those of the card, the others as before. */
  ghost predicate Loaded(card: seq<bv32>, before: seq<bv32>, dram: seq<bv32>, n: nat)
    requires n <= |card| && |before| == |dram|
  {
    && (forall k :: 0 <= k < n && k < |dram| ==> dram[k] == card[k])
    && (forall k :: n <= k < |dram| ==> dram[k] == before[k])
  }

  /** The inner loop: one page of the image, from the window of page `page`, which shows 0x400 words. */
  method CopyPage(card: array<bv32>, dram: array<bv32>, page: nat, copied: nat, words: nat, ghost before: seq<bv32>)
    requires card != dram && copied + words <= card.Length && copied + words <= dram.Length == |before|
    requires page * 0x400 == copied && Loaded(card[..], before, dram[..], copied)
    modifies dram
    ensures Loaded(card[..], before, dram[..], copied + words)
  {
    var i := 0;
    while i < words
      invariant i <= words && Loaded(card[..], before, dram[..], copied + i)
    {
      dram[copied + i] := card[page * 0x400 + i];
      i := i + 1;
    }
  }

  lemma {:induction false} SamePage(addr29: nat)
    requires addr29 < 0x2000_0000
    ensures addr29 % 0x2000_0000 == addr29
  {
  }

  lemma {:induction false} NextPage(copied: nat, addr29: nat, imageWords: nat, words: nat)
    requires copied == WINDOW_WORDS * addr29 < imageWords < 0x1_0000_0000
    requires words == Min(imageWords - copied, WINDOW_WORDS)
    ensures addr29 < 0x2000_0000 && 0 < words <= imageWords - copied
    ensures copied + words == WINDOW_WORDS * (addr29 + 1) || copied + words == imageWords
  {
  }

  /** The boot loader's copy of an image, word by word and page after page from the start of the card.
      `card` and `dram` are counted in 32-bit words here. */
  method CopyToDram(card: array<bv32>, dram: array<bv32>, imageWords: nat)
    requires card != dram && imageWords <= card.Length && imageWords <= dram.Length
    requires imageWords < 0x1_0000_0000
    modifies dram
    ensures forall k :: 0 <= k < imageWords ==> dram[k] == card[k]
    ensures forall k :: imageWords <= k < dram.Length ==> dram[k] == old(dram[k])
  {
    var copied: nat, addr29: nat := 0, 0;
    ghost var before := dram[..];
    while copied < imageWords
      invariant copied <= imageWords && (copied == WINDOW_WORDS * addr29 || copied == imageWords)
      invariant Loaded(card[..], before, dram[..], copied)
    {
      var wordsThisPage := Min(imageWords - copied, WINDOW_WORDS);
      var page := addr29 % 0x2000_0000;
      NextPage(copied, addr29, imageWords, wordsThisPage);
      SamePage(addr29);
      CopyPage(card, dram, page, copied, wordsThisPage, before);
      addr29 := addr29 + 1;
      copied := copied + wordsThisPage;
    }
    assert Loaded(card[..], before, dram[..], imageWords);
  }
}
