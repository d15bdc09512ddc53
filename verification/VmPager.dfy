/** The demand pager of the virtual-memory test environment, and the flat memory it must look like.

    Physical memory is an array of pages counted from DRAM_BASE.  Page `p` < 63 backs user page `p`;
    the frames that user pages are copied into lie above.  Where the program stores the address of a
    frame the model stores its page number, and 0 for the null address. */
module VmPager {
  import opened Bytes
  import opened Lfsr

  const MAX_TEST_PAGES: nat := 63
  const PTES_PER_PT: nat := 1024
  const PGSIZE: nat := 4096

  type Page = s: seq<Byte> | |s| == PGSIZE witness seq(PGSIZE, _ => 0)

  /** What the hardware was doing when it faulted. */
  datatype Kind = Fetch | Load | Store

  /** A user access; naturally aligned, so it stays in its page. */
  datatype Op =
    | Read(kind: Kind, page: nat, offset: nat, width: nat)
    | Write(page: nat, offset: nat, data: seq<Byte>)
  {
    predicate Aligned() {
      match this
      case Read(kind, _, offset, width) => kind != Store && offset + width <= PGSIZE
      case Write(_, offset, data) => offset + |data| <= PGSIZE
    }

    predicate InRange() { 1 <= page < MAX_TEST_PAGES }

    function Cause(): Kind { if Read? then kind else Store }
  }

  datatype Result = Data(bytes: seq<Byte>) | Done | Terminated

  function Patch(page: Page, offset: nat, data: seq<Byte>): Page
    requires offset + |data| <= PGSIZE
  {
    page[..offset] + data + page[offset + |data|..]
  }

  const ZERO_PAGE: Page := seq(PGSIZE, _ => 0)

  type Memory = s: seq<Page> | |s| == MAX_TEST_PAGES witness seq<Page>(MAX_TEST_PAGES, _ => ZERO_PAGE)

  predicate Aligned(ops: seq<Op>) {
    forall i :: 0 <= i < |ops| ==> ops[i].Aligned()
  }

  /** One access in a memory without any paging. */
  function FlatStep(mem: Memory, op: Op): (Memory, Result)
    requires op.Aligned()
  {
    if !op.InRange() then (mem, Terminated)
    else match op
      case Read(_, page, offset, width) => (mem, Data(mem[page][offset..offset + width]))
      case Write(page, offset, data) => (mem[page := Patch(mem[page], offset, data)], Done)
  }

  /** The reference: what a run of accesses reads from, and leaves in, a memory without any paging.
      It ends at the first access outside the mapped range. */
  function FlatRun(mem: Memory, ops: seq<Op>): (Memory, seq<Result>)
    requires Aligned(ops)
    decreases |ops|
  {
    if ops == [] then (mem, [])
    else
      var (m, r) := FlatStep(mem, ops[0]);
      if r.Terminated? then (m, [r])
      else
        var (m', rs) := FlatRun(m, ops[1..]);
        (m', [r] + rs)
  }

  lemma {:induction false} FramesDiffer(seed: bv6, i: nat, j: nat)
    requires seed != 0 && i < j < MAX_TEST_PAGES
    ensures Draw(seed, i) != Draw(seed, j)
  {
    DrawIsShifted(seed, i);
    DrawIsShifted(seed, j);
    FullPeriod(seed, i, j);
    Numbers(Shifted(seed, i), Shifted(seed, j));
  }

  lemma {:induction false} Numbers(x: bv6, y: bv6)
    ensures x as nat == y as nat <==> x == y
  {
    assert (x as nat) as bv6 == x && (y as nat) as bv6 == y;
  }

  function Joined(before: seq<Result>, run: (Memory, seq<Result>)): (Memory, seq<Result>) {
    (run.0, before + run.1)
  }

  lemma {:induction false} JoinedStep(before: seq<Result>, r: Result, run: (Memory, seq<Result>))
    ensures Joined(before, Joined([r], run)) == Joined(before + [r], run)
  {
    assert before + ([r] + run.1) == (before + [r]) + run.1;
  }

  lemma {:induction false} FlatRunStep(mem: Memory, ops: seq<Op>, i: nat)
    requires Aligned(ops) && i < |ops|
    ensures var (m, r) := FlatStep(mem, ops[i]);
            FlatRun(mem, ops[i..]) == if r.Terminated? then (m, [r]) else Joined([r], FlatRun(m, ops[i + 1..]))
  {
    assert ops[i..][0] == ops[i] && ops[i..][1..] == ops[i + 1..];
  }

  // ---- Flat memory, byte by byte ----

  /** The store covers byte `o` of page `p`. */
  predicate Covers(op: Op, p: nat, o: nat) {
    op.Write? && op.page == p && op.offset <= o < op.offset + |op.data|
  }

  /** Byte `o` of page `p`, which was `b`, after the accesses: that of the last store that covers it. */
  function LastStored(b: Byte, ops: seq<Op>, p: nat, o: nat): Byte
    decreases |ops|
  {
    if ops == [] then b
    else LastStored(if Covers(ops[0], p, o) then ops[0].data[o - ops[0].offset] else b, ops[1..], p, o)
  }

  lemma {:induction false} StepIsBytes(mem: Memory, op: Op, p: nat, o: nat)
    requires op.Aligned() && p < MAX_TEST_PAGES && o < PGSIZE && (op.Write? ==> 1 <= op.page < 63)
    ensures FlatStep(mem, op).0[p][o] == LastStored(mem[p][o], [op], p, o)
  {
    assert [op][1..] == [];
  }

  /** What an access between 1 and 62 returns: a load or fetch the bytes it names, each as it was stored last. */
  predicate ReturnsBytes(mem: Memory, before: seq<Op>, op: Op, r: Result)
    requires op.Aligned()
  {
    match op
    case Read(_, page, offset, width) =>
      && r.Data? && |r.bytes| == width
      && (page < MAX_TEST_PAGES ==>
            forall b :: 0 <= b < width ==> r.bytes[b] == LastStored(mem[page][offset + b], before, page, offset + b))
    case Write(_, _, _) => r.Done?
  }

  lemma {:induction false} LastStoredFirst(b: Byte, op: Op, ops: seq<Op>, p: nat, o: nat)
    ensures LastStored(b, [op] + ops, p, o) == LastStored(LastStored(b, [op], p, o), ops, p, o)
  {
    assert ([op] + ops)[1..] == ops && [op][1..] == [];
  }

  lemma {:induction false} ReturnsLater(mem: Memory, first: Op, before: seq<Op>, op: Op, r: Result)
    requires first.Aligned() && 1 <= first.page < 63 && op.Aligned() && 1 <= op.page < 63
    requires ReturnsBytes(FlatStep(mem, first).0, before, op, r)
    ensures ReturnsBytes(mem, [first] + before, op, r)
  {
    if op.Read? {
      forall b | 0 <= b < op.width
        ensures r.bytes[b]
             == LastStored(mem[op.page][op.offset + b], [first] + before, op.page, op.offset + b)
      {
        StepIsBytes(mem, first, op.page, op.offset + b);
        LastStoredFirst(mem[op.page][op.offset + b], first, before, op.page, op.offset + b);
      }
    }
  }

  lemma {:induction false} FlatRunFirst(mem: Memory, ops: seq<Op>)
    requires Aligned(ops) && ops != []
    ensures var (m, r), all := FlatStep(mem, ops[0]), FlatRun(mem, ops);
            if 1 <= ops[0].page < 63
            then !r.Terminated? && all.0 == FlatRun(m, ops[1..]).0 && all.1 == [r] + FlatRun(m, ops[1..]).1
            else r.Terminated? && all == (mem, [Terminated])
  {
  }

  /** The flat reference is what a load-store machine means: a run executes the accesses up to the first one
      outside pages 1 to 62, which ends it, and each load and fetch before that returns, byte for byte, what was
      stored last, or what was there at the start. */
  lemma {:induction false} RunIsBytes(mem: Memory, ops: seq<Op>, i: nat)
    requires Aligned(ops) && i < |FlatRun(mem, ops).1|
    ensures i < |ops|
    ensures var rs := FlatRun(mem, ops).1;
            if 1 <= ops[i].page < 63 then ReturnsBytes(mem, ops[..i], ops[i], rs[i])
            else rs[i] == Terminated && |rs| == i + 1
    decreases |ops|
  {
    FlatRunFirst(mem, ops);
    var m := FlatStep(mem, ops[0]).0;
    if i > 0 {
      RunIsBytes(m, ops[1..], i - 1);
      assert ops[1..][i - 1] == ops[i] && ops[..i] == [ops[0]] + ops[1..][..i - 1];
      if 1 <= ops[i].page < 63 {
        ReturnsLater(mem, ops[0], ops[1..][..i - 1], ops[i], FlatRun(mem, ops).1[i]);
      }
    }
  }

  /** And so is the memory it leaves. */
  lemma {:induction false} FinalIsBytes(mem: Memory, ops: seq<Op>, p: nat, o: nat)
    requires Aligned(ops) && p < MAX_TEST_PAGES && o < PGSIZE
    requires forall i :: 0 <= i < |ops| ==> 1 <= ops[i].page < 63
    ensures FlatRun(mem, ops).0[p][o] == LastStored(mem[p][o], ops, p, o)
    decreases |ops|
  {
    if ops != [] {
      FlatRunFirst(mem, ops);
      StepIsBytes(mem, ops[0], p, o);
      FinalIsBytes(FlatStep(mem, ops[0]).0, ops[1..], p, o);
      LastStoredFirst(mem[p][o], ops[0], ops[1..], p, o);
      assert ops == [ops[0]] + ops[1..];
    }
  }

  datatype Pte = Pte(v: bool, frame: nat, a: bool, d: bool)

  const NO_PTE := Pte(false, 0, false, false)

  /** The faults an access still has to take: map the page, set A, set D.  The hardware faults, and
      never writes a page-table entry itself, while this is not 0. */
  function Missing(e: Pte, kind: Kind): nat {
    (if e.v then 0 else 1) + (if e.a then 0 else 1) + (if kind == Store && !e.d then 1 else 0)
  }

  datatype Ptr = Null | Free(i: nat) | Mapping(p: nat)

  datatype Node = Node(addr: nat, next: Ptr)

  ghost predicate Distinct(s: seq<nat>) {
    forall i, j :: 0 <= i < j < |s| ==> s[i] != s[j]
  }

  ghost predicate UserPages(s: seq<nat>) {
    Distinct(s) && forall i :: 0 <= i < |s| ==> 1 <= s[i] < MAX_TEST_PAGES
  }

  /** Page 0 is never mapped, so 62 pages are all that can ask for one of the 63 frames: this is why
      the freelist head is never null at a fault. */
  lemma {:induction false} Pigeonhole(s: seq<nat>, n: nat)
    requires Distinct(s) && forall i :: 0 <= i < |s| ==> 1 <= s[i] <= n
    ensures |s| <= n
  {
    if s == [] {
    } else if i :| 0 <= i < |s| && s[i] == n {
      assert 1 <= s[0] <= n;
      Pigeonhole(s[..i] + s[i + 1..], n - 1);
    } else {
      assert 1 <= s[0] <= n;
      Pigeonhole(s, n - 1);
    }
  }

  class Pager {
    const pt: array<Pte>
    const userMapping: array<Node>
    const nodes: array<Node>
    const phys: array<Page>
    var head: Ptr
    var tail: Ptr
    /** The mapped pages, in the order in which they took their frames. */
    ghost var order: seq<nat>
    /** The flat memory that the program believes in. */
    ghost var flat: Memory

    ghost predicate Shape()
      reads this
    {
      && pt.Length == PTES_PER_PT
      && userMapping.Length == nodes.Length == MAX_TEST_PAGES
      && phys.Length == 2 * MAX_TEST_PAGES + 1
      && userMapping != nodes
    }

    /** The free nodes name 63 different frames, none of which is a backing page. */
    ghost predicate Frames()
      requires Shape()
      reads this, nodes
    {
      && (forall i :: 0 <= i < MAX_TEST_PAGES ==> MAX_TEST_PAGES < nodes[i].addr <= 2 * MAX_TEST_PAGES)
      && (forall i, j :: 0 <= i < j < MAX_TEST_PAGES ==> nodes[i].addr != nodes[j].addr)
    }

    /** The nodes still free are a suffix of the array, linked in its order. */
    ghost predicate FreeList()
      requires Shape()
      reads this, nodes
    {
      && UserPages(order) && |order| < MAX_TEST_PAGES
      && (forall i :: 0 <= i < MAX_TEST_PAGES ==>
            nodes[i].next == if i + 1 < MAX_TEST_PAGES then Free(i + 1) else Null)
      && head == Free(|order|)
      && tail == (if |order| < MAX_TEST_PAGES - 1 then Free(MAX_TEST_PAGES - 1) else Null)
    }

    /** The pages in `order` are the mapped ones, each with the frame it took. */
    ghost predicate Mapped()
      requires Shape() && |order| < MAX_TEST_PAGES && UserPages(order)
      reads this, nodes, pt, userMapping
    {
      && (forall i :: 0 <= i < |order| ==>
            pt[order[i]].v && pt[order[i]].frame == nodes[i].addr && userMapping[order[i]] == nodes[i])
      && (forall p :: 0 <= p < PTES_PER_PT && p !in order ==> pt[p] == NO_PTE)
      && (forall p :: 0 <= p < MAX_TEST_PAGES && p !in order ==> userMapping[p].addr == 0)
    }

    /** The physical page that holds the current contents of user page `p`. */
    ghost function Home(p: nat): nat
      requires Shape() && p < MAX_TEST_PAGES
      reads this, pt
    {
      if pt[p].v then pt[p].frame else p
    }

    /** The home of a page holds what flat memory holds; while its D bit is clear, so does its
        backing page. */
    ghost predicate Current(p: nat)
      requires Shape() && p < MAX_TEST_PAGES
      reads this, pt, phys
    {
      && Home(p) < phys.Length
      && phys[Home(p)] == flat[p]
      && (!pt[p].d ==> phys[p] == flat[p])
    }

    ghost predicate Valid()
      reads this, pt, userMapping, nodes, phys
    {
      && Shape() && Frames() && FreeList() && Mapped()
      && (forall p :: 0 <= p < MAX_TEST_PAGES ==> Current(p))
    }

    /** Between accesses every mapped page has its A bit set. */
    ghost predicate Settled()
      requires Shape()
      reads this, pt
    {
      forall p :: 0 <= p < MAX_TEST_PAGES && pt[p].v ==> pt[p].a
    }

    lemma {:induction false} FrameAbove(p: nat)
      requires Valid() && p < MAX_TEST_PAGES
      ensures pt[p].v ==> 1 <= p && MAX_TEST_PAGES < pt[p].frame <= 2 * MAX_TEST_PAGES
    {
      if p in order { var i :| 0 <= i < |order| && order[i] == p; }
    }

    /** Different user pages never share a physical page. */
    lemma {:induction false} HomesApart(p: nat, q: nat)
      requires Valid() && p < MAX_TEST_PAGES && q < MAX_TEST_PAGES && p != q
      ensures Home(p) != Home(q)
    {
      if p in order { var i :| 0 <= i < |order| && order[i] == p; }
      if q in order { var j :| 0 <= j < |order| && order[j] == q; }
    }

    /** vm_boot: the backing pages hold the program, nothing is mapped, and the register deals out
        the frames. */
    constructor Boot(entropy: nat, dram: seq<Page>)
      requires |dram| == 2 * MAX_TEST_PAGES + 1
      ensures Valid() && Settled() && order == [] && flat == dram[..MAX_TEST_PAGES]
      ensures forall k :: 0 <= k < MAX_TEST_PAGES ==> nodes[k].addr == 63 + Draw((1 + entropy % 63) as bv6, k)
      ensures fresh(pt) && fresh(userMapping) && fresh(nodes) && fresh(phys)
    {
      pt := new Pte[PTES_PER_PT](_ => NO_PTE);
      userMapping := new Node[MAX_TEST_PAGES](_ => Node(0, Null));
      nodes := new Node[MAX_TEST_PAGES](_ => Node(0, Null));
      phys := new Page[2 * MAX_TEST_PAGES + 1](i requires 0 <= i < |dram| => dram[i]);
      head, tail := Free(0), Free(MAX_TEST_PAGES - 1);
      order, flat := [], dram[..MAX_TEST_PAGES];
      new;
      var seed := (1 + entropy % MAX_TEST_PAGES) as bv6;
      DealFrames(seed);
      DealtFrames(seed);
      NothingMapped();
    }

    lemma {:induction false} NothingMapped()
      requires Shape() && Frames() && order == [] && head == Free(0) && tail == Free(MAX_TEST_PAGES - 1)
      requires forall i :: 0 <= i < MAX_TEST_PAGES ==>
                 nodes[i].next == if i + 1 < MAX_TEST_PAGES then Free(i + 1) else Null
      requires forall p :: 0 <= p < PTES_PER_PT ==> pt[p] == NO_PTE
      requires forall p :: 0 <= p < MAX_TEST_PAGES ==> userMapping[p].addr == 0 && phys[p] == flat[p]
      ensures Valid() && Settled()
    {
    }

    method DealFrames(seed: bv6)
      requires Shape() && seed != 0
      modifies nodes
      ensures forall k :: 0 <= k < MAX_TEST_PAGES ==>
                && nodes[k].addr == MAX_TEST_PAGES + Draw(seed, k)
                && nodes[k].next == if k + 1 < MAX_TEST_PAGES then Free(k + 1) else Null
    {
      var random := seed;
      var i := 0;
      while i < MAX_TEST_PAGES
        invariant 0 <= i <= MAX_TEST_PAGES && random == Shifted(seed, i)
        invariant forall k :: 0 <= k < i ==> nodes[k] == Node(MAX_TEST_PAGES + Draw(seed, k), Free(k + 1))
      {
        DrawIsShifted(seed, i);
        nodes[i] := Node(MAX_TEST_PAGES + random as nat, Free(i + 1));
        random := NextRandom(random, seed, i);
        i := i + 1;
      }
      nodes[MAX_TEST_PAGES - 1] := nodes[MAX_TEST_PAGES - 1].(next := Null);
    }

    method NextRandom(random: bv6, ghost seed: bv6, ghost i: nat) returns (next: bv6)
      requires random == Shifted(seed, i)
      ensures next == Shifted(seed, i + 1)
    {
      next := Next(random);
    }

    lemma {:induction false} DealtFrames(seed: bv6)
      requires Shape() && seed != 0
      requires forall k :: 0 <= k < MAX_TEST_PAGES ==> nodes[k].addr == MAX_TEST_PAGES + Draw(seed, k)
      ensures Frames()
    {
      forall k | 0 <= k < MAX_TEST_PAGES
        ensures MAX_TEST_PAGES < nodes[k].addr <= 2 * MAX_TEST_PAGES
      {
        DrawInRange(seed, k);
      }
      forall j, k | 0 <= j < k < MAX_TEST_PAGES
        ensures nodes[j].addr != nodes[k].addr
      {
        FramesDiffer(seed, j, k);
      }
    }

    /** The physical page the hardware reaches through the page table. */
    function Translate(p: nat, kind: Kind): nat
      requires Shape() && p < PTES_PER_PT && Missing(pt[p], kind) == 0
      reads this, pt
    {
      pt[p].frame
    }

    /** Whether the hardware raises a page fault. */
    predicate Faults(p: nat, kind: Kind)
      requires Shape()
      reads this, pt
    {
      p >= PTES_PER_PT || Missing(pt[p], kind) > 0
    }

    /** It does unless the page is valid, accessed and, for a store, dirty. */
    lemma {:induction false} FaultsExactly(p: nat, kind: Kind)
      requires Shape()
      ensures Faults(p, kind) <==>
                p >= 1024 || !pt[p].v || !pt[p].a || (kind == Store && !pt[p].d)
    {
    }

    method Deref(node: Ptr) returns (n: Node)
      requires Shape() && node != Null
      requires node.Free? ==> node.i < MAX_TEST_PAGES
      requires node.Mapping? ==> node.p < MAX_TEST_PAGES
      ensures n == if node.Free? then nodes[node.i] else userMapping[node.p]
    {
      n := if node.Free? then nodes[node.i] else userMapping[node.p];
    }

    /** The first half of handle_fault: the page is mapped and only lacks A or D. */
    method SetBit(p: nat, cause: Kind) returns (ok: bool)
      requires Valid() && 1 <= p < MAX_TEST_PAGES && pt[p].v && Faults(p, cause)
      modifies pt
      ensures ok && Valid()
      ensures Missing(pt[p], cause) == old(Missing(pt[p], cause)) - 1
      ensures pt[p].v && pt[p].a && forall q :: 0 <= q < pt.Length && q != p ==> pt[q] == old(pt[q])
    {
      if !pt[p].a {
        pt[p] := pt[p].(a := true);
        ok := true;
      } else {
        ok := !pt[p].d && cause == Store;
        pt[p] := pt[p].(d := true);
      }
      forall q | 0 <= q < MAX_TEST_PAGES
        ensures Current(q)
      {
        assert old(Current(q));
      }
    }

    /** Give the page the first free frame and open the user mapping for the kernel's own copy. */
    method TakeFrame(p: nat) returns (ok: bool)
      requires Valid() && 1 <= p < MAX_TEST_PAGES && !pt[p].v
      modifies this`head, this`tail, this`order, pt, userMapping
      ensures ok && Shape() && FreeList() && Mapped() && order == old(order) + [p]
      ensures Missing(pt[p], Store) == 0 && MAX_TEST_PAGES < pt[p].frame < phys.Length
      ensures forall q :: 0 <= q < pt.Length && q != p ==> pt[q] == old(pt[q])
      ensures forall q :: 0 <= q < MAX_TEST_PAGES && q != p ==> Home(q) != pt[p].frame
    {
      Room(p);
      NextFrameUnused();
      var node := head;
      if node == Null { return false; }
      var n := Deref(node);
      head := n.next;
      if head == tail { tail := Null; }
      pt[p] := Pte(true, n.addr, true, true);
      if userMapping[p].addr != 0 { return false; }
      userMapping[p] := n;
      order := order + [p];
      ok := true;
    }

    /** The rest of handle_fault: take a frame and copy the page in through the user mapping, with A
        and D set for the copy and clear again afterwards. */
    method MapPage(p: nat) returns (ok: bool)
      requires Valid() && 1 <= p < MAX_TEST_PAGES && !pt[p].v
      modifies this`head, this`tail, this`order, pt, userMapping, phys
      ensures ok && Valid() && order == old(order) + [p]
      ensures pt[p].v && !pt[p].a && !pt[p].d
      ensures forall q :: 0 <= q < pt.Length && q != p ==> pt[q] == old(pt[q])
    {
      ok := TakeFrame(p);
      if !ok { return; }
      phys[Translate(p, Store)] := phys[p];
      pt[p] := pt[p].(a := false, d := false);
      forall q | 0 <= q < MAX_TEST_PAGES
        ensures Current(q)
      {
        assert old(Current(q));
      }
    }

    /** No page lives in the frame at the head of the freelist. */
    lemma {:induction false} NextFrameUnused()
      requires Valid()
      ensures forall q :: 0 <= q < MAX_TEST_PAGES ==> Home(q) != nodes[|order|].addr
      ensures forall i :: 0 <= i < |order| ==> pt[order[i]].frame != nodes[|order|].addr
    {
      forall q | 0 <= q < MAX_TEST_PAGES
        ensures Home(q) != nodes[|order|].addr
      {
        if q in order { var i :| 0 <= i < |order| && order[i] == q; }
      }
    }

    /** There is a frame left for one more page. */
    lemma {:induction false} Room(p: nat)
      requires Valid() && 1 <= p < MAX_TEST_PAGES && !pt[p].v
      ensures UserPages(order + [p]) && |order| < MAX_TEST_PAGES - 1
    {
      Pigeonhole(order + [p], MAX_TEST_PAGES - 1);
    }

    /** handle_fault; `ok` says that no assertion in it failed. */
    method HandleFault(p: nat, cause: Kind) returns (ok: bool)
      requires Valid() && Faults(p, cause)
      modifies this`head, this`tail, this`order, pt, userMapping, phys
      ensures Valid() && (ok <==> 1 <= p < MAX_TEST_PAGES)
      ensures ok ==> Missing(pt[p], cause) == old(Missing(pt[p], cause)) - 1
      ensures forall q :: 0 <= q < pt.Length && q != p ==> pt[q] == old(pt[q])
      ensures !ok ==> pt[..] == old(pt[..])
    {
      if !(1 <= p < MAX_TEST_PAGES) { return false; }
      if pt[p].v {
        ok := SetBit(p, cause);
      } else {
        ok := MapPage(p);
      }
    }

    /** The store itself, once the page is mapped, accessed and dirty. */
    method StoreTo(p: nat, offset: nat, data: seq<Byte>)
      requires Valid() && 1 <= p < MAX_TEST_PAGES && Missing(pt[p], Store) == 0 && offset + |data| <= PGSIZE
      modifies this`flat, phys
      ensures Valid() && flat == old(flat)[p := Patch(old(flat)[p], offset, data)]
    {
      var frame := Translate(p, Store);
      FrameAbove(p);
      forall q | 0 <= q < MAX_TEST_PAGES && q != p
        ensures Home(q) != frame
      {
        HomesApart(p, q);
      }
      phys[frame] := Patch(phys[frame], offset, data);
      flat := flat[p := Patch(flat[p], offset, data)];
      forall q | 0 <= q < MAX_TEST_PAGES
        ensures Current(q)
      {
        assert old(Current(q));
      }
    }

    /** The faults of one access, until the hardware lets it through: at most map, set A and set D. */
    method Resolve(p: nat, cause: Kind) returns (ok: bool, faults: nat)
      requires Valid() && Settled()
      modifies this`head, this`tail, this`order, pt, userMapping, phys
      ensures Valid() && Settled()
      ensures ok <==> 1 <= p < MAX_TEST_PAGES
      ensures ok ==> Missing(pt[p], cause) == 0 && faults == old(Missing(pt[p], cause)) <= 3
    {
      faults, ok := 0, true;
      while Faults(p, cause)
        invariant Valid() && (faults > 0 ==> 1 <= p < MAX_TEST_PAGES)
        invariant forall q :: 0 <= q < MAX_TEST_PAGES && q != p && pt[q].v ==> pt[q].a
        invariant p < PTES_PER_PT ==> faults + Missing(pt[p], cause) == old(Missing(pt[p], cause))
        invariant faults == 0 ==> Settled()
        decreases if p < PTES_PER_PT then Missing(pt[p], cause) else 0
      {
        ok := HandleFault(p, cause);
        if !ok { return; }
        faults := faults + 1;
      }
      FrameAbove(p);
    }

    /** One user access. */
    method Access(op: Op) returns (r: Result, faults: nat)
      requires Valid() && Settled() && op.Aligned()
      modifies this`head, this`tail, this`order, this`flat, pt, userMapping, phys
      ensures Valid() && Settled()
      ensures (flat, r) == FlatStep(old(flat), op)
      ensures op.InRange() ==> faults == old(Missing(pt[op.page], op.Cause())) <= 3
    {
      var ok;
      ok, faults := Resolve(op.page, op.Cause());
      if !ok { return Terminated, faults; }
      FrameAbove(op.page);
      match op
      case Read(kind, page, offset, width) =>
        assert Current(page);
        r := Data(phys[Translate(page, kind)][offset..offset + width]);
      case Write(page, offset, data) =>
        StoreTo(page, offset, data);
        r := Done;
    }

    /** The accesses of a program up to its ecall, or to the first access outside the range. */
    method Run(ops: seq<Op>) returns (results: seq<Result>)
      requires Valid() && Settled() && Aligned(ops)
      modifies this`head, this`tail, this`order, this`flat, pt, userMapping, phys
      ensures Valid() && Settled()
      ensures (flat, results) == FlatRun(old(flat), ops)
    {
      results := [];
      var i := 0;
      assert ops[0..] == ops && results + FlatRun(flat, ops).1 == FlatRun(flat, ops).1;
      while i < |ops|
        invariant 0 <= i <= |ops| && Valid() && Settled()
        invariant Joined(results, FlatRun(flat, ops[i..])) == FlatRun(old(flat), ops)
      {
        ghost var before := flat;
        var r, faults := Access(ops[i]);
        FlatRunStep(before, ops, i);
        JoinedStep(results, r, FlatRun(flat, ops[i + 1..]));
        results := results + [r];
        if r.Terminated? { return; }
        i := i + 1;
      }
      assert results + [] == results;
    }

    ghost predicate Linked(node: Ptr) {
      && (node.Free? ==> node.i < MAX_TEST_PAGES)
      && (node.Mapping? ==> node.p < MAX_TEST_PAGES)
    }

    /** While the exit loop runs: pages below `first` are back home, the others are still current. */
    ghost predicate Leaving(first: nat)
      requires Shape()
      reads this, pt, userMapping, phys
    {
      && Linked(tail)
      && (forall p :: 0 <= p < MAX_TEST_PAGES && (p < first || userMapping[p].addr == 0) ==> phys[p] == flat[p])
      && (forall p :: first <= p < MAX_TEST_PAGES && userMapping[p].addr != 0 ==>
            pt[p].v && pt[p].a && MAX_TEST_PAGES < pt[p].frame && Current(p))
    }

    /** Put the node of page `p` back at the end of the freelist. */
    method Append(p: nat)
      requires Shape() && Linked(tail) && p < MAX_TEST_PAGES
      modifies this`head, this`tail, nodes, userMapping
      ensures tail == Mapping(p) && head == if old(tail) == Null then Mapping(p) else old(head)
      ensures forall i :: 0 <= i < MAX_TEST_PAGES ==>
                nodes[i] == if old(tail) == Free(i) then old(nodes[i]).(next := Mapping(p)) else old(nodes[i])
      ensures forall q :: 0 <= q < MAX_TEST_PAGES ==>
                && userMapping[q].addr == old(userMapping[q].addr)
                && userMapping[q].next == if old(tail) == Mapping(q) then Mapping(p) else old(userMapping[q].next)
    {
      if tail == Null {
        head := Mapping(p);
      } else if tail.Free? {
        nodes[tail.i] := nodes[tail.i].(next := Mapping(p));
      } else {
        userMapping[tail.p] := userMapping[tail.p].(next := Mapping(p));
      }
      tail := Mapping(p);
    }

    /** evict; `ok` says that no assertion in it failed. */
    method Evict(p: nat) returns (ok: bool)
      requires Shape() && Leaving(p) && 1 <= p < MAX_TEST_PAGES
      modifies this`head, this`tail, nodes, userMapping, phys
      ensures ok && Leaving(p + 1)
    {
      if userMapping[p].addr != 0 {
        if !pt[p].a { return false; }
        var frame := Translate(p, Load);
        if phys[frame] != phys[p] {
          if !pt[p].d { return false; }
          phys[p] := phys[frame];
        }
        userMapping[p] := userMapping[p].(addr := 0);
        Append(p);
      }
      ok := true;
    }

    /** The ecall that ends a program: every page is written back, and no assertion fails. */
    method Exit() returns (ok: bool)
      requires Valid() && Settled()
      modifies this`head, this`tail, nodes, userMapping, phys
      ensures ok && Shape() && phys[..MAX_TEST_PAGES] == old(flat)
    {
      forall p | 0 <= p < MAX_TEST_PAGES
        ensures userMapping[p].addr == 0 ==> phys[p] == flat[p]
        ensures userMapping[p].addr != 0 ==> 1 <= p && pt[p].v && MAX_TEST_PAGES < pt[p].frame && Current(p)
      {
        FrameAbove(p);
        assert Current(p);
        if p in order { var i :| 0 <= i < |order| && order[i] == p; }
      }
      var i := 1;
      while i < MAX_TEST_PAGES
        invariant 1 <= i <= MAX_TEST_PAGES && Leaving(i)
      {
        ok := Evict(i);
        if !ok { return; }
        i := i + 1;
      }
      ok := true;
    }
  }

  predicate AllInRange(ops: seq<Op>) {
    forall i :: 0 <= i < |ops| ==> ops[i].InRange()
  }

  /** What a program should read, and leave in its pages, on a machine that boots with `dram`. */
  function Expected(dram: seq<Page>, ops: seq<Op>): (Memory, seq<Result>)
    requires |dram| == 2 * MAX_TEST_PAGES + 1 && Aligned(ops)
  {
    FlatRun(dram[..MAX_TEST_PAGES], ops)
  }

  /** A program from reset to its ecall, on any contents of memory and whatever the entropy. */
  method BootRunExit(entropy: nat, dram: seq<Page>, ops: seq<Op>)
    returns (results: seq<Result>, backing: seq<Page>, ok: bool)
    requires |dram| == 2 * MAX_TEST_PAGES + 1 && Aligned(ops)
    ensures results == Expected(dram, ops).1
    ensures ok <==> AllInRange(ops)
    ensures ok ==> backing == Expected(dram, ops).0
  {
    var pager := new Pager.Boot(entropy, dram);
    results := pager.Run(ops);
    backing := dram[..MAX_TEST_PAGES];
    TerminatesOutside(backing, ops);
    if results != [] && results[|results| - 1].Terminated? { return results, backing, false; }
    ok := pager.Exit();
    backing := pager.phys[..MAX_TEST_PAGES];
  }

  /** A flat run is cut short exactly when some access is out of range. */
  lemma {:induction false} TerminatesOutside(mem: Memory, ops: seq<Op>)
    requires Aligned(ops)
    ensures var rs := FlatRun(mem, ops).1;
            rs != [] && rs[|rs| - 1].Terminated? <==> !AllInRange(ops)
    decreases |ops|
  {
    if ops != [] {
      var (m, r) := FlatStep(mem, ops[0]);
      if !r.Terminated? {
        TerminatesOutside(m, ops[1..]);
        assert forall i :: 0 < i < |ops| ==> ops[i] == ops[1..][i - 1];
      }
    }
  }
}
