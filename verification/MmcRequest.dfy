/** A multi-segment block request, as the kernel means it: one transfer between the segments, laid end
    to end, and one stretch of the device. */
module MmcRequest {
  import opened Bytes

  const PAGE_SIZE: nat := 0x1000
  const WINDOW: nat := 0x1000
  const SECTOR: nat := 512
  /** 29 page-number bits and 12 offset bits. */
  const CARD_LIMIT: nat := 0x200_0000_0000

  /** The page register takes the low 29 bits of the page number. */
  function Addr29(a: nat): nat { a / WINDOW % 0x2000_0000 }

  /** Page register and window offset together reach the byte that was named exactly on the first
      2 TiB of a card; beyond, they reach another byte. */
  lemma {:induction false} WindowReaches(a: nat)
    ensures Addr29(a) * WINDOW + a % WINDOW == a <==> a < 0x200_0000_0000
  {
    var p := a / WINDOW;
    assert p == p / 0x2000_0000 * 0x2000_0000 + p % 0x2000_0000;
  }

  /** A bio_vec: `len` bytes from `offset` on, in the pages that follow `page`. */
  datatype Segment = Segment(page: nat, offset: nat, len: nat) {
    function Start(): nat { page * PAGE_SIZE + offset }
    function End(): nat { Start() + len }
  }

  ghost predicate Inside(segs: seq<Segment>, limit: nat) {
    forall i :: 0 <= i < |segs| ==> segs[i].End() <= limit
  }

  ghost predicate Aligned(segs: seq<Segment>) {
    forall i :: 0 <= i < |segs| ==> segs[i].len % SECTOR == 0
  }

  ghost predicate Disjoint(segs: seq<Segment>) {
    forall i, j :: 0 <= i < j < |segs| ==> segs[i].End() <= segs[j].Start() || segs[j].End() <= segs[i].Start()
  }

  function Total(segs: seq<Segment>): nat {
    if segs == [] then 0 else segs[0].len + Total(segs[1..])
  }

  /** `data` put over the bytes of `s` from `at` on. */
  function Splice(s: seq<Byte>, at: nat, data: seq<Byte>): (r: seq<Byte>)
    requires at + |data| <= |s|
    ensures |r| == |s|
  {
    seq(|s|, i requires 0 <= i < |s| => if at <= i < at + |data| then data[i - at] else s[i])
  }

  lemma {:induction false} SpliceConcat(s: seq<Byte>, at: nat, d: seq<Byte>, e: seq<Byte>)
    requires at + |d| + |e| <= |s|
    ensures Splice(Splice(s, at, d), at + |d|, e) == Splice(s, at, d + e)
  {
  }

  lemma {:induction false} SliceConcat(s: seq<Byte>, i: nat, j: nat, k: nat)
    requires i <= j <= k <= |s|
    ensures s[i..j] + s[j..k] == s[i..k]
  {
  }

  lemma {:induction false} SpliceNothing(s: seq<Byte>, at: nat)
    requires at <= |s|
    ensures Splice(s, at, []) == s
  {
  }

  lemma {:induction false} SpliceHolds(s: seq<Byte>, at: nat, data: seq<Byte>)
    requires at + |data| <= |s|
    ensures Splice(s, at, data)[at..at + |data|] == data
  {
  }

  /** From one pair of memory and card to the next, exactly `n` bytes have crossed, between memory from
      `at` on and the device from `a` on. */
  ghost predicate Crossed(mem: seq<Byte>, card: seq<Byte>, mem': seq<Byte>, card': seq<Byte>,
                          at: nat, a: nat, n: nat, isRead: bool)
    requires at + n <= |mem| && a + n <= |card|
  {
    if isRead then card' == card && mem' == Splice(mem, at, card[a..a + n])
    else mem' == mem && card' == Splice(card, a, mem[at..at + n])
  }

  lemma {:induction false} CrossedNothing(mem: seq<Byte>, card: seq<Byte>, at: nat, a: nat, isRead: bool)
    requires at <= |mem| && a <= |card|
    ensures Crossed(mem, card, mem, card, at, a, 0, isRead)
  {
    SpliceNothing(mem, at);
    SpliceNothing(card, a);
  }

  lemma {:induction false} CrossedConcat(mem: seq<Byte>, card: seq<Byte>, mem': seq<Byte>, card': seq<Byte>,
                      mem'': seq<Byte>, card'': seq<Byte>, at: nat, a: nat, m: nat, n: nat, isRead: bool)
    requires at + m + n <= |mem| && a + m + n <= |card| && |mem'| == |mem| && |card'| == |card|
    requires Crossed(mem, card, mem', card', at, a, m, isRead)
    requires Crossed(mem', card', mem'', card'', at + m, a + m, n, isRead)
    ensures Crossed(mem, card, mem'', card'', at, a, m + n, isRead)
  {
    if isRead {
      SliceConcat(card, a, a + m, a + m + n);
      SpliceConcat(mem, at, card[a..a + m], card[a + m..a + m + n]);
    } else {
      SliceConcat(mem, at, at + m, at + m + n);
      SpliceConcat(card, a, mem[at..at + m], mem[at + m..at + m + n]);
    }
  }

  /** A read: the segments in turn take their bytes from the device, up to the first segment that is
      not a whole number of sectors. */
  function ReadInto(mem: seq<Byte>, card: seq<Byte>, segs: seq<Segment>, a: nat): (r: (seq<Byte>, bool))
    requires Inside(segs, |mem|) && a + Total(segs) <= |card|
    ensures |r.0| == |mem|
    decreases |segs|
  {
    if segs == [] then (mem, true)
    else if segs[0].len % SECTOR != 0 then (mem, false)
    else
      var next := a + segs[0].len;
      ReadInto(Splice(mem, segs[0].Start(), card[a..next]), card, segs[1..], next)
  }

  /** A write, likewise. */
  function WriteFrom(mem: seq<Byte>, card: seq<Byte>, segs: seq<Segment>, a: nat): (r: (seq<Byte>, bool))
    requires Inside(segs, |mem|) && a + Total(segs) <= |card|
    ensures |r.0| == |card|
    decreases |segs|
  {
    if segs == [] then (card, true)
    else if segs[0].len % SECTOR != 0 then (card, false)
    else
      var card' := Splice(card, a, mem[segs[0].Start()..segs[0].End()]);
      WriteFrom(mem, card', segs[1..], a + segs[0].len)
  }

  /** Memory, card and verdict after the request. */
  function Served(mem: seq<Byte>, card: seq<Byte>, segs: seq<Segment>, a: nat, isRead: bool)
    : (seq<Byte>, seq<Byte>, bool)
    requires Inside(segs, |mem|) && a + Total(segs) <= |card|
  {
    if isRead then (ReadInto(mem, card, segs, a).0, card, ReadInto(mem, card, segs, a).1)
    else (mem, WriteFrom(mem, card, segs, a).0, WriteFrom(mem, card, segs, a).1)
  }

  lemma {:induction false} ServedStep(mem: seq<Byte>, card: seq<Byte>, mem': seq<Byte>, card': seq<Byte>,
                   segs: seq<Segment>, a: nat, isRead: bool)
    requires segs != [] && segs[0].len % SECTOR == 0 && Inside(segs, |mem|) && a + Total(segs) <= |card|
    requires |mem'| == |mem| && |card'| == |card|
    requires Crossed(mem, card, mem', card', segs[0].Start(), a, segs[0].len, isRead)
    ensures Served(mem, card, segs, a, isRead) == Served(mem', card', segs[1..], a + segs[0].len, isRead)
  {
  }

  /** The bytes of all segments, end to end. */
  function Gather(mem: seq<Byte>, segs: seq<Segment>): (r: seq<Byte>)
    requires Inside(segs, |mem|)
    ensures |r| == Total(segs)
    decreases |segs|
  {
    if segs == [] then []
    else mem[segs[0].Start()..segs[0].End()] + Gather(mem, segs[1..])
  }

  lemma {:induction false} AlignedTail(segs: seq<Segment>)
    requires segs != []
    ensures Aligned(segs) <==> segs[0].len % SECTOR == 0 && Aligned(segs[1..])
  {
    assert forall i :: 0 < i < |segs| ==> segs[i] == segs[1..][i - 1];
  }

  /** A request is rejected exactly when some segment is not whole sectors. */
  lemma {:induction false} RejectedExactly(mem: seq<Byte>, card: seq<Byte>, segs: seq<Segment>, a: nat)
    requires Inside(segs, |mem|) && a + Total(segs) <= |card|
    ensures ReadInto(mem, card, segs, a).1 <==> Aligned(segs)
    ensures WriteFrom(mem, card, segs, a).1 <==> Aligned(segs)
    ensures Aligned(segs) <==> forall i :: 0 <= i < |segs| ==> segs[i].len % 512 == 0
    decreases |segs|
  {
    if segs != [] {
      AlignedTail(segs);
      var next := a + segs[0].len;
      RejectedExactly(Splice(mem, segs[0].Start(), card[a..next]), card, segs[1..], next);
      RejectedExactly(mem, Splice(card, a, mem[segs[0].Start()..segs[0].End()]), segs[1..], next);
    }
  }

  lemma {:induction false} TotalPrefix(segs: seq<Segment>, n: nat)
    requires n <= |segs|
    ensures Total(segs[..n]) <= Total(segs)
  {
    if n > 0 {
      assert segs[..n][1..] == segs[1..][..n - 1];
      TotalPrefix(segs[1..], n - 1);
    }
  }

  /** A rejected request has done what the segments before the bad one ask for, and no more. */
  lemma {:induction false} RejectedPrefix(mem: seq<Byte>, card: seq<Byte>, segs: seq<Segment>, bad: nat, a: nat)
    requires Inside(segs, |mem|) && a + Total(segs) <= |card|
    requires bad < |segs| && segs[bad].len % SECTOR != 0 && Aligned(segs[..bad])
    ensures Total(segs[..bad]) <= Total(segs)
    ensures ReadInto(mem, card, segs, a) == (ReadInto(mem, card, segs[..bad], a).0, false)
    ensures WriteFrom(mem, card, segs, a) == (WriteFrom(mem, card, segs[..bad], a).0, false)
    decreases |segs|
  {
    TotalPrefix(segs, bad);
    if bad > 0 {
      assert segs[0] == segs[..bad][0] && segs[1..][..bad - 1] == segs[..bad][1..];
      AlignedTail(segs[..bad]);
      var next := a + segs[0].len;
      RejectedPrefix(Splice(mem, segs[0].Start(), card[a..next]), card, segs[1..], bad - 1, next);
      RejectedPrefix(mem, Splice(card, a, mem[segs[0].Start()..segs[0].End()]), segs[1..], bad - 1, next);
    }
  }

  /** A write that is not rejected is one flat write of all the bytes; no other byte changes. */
  lemma {:induction false} WriteIsFlat(mem: seq<Byte>, card: seq<Byte>, segs: seq<Segment>, a: nat)
    requires Inside(segs, |mem|) && a + Total(segs) <= |card| && Aligned(segs)
    ensures WriteFrom(mem, card, segs, a) == (Splice(card, a, Gather(mem, segs)), true)
    decreases |segs|
  {
    if segs == [] {
      SpliceNothing(card, a);
    } else {
      var data := mem[segs[0].Start()..segs[0].End()];
      WriteIsFlat(mem, Splice(card, a, data), segs[1..], a + segs[0].len);
      SpliceConcat(card, a, data, Gather(mem, segs[1..]));
    }
  }

  ghost predicate Outside(segs: seq<Segment>, i: nat) {
    forall k :: 0 <= k < |segs| ==> i < segs[k].Start() || segs[k].End() <= i
  }

  /** A read changes nothing but its own segments. */
  lemma {:induction false} ReadKeepsTheRest(mem: seq<Byte>, card: seq<Byte>, segs: seq<Segment>, a: nat, i: nat)
    requires Inside(segs, |mem|) && a + Total(segs) <= |card| && i < |mem| && Outside(segs, i)
    ensures ReadInto(mem, card, segs, a).0[i] == mem[i]
    decreases |segs|
  {
    if segs != [] && segs[0].len % SECTOR == 0 {
      assert i < segs[0].Start() || segs[0].End() <= i;
      var next := a + segs[0].len;
      ReadKeepsTheRest(Splice(mem, segs[0].Start(), card[a..next]), card, segs[1..], next, i);
    }
  }

  /** The segments after the first leave it alone. */
  lemma {:induction false} FirstStays(mem: seq<Byte>, card: seq<Byte>, segs: seq<Segment>, a: nat)
    requires segs != [] && Inside(segs, |mem|) && Disjoint(segs) && a + Total(segs[1..]) <= |card|
    ensures ReadInto(mem, card, segs[1..], a).0[segs[0].Start()..segs[0].End()]
         == mem[segs[0].Start()..segs[0].End()]
  {
    var s, rest := segs[0], segs[1..];
    var final := ReadInto(mem, card, rest, a).0;
    forall i | s.Start() <= i < s.End()
      ensures final[i] == mem[i]
    {
      forall k | 0 <= k < |rest|
        ensures i < rest[k].Start() || rest[k].End() <= i
      {
        assert segs[k + 1] == rest[k];
      }
      ReadKeepsTheRest(mem, card, rest, a, i);
    }
  }

  lemma {:induction false} FirstIsRead(mem: seq<Byte>, card: seq<Byte>, segs: seq<Segment>, a: nat)
    requires segs != [] && segs[0].len % SECTOR == 0
    requires Inside(segs, |mem|) && a + Total(segs) <= |card| && Disjoint(segs)
    ensures ReadInto(mem, card, segs, a).0[segs[0].Start()..segs[0].End()] == card[a..a + segs[0].len]
  {
    var next := a + segs[0].len;
    FirstStays(Splice(mem, segs[0].Start(), card[a..next]), card, segs, next);
    SpliceHolds(mem, segs[0].Start(), card[a..next]);
  }

  /** A read that is not rejected fills the segments, end to end, with the bytes of the device. */
  lemma {:induction false} ReadIsFlat(mem: seq<Byte>, card: seq<Byte>, segs: seq<Segment>, a: nat)
    requires Inside(segs, |mem|) && a + Total(segs) <= |card| && Aligned(segs) && Disjoint(segs)
    ensures Gather(ReadInto(mem, card, segs, a).0, segs) == card[a..a + Total(segs)]
    decreases |segs|
  {
    if segs != [] {
      var next := a + segs[0].len;
      FirstIsRead(mem, card, segs, a);
      ReadIsFlat(Splice(mem, segs[0].Start(), card[a..next]), card, segs[1..], next);
      SliceConcat(card, a, next, next + Total(segs[1..]));
    }
  }

  /** Writing buffers and reading the same stretch into other buffers brings the same bytes back. */
  lemma {:induction false} WriteThenRead(mem: seq<Byte>, card: seq<Byte>, from: seq<Segment>, to: seq<Segment>, a: nat)
    requires Inside(from, |mem|) && Inside(to, |mem|) && Aligned(from) && Aligned(to) && Disjoint(to)
    requires Total(from) == Total(to) && a + Total(from) <= |card|
    ensures Gather(ReadInto(mem, WriteFrom(mem, card, from, a).0, to, a).0, to) == Gather(mem, from)
  {
    WriteIsFlat(mem, card, from, a);
    ReadIsFlat(mem, Splice(card, a, Gather(mem, from)), to, a);
    SpliceHolds(card, a, Gather(mem, from));
  }
}
