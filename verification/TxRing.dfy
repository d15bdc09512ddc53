/** The transmit ring between the CPU and the Ethernet transmitter: the transmitter takes whole
    records out at START whenever it likes, the software puts them in at END. */
module TxRing {
  import opened Powers
  import opened Words
  import opened Bytes
  import opened TxRecords

  /** The place in a ring of `n` words of the word written as number `x`. */
  function Slot(x: nat, n: nat): (s: nat)
    requires n > 0
    ensures s < n
  {
    if x == 0 then 0
    else
      var s := Slot(x - 1, n);
      if s + 1 == n then 0 else s + 1
  }

  lemma {:induction false} SlotPlus(a: nat, d: nat, n: nat)
    requires d < n
    ensures Slot(a + d, n) == Slot(a, n) + d - if Slot(a, n) + d < n then 0 else n
  {
    if d > 0 { SlotPlus(a, d - 1, n); }
  }

  /** x % m, without the division. */
  function Mod(x: nat, m: nat): (r: nat)
    requires m > 0
    ensures r < m
  {
    if x < m then x else Mod(x - m, m)
  }

  lemma {:induction false} ModIsRemainder(x: nat, m: nat)
    requires m > 0
    ensures Mod(x, m) == x % m
  {
    if x >= m {
      ModIsRemainder(x - m, m);
      DivModUnique(x, m, (x - m) / m + 1, (x - m) % m);
    } else {
      DivModUnique(x, m, 0, x);
    }
  }

  /** Moving a byte pointer forward wraps it as it moves the slot. */
  lemma {:induction false} Advance(a: nat, d: nat, n: nat)
    requires d < n
    ensures Mod(4 * Slot(a, n) + 4 * d, 4 * n) == 4 * Slot(a + d, n)
  {
    SlotPlus(a, d, n);
  }

  /** The used bytes, computed from the two pointers alone. */
  lemma {:induction false} Distance(a: nat, b: nat, n: nat)
    requires a <= b < a + n
    ensures Mod(4 * Slot(b, n) + 4 * n - 4 * Slot(a, n), 4 * n) == 4 * (b - a)
  {
    SlotPlus(a, b - a, n);
  }

  lemma {:induction false} Apart(a: nat, b: nat, n: nat)
    requires a < b < a + n
    ensures Slot(a, n) != Slot(b, n)
  {
    SlotPlus(a, b - a, n);
  }
  class Ring {
    const words: array<Word>
    /** The transmitter's own pointer, and the copy of it that the START register shows. */
    var start: nat
    var startCsr: nat
    var end: nat
    /** What went out on the cable. */
    var cable: seq<Frame>

    /** All frames ever published, and how many of them are out. */
    ghost var frames: seq<Frame>
    ghost var sent: nat
    /** The numbers, counted since reset, of the words that the three pointers point at. */
    ghost var out: nat
    ghost var seen: nat
    ghost var last: nat

    function Size(): nat { 4 * words.Length }

    ghost predicate Shape() { Size() >= 2048 }

    /** The words in the ring from word number `from` on are `w`. */
    ghost predicate Holds(from: nat, w: seq<Word>)
      requires Shape()
      reads words
    {
      forall k :: 0 <= k < |w| ==> words[Slot(from + k, words.Length)] == w[k]
    }

    /** `used <= size - 4`, measured against what the software can see. */
    ghost predicate Pointers()
      requires Shape()
      reads this
    {
      && seen <= out <= last < seen + words.Length
      && start == 4 * Slot(out, words.Length)
      && startCsr == 4 * Slot(seen, words.Length)
      && end == 4 * Slot(last, words.Length)
    }

    /** The words from START to END are the records that are not out yet. */
    ghost predicate Contents()
      requires Shape()
      reads this, words
    {
      && Sendable(frames) && sent <= |frames|
      && last == out + |Records(frames[sent..])|
      && Holds(out, Records(frames[sent..]))
      && cable == OnCable(frames[..sent])
    }

    ghost predicate Valid()
      reads this, words
    {
      Shape() && Pointers() && Contents()
    }

    constructor (size: nat)
      requires size >= 2048 && size % 4 == 0
      ensures Valid() && fresh(words) && Size() == size && frames == [] && cable == []
    {
      words := new Word[size / 4];
      start, startCsr, end, cable := 0, 0, 0, [];
      frames, sent, out, seen, last := [], 0, 0, 0, 0;
    }

    /** The unread stretch of the ring, as the transmitter will meet it. */
    ghost function Unread(): seq<Word>
      requires Valid()
      reads this, words
    {
      seq(last - out, k requires 0 <= k < last - out reads this, words requires Valid() =>
        words[Slot(out + k, words.Length)])
    }

    /** What is out and what is still in the ring is exactly what was queued, in order. */
    lemma {:induction false} NothingLost()
      requires Valid()
      ensures cable + Decode(Unread()) == OnCable(frames)
    {
      assert Unread() == Records(frames[sent..]);
      DecodeRecords(frames[sent..]);
      assert OnCable(frames[..sent]) + OnCable(frames[sent..]) == OnCable(frames);
    }

    /** Every frame on the cable has at least 60 bytes; it begins with the queued one, and zeros follow. */
    lemma {:induction false} CableFrames()
      requires Valid()
      ensures |cable| == sent <= |frames|
      ensures forall i :: 0 <= i < sent ==>
                && |cable[i]| == (if |frames[i]| < 60 then 60 else |frames[i]|) && frames[i] <= cable[i]
                && forall b :: |frames[i]| <= b < |cable[i]| ==> cable[i][b] == 0
    {
      forall i | 0 <= i < sent
        ensures cable[i] == Padded(frames[i])
      {
        assert OnCable(frames[..sent])[i] == Padded(frames[..sent][i]);
      }
      forall i | 0 <= i < sent {
        PaddedIs(frames[i]);
      }
    }

    /** The pointers meet only when everything is out: a full ring never looks empty. */
    lemma {:induction false} EqualPointersMeanEmpty()
      requires Valid()
      ensures start == end <==> sent == |frames|
      ensures startCsr == end ==> sent == |frames|
    {
      if out < last { Apart(out, last, words.Length); }
      if seen < last { Apart(seen, last, words.Length); }
      if sent < |frames| {
        assert Records(frames[sent..])[0] == FrameLen(|frames[sent]|);
      }
    }

    /** One word further. */
    function After(pos: nat): nat
      requires words.Length > 0
    {
      Mod(pos + 4, Size())
    }

    lemma {:induction false} AfterSlot(x: nat)
      requires Shape()
      ensures After(4 * Slot(x, words.Length)) == 4 * Slot(x + 1, words.Length)
    {
      Advance(x, 1, words.Length);
    }

    /** Words in a row, wrapping at the end of the buffer. */
    method ReadWords(first: nat, count: nat, ghost from: nat, ghost w: seq<Word>) returns (payload: seq<Word>)
      requires Shape() && first == 4 * Slot(from, words.Length) && Holds(from, w) && |w| == count
      ensures payload == w
    {
      var pos := first;
      payload := [];
      while |payload| < count
        invariant |payload| <= count
        invariant pos == 4 * Slot(from + |payload|, words.Length)
        invariant payload == w[..|payload|]
      {
        payload := payload + [words[pos / 4]];
        AfterSlot(from + |payload| - 1);
        pos := After(pos);
      }
    }

    /** The record at START. */
    lemma {:induction false} FirstRecord()
      requires Valid() && sent < |frames|
      ensures var data, rest := frames[sent], frames[sent + 1..];
              && last == out + RecordWords(|data|) + |Records(rest)|
              && Holds(out, Encode(data))
              && Holds(out + RecordWords(|data|), Records(rest))
    {
      var data, rest := frames[sent], frames[sent + 1..];
      assert frames[sent..][0] == data && frames[sent..][1..] == rest;
      SplitHolds(out, Encode(data), Records(rest));
    }

    lemma {:induction false} SplitHolds(from: nat, a: seq<Word>, b: seq<Word>)
      requires Shape() && Holds(from, a + b)
      ensures Holds(from, a) && Holds(from + |a|, b)
    {
      forall k | 0 <= k < |b|
        ensures words[Slot(from + |a| + k, words.Length)] == b[k]
      {
        assert (a + b)[|a| + k] == b[k];
        assert from + (|a| + k) == from + |a| + k;
      }
      forall k | 0 <= k < |a|
        ensures words[Slot(from + k, words.Length)] == a[k]
      {
        assert (a + b)[k] == a[k];
      }
    }

    /** The transmitter at a header: it sends a frame and steps over the record, or refuses a bad
        header and steps over that word alone. */
    method ReadRecord(pos: nat, ghost from: nat, ghost w: seq<Word>) returns (frames: seq<Frame>, next: nat)
      requires Shape() && pos == 4 * Slot(from, words.Length) && w != [] && Holds(from, w)
      requires 0 < w[0] <= 1514 ==> |w| == 1 + (w[0] + 3) / 4
      ensures frames == if 0 < w[0] <= 1514 then [FrameIn(w[1..], w[0])] else []
      ensures next == 4 * Slot(from + if 0 < w[0] <= 1514 then |w| else 1, words.Length)
    {
      var header := words[pos / 4];
      assert header == w[0] by { assert words[Slot(from + 0, words.Length)] == w[0]; }
      AfterSlot(from);
      if BadHeader(header) { return [], After(pos); }
      SplitHolds(from, w[..1], w[1..]) by { assert w[..1] + w[1..] == w; }
      var payload := ReadWords(After(pos), (header + 3) / 4, from + 1, w[1..]);
      frames := [FrameIn(payload, header)];
      Advance(from, |w|, words.Length);
      next := Mod(pos + 4 + (header + 3) / 4 * 4, Size());
    }

    /** At a record that the software wrote, it sends exactly the padded frame. */
    method ReadFrame(pos: nat, ghost from: nat, ghost data: Frame) returns (frames: seq<Frame>, next: nat)
      requires Shape() && pos == 4 * Slot(from, words.Length)
      requires 0 < |data| <= ETHER_MTU && Holds(from, Encode(data))
      ensures frames == [Padded(data)]
      ensures next == 4 * Slot(from + RecordWords(|data|), words.Length)
    {
      PayloadIsPadded(data, Encode(data)[1..]);
      frames, next := ReadRecord(pos, from, Encode(data));
    }

    /** The transmitter sends the record at START and moves START over it. */
    method Transmit()
      requires Valid() && start != end
      modifies this`start, this`cable, this`sent, this`out
      ensures Valid() && sent == old(sent) + 1 && out > old(out)
    {
      EqualPointersMeanEmpty();
      FirstRecord();
      ghost var data := frames[sent];
      OnCableStep(frames, sent);
      var frame, next := ReadFrame(start, out, data);
      cable, start := cable + frame, next;
      out, sent := out + RecordWords(|data|), sent + 1;
    }

    /** The other side of the ring, at work between any two steps of the software: some records go out,
        and the START register may catch up with the transmitter. */
    method Interfere()
      requires Valid()
      modifies this`start, this`startCsr, this`cable, this`sent, this`out, this`seen
      ensures Valid() && sent >= old(sent) && out >= old(out) && seen >= old(seen)
    {
      var records: nat := *;
      while records > 0 && start != end
        invariant Valid() && sent >= old(sent) && out >= old(out) && seen == old(seen)
        decreases records
      {
        Transmit();
        records := records - 1;
      }
      if * {
        startCsr := start;
        seen := out;
      }
    }

    /** What the software computes from a register before it trusts it: (v & (size - 1)) & ~3. */
    function Clean(v: nat): nat
      requires words.Length > 0
    {
      Mod(v, Size()) / 4 * 4
    }

    /** Whatever a register holds: the whole word of the ring that it points into. */
    lemma {:induction false} CleanIs(v: nat)
      requires Shape()
      ensures Clean(v) % 4 == 0 && Clean(v) <= v % Size() < Clean(v) + 4 && Clean(v) < Size()
    {
      ModIsRemainder(v, Size());
    }

    /** The free bytes, from two register reads. */
    function FreeBytes(s: nat, e: nat): int
      requires words.Length > 0 && s <= Size()
    {
      Size() - Mod(e + Size() - s, Size()) - 4
    }

    /** A START read earlier is only too pessimistic. */
    lemma {:induction false} FreeIsRoom(s: nat, before: nat)
      requires Valid() && before <= seen && last < before + words.Length
      requires s == 4 * Slot(before, words.Length)
      ensures Clean(s) == s && Clean(end) == end
      ensures FreeBytes(s, end) == 4 * (words.Length - 1 - (last - before))
    {
      Distance(before, last, words.Length);
    }

    /** Write one frame behind END, while the transmitter goes on reading.  END does not move yet, so
        the transmitter cannot see any of it. */
    method EnqueueOne(data: Frame, ghost record: seq<Word>) returns (newEnd: nat)
      requires Valid() && 0 < |data| <= ETHER_MTU
      requires |record| == RecordWords(|data|) && record[0] == FrameLen(|data|)
      requires forall k :: 0 < k < |record| ==> record[k] == WordAt(data, k - 1)
      requires last + |record| < seen + words.Length
      modifies words, this`start, this`startCsr, this`cable, this`sent, this`out, this`seen
      ensures Valid() && seen >= old(seen) && Holds(last, record)
      ensures newEnd == 4 * Slot(last + |record|, words.Length)
    {
      ExtendPrefix(record, 0);
      newEnd := Put(end, FrameLen(|data|), record[..0]);
      var k := 1;
      while k < RecordWords(|data|)
        invariant 1 <= k <= |record|
        invariant Valid() && seen >= old(seen)
        invariant newEnd == 4 * Slot(last + k, words.Length)
        invariant Holds(last, record[..k])
      {
        newEnd := PutPayload(data, k, newEnd, record);
        k := k + 1;
      }
      Interfere();
      assert record[..k] == record;
    }

    /** One payload word, after whatever the transmitter did meanwhile. */
    method PutPayload(data: Frame, k: nat, pos: nat, ghost record: seq<Word>) returns (next: nat)
      requires Valid() && 0 < k < |record| && record[k] == WordAt(data, k - 1)
      requires last + |record| < seen + words.Length
      requires pos == 4 * Slot(last + k, words.Length) && Holds(last, record[..k])
      modifies words, this`start, this`startCsr, this`cable, this`sent, this`out, this`seen
      ensures Valid() && seen >= old(seen) && Holds(last, record[..k + 1])
      ensures next == 4 * Slot(last + (k + 1), words.Length)
    {
      var word := PackWord(data, k - 1);
      Interfere();
      ExtendPrefix(record, k);
      next := Put(pos, word, record[..k]);
    }

    /** Four bytes of the frame, zeros beyond its end. */
    method PackWord(data: Frame, k: nat) returns (word: Word)
      ensures word == WordAt(data, k)
    {
      word := 0;
      var shift := 1;
      var i := 0;
      while i < 4
        invariant 0 <= i <= 4
        invariant shift == match i case 0 => 1 case 1 => 0x100 case 2 => 0x1_0000 case 3 => 0x100_0000 case _ => TWO32
        invariant word == (if i > 0 then ByteAt(data, 4 * k) else 0)
                        + (if i > 1 then 0x100 * ByteAt(data, 4 * k + 1) else 0)
                        + (if i > 2 then 0x1_0000 * ByteAt(data, 4 * k + 2) else 0)
                        + (if i > 3 then 0x100_0000 * ByteAt(data, 4 * k + 3) else 0)
      {
        word := word + ByteAt(data, 4 * k + i) * shift;
        shift := shift * 0x100;
        i := i + 1;
      }
    }

    /** A write at word number `x` leaves the words before it alone, up to a whole ring back. */
    lemma {:induction false} HoldsStill(before: seq<Word>, from: nat, w: seq<Word>, x: nat)
      requires Shape() && |before| == words.Length && from + |w| <= x < from + words.Length
      requires forall k :: 0 <= k < |w| ==> before[Slot(from + k, words.Length)] == w[k]
      requires forall s :: 0 <= s < words.Length && s != Slot(x, words.Length) ==> words[s] == before[s]
      ensures Holds(from, w)
    {
      forall k | 0 <= k < |w|
        ensures words[Slot(from + k, words.Length)] == w[k]
      {
        Apart(from + k, x, words.Length);
      }
    }

    lemma {:induction false} OneMoreWord(from: nat, w: seq<Word>, word: Word)
      requires Shape() && Holds(from, w) && words[Slot(from + |w|, words.Length)] == word
      ensures Holds(from, w + [word])
    {
    }

    /** Write the word that follows `w` behind END; no unread word changes. */
    method Put(pos: nat, word: Word, ghost w: seq<Word>) returns (next: nat)
      requires Valid() && Holds(last, w) && last + |w| + 1 < seen + words.Length
      requires pos == 4 * Slot(last + |w|, words.Length)
      modifies words
      ensures Valid() && Holds(last, w + [word])
      ensures next == 4 * Slot(last + (|w| + 1), words.Length)
    {
      ghost var x := last + |w|;
      ghost var before := words[..];
      words[pos / 4] := word;
      HoldsStill(before, out, Records(frames[sent..]), x);
      HoldsStill(before, last, w, x);
      OneMoreWord(last, w, word);
      AfterSlot(x);
      next := After(pos);
    }

    /** Move END over the frame that was just written. */
    method Publish(data: Frame, newEnd: nat)
      requires Valid() && 0 < |data| <= ETHER_MTU && Holds(last, Encode(data))
      requires last + RecordWords(|data|) < seen + words.Length
      requires newEnd == 4 * Slot(last + RecordWords(|data|), words.Length)
      modifies this`end, this`frames, this`last
      ensures Valid() && frames == old(frames) + [data]
    {
      OneMoreFrame(data);
      end := newEnd;
      frames, last := frames + [data], last + RecordWords(|data|);
    }

    /** The records of the frames that are not out, with one frame more. */
    lemma {:induction false} OneMoreFrame(data: Frame)
      requires Valid() && 0 < |data| <= ETHER_MTU && Holds(last, Encode(data))
      ensures var more := frames + [data];
              && Sendable(more) && more[..sent] == frames[..sent]
              && Records(more[sent..]) == Records(frames[sent..]) + Encode(data)
              && Holds(out, Records(more[sent..]))
    {
      RecordsConcat(frames[sent..], [data]);
      JoinHolds(out, Records(frames[sent..]), Encode(data));
      assert (frames + [data])[sent..] == frames[sent..] + [data];
      assert Records([data]) == Encode(data) by { assert Encode(data) + [] == Encode(data); }
    }

    lemma {:induction false} JoinHolds(from: nat, a: seq<Word>, b: seq<Word>)
      requires Shape() && Holds(from, a) && Holds(from + |a|, b)
      ensures Holds(from, a + b)
    {
      forall k | 0 <= k < |a + b|
        ensures words[Slot(from + k, words.Length)] == (a + b)[k]
      {
        if k >= |a| {
          assert from + k == from + |a| + (k - |a|);
          assert words[Slot(from + |a| + (k - |a|), words.Length)] == b[k - |a|];
        }
      }
    }

    /** One attempt: read the pointers, and queue the frame if its record fits.  It fits exactly when
        the ring as START showed it at the beginning has room. */
    method TryOne(data: Frame) returns (ok: bool)
      requires Valid() && 0 < |data| <= ETHER_MTU
      modifies words, this`start, this`startCsr, this`end, this`cable
      modifies this`frames, this`sent, this`out, this`seen, this`last
      ensures Valid() && frames == if ok then old(frames) + [data] else old(frames)
      ensures ok <==> old(last + RecordWords(|data|) < seen + words.Length)
      ensures !ok ==> last == old(last) && seen >= old(seen)
    {
      var s := startCsr;
      ghost var before := seen;
      Interfere();
      var e := end;
      FreeIsRoom(s, before);
      s, e := Clean(s), Clean(e);
      ok := FreeBytes(s, e) >= 4 * RecordWords(|data|);
      if ok {
        var newEnd := EnqueueOne(data, Encode(data));
        Publish(data, newEnd);
      }
    }

    /** The transmitter makes progress: as long as something is unsent or unreported, START moves. */
    method Await()
      requires Valid()
      modifies this`start, this`startCsr, this`cable, this`sent, this`out, this`seen
      ensures Valid() && (seen > old(seen) || seen == last)
    {
      if startCsr == start && start != end {
        if seen < out { Apart(seen, out, words.Length); }
        Transmit();
      }
      if startCsr == start {
        if seen < out { Apart(seen, out, words.Length); }
        if out < last { Apart(out, last, words.Length); }
      }
      startCsr := start;
      seen := out;
    }

    /** The boot ROM's ether_tx: any payload, in frames of at most one MTU, waiting for room. */
    method EtherTx(data: seq<Byte>)
      requires Valid()
      modifies words, this`start, this`startCsr, this`end, this`cable
      modifies this`frames, this`sent, this`out, this`seen, this`last
      ensures Valid() && frames == old(frames) + Chunks(data)
    {
      var rest := data;
      while |rest| > 0
        invariant Valid() && frames + Chunks(rest) == old(frames) + Chunks(data)
        decreases |rest|
      {
        var len := if |rest| > ETHER_MTU then ETHER_MTU else |rest|;
        ghost var before := frames;
        var done := false;
        while !done
          invariant Valid() && frames == if done then before + [rest[..len]] else before
          decreases !done, last - seen
        {
          done := TryOne(rest[..len]);
          if !done { Await(); }
        }
        ChunksStep(before, rest, len);
        rest := rest[len..];
      }
    }

    /** The driver's transmit hook: it drops, queues, or asks to be called again.  A ring that has
        drained is never busy. */
    method StartXmit(data: Frame) returns (status: Status)
      requires Valid()
      modifies words, this`start, this`startCsr, this`end, this`cable
      modifies this`frames, this`sent, this`out, this`seen, this`last
      ensures Valid()
      ensures status == Dropped <==> |data| == 0 || |data| > 1514
      ensures status == Busy <==>
                0 < |data| <= 1514 && old(last + RecordWords(|data|) >= seen + words.Length)
      ensures status == Busy ==> old(seen < last)
      ensures frames == if status == Queued then old(frames) + [data] else old(frames)
    {
      if |data| == 0 || |data| > ETHER_MTU { return Dropped; }
      var ok := TryOne(data);
      status := if ok then Queued else Busy;
    }
  }

  datatype Status = Queued | Busy | Dropped
}
