/** The loop that copies a received frame out of a ring of words, four bytes at a time. */
module RxCopy {
  import opened Words
  import opened Bytes
  import opened TxRecords
  import opened TxRing

  lemma {:induction false} SlotIsMod(x: nat, n: nat)
    requires n > 0
    ensures Slot(x, n) == Mod(x, n)
  {
    if x < n {
      SlotPlus(0, x, n);
    } else {
      SlotIsMod(x - n, n);
      SlotPlus(x - n, n - 1, n);
    }
  }

  /** Byte address arithmetic and word address arithmetic wrap together. */
  lemma {:induction false} ByteInRing(x: nat, r: nat, n: nat)
    requires n > 0 && r < 4
    ensures Mod(4 * x + r, 4 * n) == 4 * Slot(x, n) + r
  {
    SlotIsMod(x, n);
    if x >= n {
      ByteInRing(x - n, r, n);
      SlotIsMod(x - n, n);
    }
  }

  lemma {:induction false} NextWord(x: nat, n: nat)
    requires n > 0
    ensures Mod(Slot(x, n) + 1, n) == Slot(x + 1, n)
  {
    if Slot(x, n) + 1 == n { assert Mod(0, n) == 0; }
  }

  /** The byte `i` places after `start`, around the end of the ring. */
  function RingByte(ring: seq<Word>, start: nat, i: nat): Byte
    requires |ring| > 0
  {
    Unpack(ring, Mod(start + i, 4 * |ring|))
  }

  lemma {:induction false} ByteOfWord(ring: seq<Word>, start: nat, taken: nat, r: nat)
    requires |ring| > 0 && start % 4 == 0 && r < 4
    ensures RingByte(ring, start, 4 * taken + r) == WordByte(ring[Slot(start / 4 + taken, |ring|)], r)
  {
    var x := start / 4 + taken;
    assert start + (4 * taken + r) == 4 * x + r;
    ByteInRing(x, r, |ring|);
  }

  /** The wanted bytes from `at` on, up to four of them, are those of the word. */
  ghost predicate NextFour(want: seq<Byte>, at: nat, word: Word) {
    forall i :: at <= i < at + 4 && i < |want| ==> want[i] == WordByte(word, i - at)
  }

  lemma {:induction false} FourBytes(ring: seq<Word>, start: nat, taken: nat, want: seq<Byte>)
    requires |ring| > 0 && start % 4 == 0
    requires forall i :: 0 <= i < |want| ==> want[i] == RingByte(ring, start, i)
    ensures NextFour(want, 4 * taken, ring[Slot(start / 4 + taken, |ring|)])
  {
    forall i | 4 * taken <= i < 4 * taken + 4 && i < |want|
      ensures want[i] == WordByte(ring[Slot(start / 4 + taken, |ring|)], i - 4 * taken)
    {
      ByteOfWord(ring, start, taken, i - 4 * taken);
    }
  }

  /** One conditional byte of the source's unrolled copy. */
  method TakeByte(buf: seq<Byte>, len: nat, word: Word, r: nat, ghost want: seq<Byte>) returns (next: seq<Byte>)
    requires |want| == len && |buf| <= len && buf == want[..|buf|] && r < 4
    requires |buf| < len ==> WordByte(word, r) == want[|buf|]
    ensures |next| == (if |buf| < len then |buf| + 1 else |buf|) && next == want[..|next|]
  {
    next := buf;
    if |buf| < len {
      ExtendPrefix(want, |buf|);
      next := buf + [WordByte(word, r)];
    }
  }

  method TakeWord(buf: seq<Byte>, len: nat, word: Word, ghost want: seq<Byte>) returns (next: seq<Byte>)
    requires |want| == len && |buf| <= len && buf == want[..|buf|]
    requires NextFour(want, |buf|, word)
    ensures |next| == (if |buf| + 4 < len then |buf| + 4 else len) && next == want[..|next|]
  {
    next := TakeByte(buf, len, word, 0, want);
    next := TakeByte(next, len, word, 1, want);
    next := TakeByte(next, len, word, 2, want);
    next := TakeByte(next, len, word, 3, want);
  }

  method CopyOut(words: array<Word>, start: nat, len: nat) returns (buf: seq<Byte>)
    requires words.Length > 0 && start < 4 * words.Length && start % 4 == 0
    ensures |buf| == len
    ensures forall i :: 0 <= i < len ==> buf[i] == RingByte(words[..], start, i)
  {
    buf := [];
    var index := start / 4;
    ghost var ring := words[..];
    ghost var first, taken := index, 0;
    ghost var want: seq<Byte> := seq(len, i requires 0 <= i < len => RingByte(ring, start, i));
    SlotPlus(0, index, words.Length);
    while |buf| < len
      invariant |buf| == (if 4 * taken < len then 4 * taken else len)
      invariant index == Slot(first + taken, words.Length)
      invariant buf == want[..|buf|]
    {
      FourBytes(ring, start, taken, want);
      buf := TakeWord(buf, len, words[index], want);
      NextWord(first + taken, words.Length);
      taken := taken + 1;
      index := Mod(index + 1, words.Length);
    }
  }
}
