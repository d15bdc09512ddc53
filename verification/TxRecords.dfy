/** The records of the Ethernet TX ring: a header word with the frame length, then the frame packed
    four bytes to a word, little-endian, with zeros up to 60 bytes and up to a whole word. */
module TxRecords {
  import opened Words
  import opened Bytes

  const ETHER_MTU: nat := 1514
  const MIN_FRAME: nat := 60

  type Frame = seq<Byte>

  function FrameLen(n: nat): nat { if n < MIN_FRAME then MIN_FRAME else n }

  /** The length of a record in words; in bytes it is 4 + ((frame_len + 3) & ~3). */
  function RecordWords(n: nat): nat { 1 + (FrameLen(n) + 3) / 4 }

  function ByteAt(data: Frame, i: nat): Byte { if i < |data| then data[i] else 0 }

  function WordAt(data: Frame, k: nat): Word {
    WordOf(ByteAt(data, 4 * k), ByteAt(data, 4 * k + 1), ByteAt(data, 4 * k + 2), ByteAt(data, 4 * k + 3))
  }

  /** The record of a frame. */
  function Encode(data: Frame): (r: seq<Word>)
    requires |data| <= ETHER_MTU
    ensures |r| == RecordWords(|data|)
  {
    [FrameLen(|data|)] + seq(RecordWords(|data|) - 1, k requires 0 <= k => WordAt(data, k))
  }

  /** What the frame looks like on the cable. */
  function Padded(data: Frame): Frame {
    data + seq(FrameLen(|data|) - |data|, _ => 0)
  }

  /** Byte `i` of a stretch of words. */
  function Unpack(words: seq<Word>, i: nat): Byte
    requires i / 4 < |words|
  {
    WordByte(words[i / 4], i % 4)
  }

  function FrameIn(words: seq<Word>, len: nat): Frame
    requires (len + 3) / 4 <= |words|
  {
    seq(len, i requires 0 <= i < len => Unpack(words, i))
  }

  /** A header that the transmitter refuses; it then steps over the header alone. */
  predicate BadHeader(w: Word) { w == 0 || w > ETHER_MTU }

  /** The reader's side: what the transmitter sends for the words from START to END. */
  function Decode(words: seq<Word>): seq<Frame>
    decreases |words|
  {
    if words == [] then []
    else if BadHeader(words[0]) then Decode(words[1..])
    else if 1 + (words[0] + 3) / 4 > |words| then []
    else
      [FrameIn(words[1..], words[0])] + Decode(words[1 + (words[0] + 3) / 4..])
  }

  predicate Sendable(frames: seq<Frame>) {
    forall i :: 0 <= i < |frames| ==> 0 < |frames[i]| <= ETHER_MTU
  }

  /** All records of a sequence of frames. */
  function Records(frames: seq<Frame>): seq<Word>
    requires Sendable(frames)
  {
    if frames == [] then [] else Encode(frames[0]) + Records(frames[1..])
  }

  function OnCable(frames: seq<Frame>): seq<Frame> {
    seq(|frames|, i requires 0 <= i < |frames| => Padded(frames[i]))
  }

  lemma {:induction false} OnCableStep(frames: seq<Frame>, k: nat)
    requires k < |frames|
    ensures OnCable(frames[..k + 1]) == OnCable(frames[..k]) + [Padded(frames[k])]
  {
  }

  lemma {:induction false} FirstOnCable(frames: seq<Frame>)
    requires frames != []
    ensures OnCable(frames) == [Padded(frames[0])] + OnCable(frames[1..])
  {
  }

  lemma {:induction false} ExtendPrefix<T>(s: seq<T>, k: nat)
    requires k < |s|
    ensures |s[..k]| == k && s[..k] + [s[k]] == s[..k + 1]
    ensures |s| == k + 1 ==> s[..k + 1] == s
  {
  }

  lemma {:induction false} UnpackWordAt(data: Frame, words: seq<Word>, i: nat)
    requires i / 4 < |words| && words[i / 4] == WordAt(data, i / 4)
    ensures Unpack(words, i) == ByteAt(data, i)
  {
    var k, r := i / 4, i % 4;
    BytesOfWord(ByteAt(data, 4 * k), ByteAt(data, 4 * k + 1), ByteAt(data, 4 * k + 2), ByteAt(data, 4 * k + 3));
    assert i == 4 * k + r && (r == 0 || r == 1 || r == 2 || r == 3);
  }

  lemma {:induction false} PayloadIsPadded(data: Frame, words: seq<Word>)
    requires |data| <= ETHER_MTU
    requires RecordWords(|data|) - 1 <= |words| && words[..RecordWords(|data|) - 1] == Encode(data)[1..]
    ensures FrameIn(words, FrameLen(|data|)) == Padded(data)
  {
    forall i | 0 <= i < FrameLen(|data|)
      ensures Unpack(words, i) == Padded(data)[i]
    {
      assert words[i / 4] == words[..RecordWords(|data|) - 1][i / 4] == WordAt(data, i / 4);
      UnpackWordAt(data, words, i);
    }
  }

  /** A short frame is filled up with zeros to 60 bytes, a longer one goes out as it is. */
  lemma {:induction false} PaddedIs(data: Frame)
    ensures |Padded(data)| == (if |data| < 60 then 60 else |data|) && data <= Padded(data)
    ensures forall i :: |data| <= i < |Padded(data)| ==> Padded(data)[i] == 0
  {
  }

  /** The record: the padded length in the header, and the padded bytes in as many whole words as they need. */
  lemma {:induction false} EncodeIs(data: Frame)
    requires |data| <= 1514
    ensures Encode(data)[0] == (if |data| < 60 then 60 else |data|) == |Padded(data)|
    ensures |Encode(data)| == 1 + (|Padded(data)| + 3) / 4
    ensures forall i :: 0 <= i < 4 * (|Encode(data)| - 1) ==>
              Unpack(Encode(data)[1..], i) == if i < |data| then data[i] else 0
  {
    forall i | 0 <= i < 4 * (|Encode(data)| - 1)
      ensures Unpack(Encode(data)[1..], i) == if i < |data| then data[i] else 0
    {
      UnpackWordAt(data, Encode(data)[1..], i);
    }
  }

  /** The header decides: 0 and anything above 1514 is stepped over alone; otherwise that many bytes of the words
      behind it are a frame, and decoding goes on behind the last of these words. */
  lemma {:induction false} HeaderDecides(words: seq<Word>)
    requires words != []
    ensures words[0] == 0 || words[0] > 1514 ==> Decode(words) == Decode(words[1..])
    ensures var len: nat := words[0]; var n := (len + 3) / 4;
            0 < words[0] <= 1514 && n < |words| ==>
              && Decode(words) == [FrameIn(words[1..], words[0])] + Decode(words[1 + n..])
              && |FrameIn(words[1..], words[0])| == words[0]
              && forall i :: 0 <= i < words[0] ==>
                   FrameIn(words[1..], words[0])[i] == WordByte(words[1..][i / 4], i % 4)
  {
  }

  /** Decoding takes one record off the front and finds the padded frame in it. */
  lemma {:induction false} DecodeRecord(data: Frame, rest: seq<Word>)
    requires 0 < |data| <= ETHER_MTU
    ensures Decode(Encode(data) + rest) == [Padded(data)] + Decode(rest)
  {
    var words := Encode(data) + rest;
    assert words[1..][..RecordWords(|data|) - 1] == Encode(data)[1..];
    PayloadIsPadded(data, words[1..]);
    assert words[RecordWords(|data|)..] == rest;
  }

  /** Round trip: the transmitter reads back exactly the frames that were queued, in order. */
  lemma {:induction false} DecodeRecords(frames: seq<Frame>)
    requires Sendable(frames)
    ensures Decode(Records(frames)) == OnCable(frames)
  {
    if frames != [] {
      DecodeRecord(frames[0], Records(frames[1..]));
      DecodeRecords(frames[1..]);
      FirstOnCable(frames);
    }
  }

  lemma {:induction false} SendableConcat(a: seq<Frame>, b: seq<Frame>)
    requires Sendable(a) && Sendable(b)
    ensures Sendable(a + b)
  {
  }

  lemma {:induction false} Associative(a: seq<Word>, b: seq<Word>, c: seq<Word>)
    ensures (a + b) + c == a + (b + c)
  {
  }

  lemma {:induction false} RecordsConcat(a: seq<Frame>, b: seq<Frame>)
    requires Sendable(a) && Sendable(b)
    ensures Sendable(a + b) && Records(a + b) == Records(a) + Records(b)
  {
    SendableConcat(a, b);
    if a == [] {
      assert a + b == b;
    } else {
      assert (a + b)[0] == a[0] && (a + b)[1..] == a[1..] + b;
      RecordsConcat(a[1..], b);
      Associative(Encode(a[0]), Records(a[1..]), Records(b));
    }
  }

  /** The payload in frames: all but the last of exactly one MTU. */
  function Chunks(data: seq<Byte>): (r: seq<Frame>)
    ensures Sendable(r)
  {
    if data == [] then []
    else
      var len := if |data| > ETHER_MTU then ETHER_MTU else |data|;
      [data[..len]] + Chunks(data[len..])
  }

  function Joined(frames: seq<Frame>): seq<Byte> {
    if frames == [] then [] else frames[0] + Joined(frames[1..])
  }

  /** Splitting loses, adds and reorders nothing, and uses as few frames as it can. */
  lemma {:induction false} ChunksPartition(data: seq<Byte>)
    ensures Joined(Chunks(data)) == data
    ensures |Chunks(data)| == (|data| + ETHER_MTU - 1) / ETHER_MTU
  {
    if data != [] {
      var len := if |data| > ETHER_MTU then ETHER_MTU else |data|;
      ChunksPartition(data[len..]);
      assert data == data[..len] + data[len..];
      assert Chunks(data)[1..] == Chunks(data[len..]);
    }
  }

  lemma {:induction false} ChunksStep(before: seq<Frame>, rest: seq<Byte>, len: nat)
    requires rest != [] && len == if |rest| > ETHER_MTU then ETHER_MTU else |rest|
    ensures before + Chunks(rest) == (before + [rest[..len]]) + Chunks(rest[len..])
  {
    var head, tail := [rest[..len]], Chunks(rest[len..]);
    assert Chunks(rest) == head + tail;
    assert before + (head + tail) == (before + head) + tail;
  }
}
