/** The SD store transfer of the terminal: a writer thread that sends one chunk per "!\n" which the
    reader thread finds in the serial stream, with a semaphore between them. */
module StoreAck {
  import opened Powers
  import opened Bytes
  import opened Words
  import opened LoadSignal

  const FNV1A32_OFFSET: Word := 0x811C9DC5
  const FNV1A32_PRIME: nat := 0x01000193

  function Round(h: Word, b: Byte): Word {
    Xor(h, b) * FNV1A32_PRIME % TWO32
  }

  /** 32-bit FNV-1a of `data`, continued from `h`. */
  function Fnv(h: Word, data: seq<Byte>): Word {
    if data == [] then h else Round(Fnv(h, data[..|data| - 1]), data[|data| - 1])
  }

  /** A round first changes the low eight bits, by the byte, and then multiplies. */
  lemma {:induction false} RoundIs(h: Word, b: Byte)
    ensures Round(h, b) == (h - h % 0x100 + XorBits(h % 0x100, b, 8)) * 0x0100_0193 % 0x1_0000_0000
  {
    PowFacts();
    assert Pow2(8) == 0x100;
    XorLow(h, b, 8, 32);
  }

  /** Hashing piece by piece is hashing the whole. */
  lemma {:induction false} FnvConcat(h: Word, a: seq<Byte>, b: seq<Byte>)
    ensures Fnv(h, a + b) == Fnv(Fnv(h, a), b)
  {
    if b == [] {
      assert a + b == a;
    } else {
      assert (a + b)[..|a + b| - 1] == a + b[..|b| - 1];
      FnvConcat(h, a, b[..|b| - 1]);
    }
  }

  method Fnv1a32Update(hash: Word, data: seq<Byte>) returns (h: Word)
    ensures h == Fnv(hash, data)
  {
    h := hash;
    var i := 0;
    while i < |data|
      invariant 0 <= i <= |data| && h == Fnv(hash, data[..i])
    {
      var x := Xor(h, data[i]);
      h := x * FNV1A32_PRIME % TWO32;
      i := i + 1;
      assert data[..i][..i - 1] == data[..i - 1];
    }
    assert data[..i] == data;
  }

  /** The file as it reads, the size that was looked up beforehand, the size the user announced, and the
      bytes per acknowledgement. */
  datatype Job = Job(content: seq<Byte>, fileSize: nat, expected: Announced, chunkSize: nat) {
    predicate SizeRefused() { expected.Size? && expected.bytes != fileSize }

    /** What the next read of the file returns. */
    function Chunk(sent: nat): seq<Byte>
      requires sent <= |content| && sent <= fileSize
    {
      content[sent..Min(sent + Min(chunkSize, fileSize - sent), |content|)]
    }
  }

  datatype Announced = Unknown | Size(bytes: nat)

  function Min(a: nat, b: nat): nat { if a <= b then a else b }

  /** Where the writer is: waiting for a permit, holding one, between the write and the bookkeeping, or
      returned. */
  datatype Pc = Waiting | Granted | Written(chunk: seq<Byte>) | Returned(ok: bool)

  /** `received` and `acquired` are logs: the bytes the reader has read, and the permits taken. `broken`
      says that the user aborted or the port failed. */
  datatype Session = Session(
    received: seq<Byte>, split: Split, owed: nat,
    permits: nat,
    pc: Pc, sent: nat, hash: Word, acquired: nat, broken: bool,
    wire: seq<Byte>)

  /** One atomic step of either thread. */
  datatype Event =
    | Read(data: seq<Byte>)
    | Release
    | Acquire
    | Write
    | WriteFails(written: nat)
    | Account
    | Finish
    | Abort

  function Start(j: Job): Session {
    Session([], Split(0, [], []), 0, 0,
            if j.SizeRefused() then Returned(false) else Waiting, 0, FNV1A32_OFFSET, 0, false, [])
  }

  /** The reader releases all permits of one read before it reads again; the writer is sequential. */
  predicate Enabled(j: Job, s: Session, e: Event) {
    match e
    case Read(data) => s.owed == 0
    case Release => s.owed > 0
    case Acquire => s.pc.Waiting? && s.sent < j.fileSize && s.permits > 0
    case Write => s.pc.Granted? && s.sent <= |j.content| && s.sent <= j.fileSize
    case WriteFails(n) =>
      s.pc.Granted? && s.sent <= |j.content| && s.sent <= j.fileSize && n <= |j.Chunk(s.sent)|
    case Account => s.pc.Written?
    case Finish => s.pc.Waiting? && s.sent >= j.fileSize
    case Abort => s.pc.Waiting? && s.sent < j.fileSize
  }

  function Step(j: Job, s: Session, e: Event): Session
    requires Enabled(j, s, e)
  {
    match e
    case Read(data) =>
      s.(received := s.received + data, split := Feed(s.split, data),
         owed := Scan(s.split.pending + data).count)
    case Release => s.(owed := s.owed - 1, permits := s.permits + 1)
    case Acquire => s.(permits := s.permits - 1, acquired := s.acquired + 1, pc := Granted)
    case Write =>
      var chunk := j.Chunk(s.sent);
      if chunk == [] then s.(pc := Returned(s.sent == j.fileSize))
      else s.(wire := s.wire + chunk, pc := Written(chunk))
    case WriteFails(n) => s.(wire := s.wire + j.Chunk(s.sent)[..n], pc := Returned(false), broken := true)
    case Account =>
      s.(sent := s.sent + |s.pc.chunk|, hash := Fnv(s.hash, s.pc.chunk), pc := Waiting)
    case Finish => s.(pc := Returned(s.sent == j.fileSize))
    case Abort => s.(pc := Returned(false), broken := true)
  }

  ghost predicate IsRun(j: Job, tr: seq<Session>, events: seq<Event>) {
    && |tr| == |events| + 1 && tr[0] == Start(j)
    && forall k | 0 <= k < |events| :: Enabled(j, tr[k], events[k]) && tr[k + 1] == Step(j, tr[k], events[k])
  }

  /** The reader has split exactly what it read, and every signal is a permit owed, free or taken. */
  ghost predicate ReaderInv(s: Session) {
    s.split == Scan(s.received) && s.owed + s.permits + s.acquired == s.split.count
  }

  /** The wire carries a prefix of the file: the accounted bytes, and the chunk in between. */
  ghost predicate WireInv(j: Job, s: Session) {
    && s.sent <= |j.content| && s.sent <= j.fileSize
    && s.hash == Fnv(FNV1A32_OFFSET, j.content[..s.sent])
    && match s.pc
       case Waiting => s.wire == j.content[..s.sent] && !s.broken
       case Granted => s.wire == j.content[..s.sent] && s.sent < j.fileSize && !s.broken
       case Written(chunk) =>
         && chunk == j.Chunk(s.sent) && chunk != [] && !s.broken
         && s.wire == j.content[..s.sent] + chunk
       case Returned(ok) =>
         && s.wire <= j.content && |s.wire| <= j.fileSize
         && (ok ==> s.sent == j.fileSize && s.wire == j.content[..s.sent])
         && (!ok ==> s.broken || j.SizeRefused() || j.chunkSize == 0 || |j.content| < j.fileSize)
  }

  /** Chunks paid for by permits. */
  ghost predicate PaceInv(j: Job, s: Session) {
    if s.pc.Granted? then |s.wire| + j.chunkSize <= s.acquired * j.chunkSize
    else |s.wire| <= s.acquired * j.chunkSize
  }

  lemma {:induction false} StepReader(j: Job, s: Session, e: Event)
    requires Enabled(j, s, e) && ReaderInv(s)
    ensures ReaderInv(Step(j, s, e))
  {
    if e.Read? { ScanConcat(s.received, e.data); }
  }

  lemma {:induction false} StepPace(j: Job, s: Session, e: Event)
    requires Enabled(j, s, e) && PaceInv(j, s)
    ensures PaceInv(j, Step(j, s, e))
  {
    if e.Acquire? { MulLess(s.acquired, s.acquired + 1, j.chunkSize); }
  }

  /** A part of the next chunk follows what was sent. */
  lemma {:induction false} ChunkPart(j: Job, sent: nat, n: nat)
    requires sent <= |j.content| && sent <= j.fileSize && n <= |j.Chunk(sent)|
    ensures j.content[..sent] + j.Chunk(sent)[..n] == j.content[..sent + n]
    ensures sent + n <= j.fileSize && j.Chunk(sent)[..|j.Chunk(sent)|] == j.Chunk(sent)
  {
  }

  lemma {:induction false} AccountedBytes(j: Job, s: Session)
    requires WireInv(j, s) && s.pc.Written?
    ensures var n := Step(j, s, Account);
            && n.sent <= |j.content| && n.sent <= j.fileSize && n.wire == j.content[..n.sent]
            && j.content[..n.sent] == j.content[..s.sent] + s.pc.chunk
  {
    ChunkPart(j, s.sent, |s.pc.chunk|);
  }

  lemma {:induction false} HashPart(a: seq<Byte>, b: seq<Byte>, c: seq<Byte>, h: Word)
    requires c == a + b && h == Fnv(FNV1A32_OFFSET, a)
    ensures Fnv(FNV1A32_OFFSET, c) == Fnv(h, b)
  {
    FnvConcat(FNV1A32_OFFSET, a, b);
  }

  lemma {:induction false} AccountKeepsWire(j: Job, s: Session)
    requires WireInv(j, s) && s.pc.Written?
    ensures WireInv(j, Step(j, s, Account))
  {
    AccountedBytes(j, s);
    HashPart(j.content[..s.sent], s.pc.chunk, j.content[..Step(j, s, Account).sent], s.hash);
  }

  lemma {:induction false} FailedWriteKeepsWire(j: Job, s: Session, n: nat)
    requires Enabled(j, s, WriteFails(n)) && WireInv(j, s)
    ensures WireInv(j, Step(j, s, WriteFails(n)))
  {
    ChunkPart(j, s.sent, n);
  }

  lemma {:induction false} WriteKeepsWire(j: Job, s: Session)
    requires Enabled(j, s, Write) && WireInv(j, s)
    ensures WireInv(j, Step(j, s, Write))
  {
  }

  lemma {:induction false} StepWire(j: Job, s: Session, e: Event)
    requires Enabled(j, s, e) && WireInv(j, s)
    ensures WireInv(j, Step(j, s, e))
  {
    match e
    case Write => WriteKeepsWire(j, s);
    case WriteFails(n) => FailedWriteKeepsWire(j, s, n);
    case Account => AccountKeepsWire(j, s);
    case _ =>
  }

  lemma {:induction false} RunKeeps(j: Job, tr: seq<Session>, events: seq<Event>, k: nat)
    requires IsRun(j, tr, events) && k < |tr|
    ensures ReaderInv(tr[k]) && WireInv(j, tr[k]) && PaceInv(j, tr[k])
  {
    if k > 0 {
      RunKeeps(j, tr, events, k - 1);
      StepReader(j, tr[k - 1], events[k - 1]);
      StepWire(j, tr[k - 1], events[k - 1]);
      StepPace(j, tr[k - 1], events[k - 1]);
    }
  }

  lemma {:induction false} PaidFor(j: Job, s: Session)
    requires ReaderInv(s) && PaceInv(j, s)
    ensures |s.wire| <= |Occurrences(s.received)| * j.chunkSize
    ensures s.split.visible == Screen(s.received, |s.received|)
  {
    ScanMeetsReference(s.received);
    MulMono(s.acquired, s.split.count, j.chunkSize);
  }

  /** At every moment of every interleaving: no more bytes on the wire than one chunk for each signal in
      the bytes received, and the screen shows those bytes without the signals. */
  lemma {:induction false} OneChunkPerSignal(j: Job, tr: seq<Session>, events: seq<Event>, k: nat)
    requires IsRun(j, tr, events) && k < |tr|
    ensures |tr[k].wire| <= |Occurrences(tr[k].received)| * j.chunkSize
    ensures tr[k].split.visible == Screen(tr[k].received, |tr[k].received|)
  {
    RunKeeps(j, tr, events, k);
    PaidFor(j, tr[k]);
  }

  /** True means that the wire carried the file as long as it was when its size was looked up, which is the
      whole file unless it has grown since, and the printed hash is the one-pass FNV-1a of that; false
      means that something went wrong that the caller can name. */
  lemma {:induction false} ResultIsHonest(j: Job, tr: seq<Session>, events: seq<Event>, k: nat)
    requires IsRun(j, tr, events) && k < |tr| && tr[k].pc.Returned?
    ensures tr[k].wire <= j.content
    ensures tr[k].pc.ok ==> j.fileSize <= |j.content| && tr[k].wire == j.content[..j.fileSize]
    ensures tr[k].pc.ok ==> (tr[k].wire == j.content <==> |j.content| == j.fileSize)
    ensures tr[k].pc.ok ==> tr[k].hash == Fnv(0x811C_9DC5, tr[k].wire)
    ensures !tr[k].pc.ok ==> tr[k].broken || j.SizeRefused() || j.chunkSize == 0 || |j.content| < j.fileSize
  {
    RunKeeps(j, tr, events, k);
  }

  /** A file that has not the announced size is refused before anything is sent, and for good. */
  lemma {:induction false} WrongSizeIsRefused(j: Job, tr: seq<Session>, events: seq<Event>, k: nat)
    requires IsRun(j, tr, events) && k < |tr| && j.expected.Size? && j.expected.bytes != j.fileSize
    ensures tr[k].pc == Returned(false) && tr[k].wire == []
  {
    if k > 0 { WrongSizeIsRefused(j, tr, events, k - 1); }
  }

  /** With the right size, or none announced, False means that the session was broken, that a chunk has no bytes,
      or that the file has shrunk since its size was looked up. */
  lemma {:induction false} RightSizeFailsForCause(j: Job, tr: seq<Session>, events: seq<Event>, k: nat)
    requires IsRun(j, tr, events) && k < |tr| && tr[k].pc == Returned(false)
    requires j.expected.Unknown? || j.expected.bytes == j.fileSize
    ensures tr[k].broken || j.chunkSize == 0 || |j.content| < j.fileSize
  {
    RunKeeps(j, tr, events, k);
  }

  /** Permits whose chunk is on the wire. */
  function Used(s: Session): int { s.acquired - if s.pc.Granted? then 1 else 0 }

  /** As many whole chunks as there were permits used, up to the end of the file. */
  ghost predicate FullInv(j: Job, s: Session) {
    && Used(s) >= 0
    && (!s.pc.Returned? ==> |s.wire| == Min(Used(s) * j.chunkSize, Min(j.fileSize, |j.content|)))
  }

  lemma {:induction false} WriteFull(j: Job, s: Session)
    requires Enabled(j, s, Write) && FullInv(j, s) && WireInv(j, s)
    ensures FullInv(j, Step(j, s, Write))
  {
    TimesNext(Used(s), j.chunkSize);
    OneMoreChunk(Used(s) * j.chunkSize, j.chunkSize, j.fileSize, |j.content|, s.sent, |j.Chunk(s.sent)|);
  }

  lemma {:induction false} OneMoreChunk(p: nat, c: nat, size: nat, len: nat, sent: nat, n: nat)
    requires sent == Min(p, Min(size, len)) && n == Min(sent + Min(c, size - sent), len) - sent
    ensures sent + n == Min(p + c, Min(size, len))
  {
  }

  lemma {:induction false} NothingUsed(j: Job, s: Session, n: Session)
    requires FullInv(j, s) && !s.pc.Returned? && Used(n) == Used(s) && n.wire == s.wire
    ensures FullInv(j, n)
  {
  }

  lemma {:induction false} StepFull(j: Job, s: Session, e: Event)
    requires Enabled(j, s, e) && FullInv(j, s) && WireInv(j, s)
    ensures FullInv(j, Step(j, s, e))
  {
    if e.Write? {
      WriteFull(j, s);
    } else if !Step(j, s, e).pc.Returned? {
      NothingUsed(j, s, Step(j, s, e));
    }
  }

  /** Every permit but the last moves a whole chunk. */
  lemma {:induction false} EveryChunkIsFull(j: Job, tr: seq<Session>, events: seq<Event>, k: nat)
    requires IsRun(j, tr, events) && k < |tr|
    ensures FullInv(j, tr[k])
  {
    if k > 0 {
      EveryChunkIsFull(j, tr, events, k - 1);
      RunKeeps(j, tr, events, k - 1);
      StepFull(j, tr[k - 1], events[k - 1]);
    }
  }
}
