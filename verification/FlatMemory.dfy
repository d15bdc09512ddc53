/** The reference a cache is measured against: a flat, byte-addressed memory.

    A physical address is kept as the bit fields the hardware slices it into (tag, set index, byte
    offset), so that no cache proof ever divides.  `Join` and `Split` tie the fields to the number. */
module FlatMemory {
  import opened Powers
  import opened Bytes

  const LINE_BYTES := 16

  const ZeroLine: seq<Byte> := [0, 0, 0, 0, 0, 0, 0, 0, 0, 0, 0, 0, 0, 0, 0, 0]
  const AllLanes: seq<bool> :=
    [true, true, true, true, true, true, true, true, true, true, true, true, true, true, true, true]

  type Line = s: seq<Byte> | |s| == 16 witness ZeroLine
  type Strobe = s: seq<bool> | |s| == 16 witness AllLanes

  datatype LineId = LineId(tag: nat, index: nat)
  datatype Addr = Addr(line: LineId, offset: nat)

  /** The numeric address of a bit-field address in a cache of `sets` sets. */
  function Join(sets: nat, a: Addr): nat {
    (a.line.tag * sets + a.line.index) * LINE_BYTES + a.offset
  }

  function Split(sets: nat, v: nat): Addr
    requires sets > 0
  {
    Addr(LineId(v / LINE_BYTES / sets, v / LINE_BYTES % sets), v % LINE_BYTES)
  }

  /** The address decode of the cache, on line numbers: everything from 16 MiB up is a peripheral,
      except the 256 MiB block that starts at 0x8000_0000. */
  predicate Peripheral(sets: nat, id: LineId) {
    var l := id.tag * sets + id.index;
    l / 0x10_0000 != 0 && l / 0x100_0000 != 8
  }

  function Merge(line: Line, data: Line, strb: Strobe): Line {
    seq(16, k requires 0 <= k < 16 => if strb[k] then data[k] else line[k])
  }

  /** Main memory; a line that was never written reads as zero. */
  type Memory = map<LineId, Line>

  function At(m: Memory, id: LineId): Line {
    if id in m then m[id] else ZeroLine
  }

  datatype Req =
    | Load(addr: Addr)
    | Store(addr: Addr, data: Line, strb: Strobe)

  const OKAY: nat := 0

  datatype Resp =
    | Loaded(data: Line, status: nat)
    | Stored(status: nat)

  /** The reference: byte `k` of line `id` after `reqs`, in the order they were accepted, is the byte
      of the last store that strobed it, and the initial byte if there is none. */
  function ByteAfter(sets: nat, initial: Memory, reqs: seq<Req>, id: LineId, k: nat): Byte
    requires k < 16
  {
    if reqs == [] then At(initial, id)[k]
    else
      var last := reqs[|reqs| - 1];
      if last.Store? && !Peripheral(sets, id) && last.addr.line == id && last.strb[k]
      then last.data[k]
      else ByteAfter(sets, initial, reqs[..|reqs| - 1], id, k)
  }

  /** The same reference, one line at a time. */
  function LineAfter(sets: nat, initial: Memory, reqs: seq<Req>, id: LineId): Line {
    if reqs == [] then At(initial, id)
    else
      var last := reqs[|reqs| - 1];
      var before := LineAfter(sets, initial, reqs[..|reqs| - 1], id);
      if last.Store? && !Peripheral(sets, id) && last.addr.line == id
      then Merge(before, last.data, last.strb)
      else before
  }

  lemma {:induction false} LineAfterIsBytes(sets: nat, initial: Memory, reqs: seq<Req>, id: LineId, k: nat)
    requires k < 16
    ensures LineAfter(sets, initial, reqs, id)[k] == ByteAfter(sets, initial, reqs, id, k)
  {
    if reqs != [] {
      LineAfterIsBytes(sets, initial, reqs[..|reqs| - 1], id, k);
    }
  }

  lemma {:induction false} LineAfterSnoc(sets: nat, initial: Memory, reqs: seq<Req>, r: Req, id: LineId)
    ensures LineAfter(sets, initial, reqs + [r], id)
         == if r.Store? && !Peripheral(sets, id) && r.addr.line == id
            then Merge(LineAfter(sets, initial, reqs, id), r.data, r.strb)
            else LineAfter(sets, initial, reqs, id)
  {
    assert (reqs + [r])[..|reqs|] == reqs;
  }

  lemma {:induction false} SplitJoin(sets: nat, v: nat)
    requires sets > 0
    ensures Join(sets, Split(sets, v)) == v
    ensures Split(sets, v).line.index < sets && Split(sets, v).offset < LINE_BYTES
  {
    var l := v / LINE_BYTES;
    assert l / sets * sets + l % sets == l;
  }

  lemma {:induction false} JoinSplit(sets: nat, a: Addr)
    requires sets > 0 && a.line.index < sets && a.offset < LINE_BYTES
    ensures Split(sets, Join(sets, a)) == a
  {
    var t, i := a.line.tag, a.line.index;
    var l := t * sets + i;
    assert Join(sets, a) / LINE_BYTES == l && Join(sets, a) % LINE_BYTES == a.offset;
    DivModUnique(l, sets, t, i);
  }

  /** The bytes of the reference are exactly the byte addresses: splitting a number into fields and joining
      fields to a number are inverse to each other. */
  lemma {:induction false} AddressesAreBytes(sets: nat, v: nat, a: Addr)
    requires sets > 0 && a.line.index < sets && a.offset < LINE_BYTES
    ensures Split(sets, v) == a <==> Join(sets, a) == v
    ensures Split(sets, v).line.index < sets && Split(sets, v).offset < LINE_BYTES
  {
    SplitJoin(sets, v);
    JoinSplit(sets, a);
  }

  /** Deciding on the line number is deciding on the address bits [33:24] and [33:28]. */
  lemma {:induction false} PeripheralIsAddressDecode(sets: nat, a: Addr)
    requires sets > 0 && a.offset < LINE_BYTES
    ensures var v := Join(sets, a);
            Peripheral(sets, a.line) <==> v / 0x100_0000 != 0 && v / 0x1000_0000 != 8
  {
    var l := a.line.tag * sets + a.line.index;
    var v := Join(sets, a);
    assert v / LINE_BYTES == l;
    assert v / 0x100_0000 == l / 0x10_0000;
    assert v / 0x1000_0000 == l / 0x100_0000;
  }
}
