/** Bytes as numbers, and the little-endian words that four of them make. */
module Bytes {
  import opened Words

  type Byte = b: nat | b < 0x100

  function WordOf(b0: Byte, b1: Byte, b2: Byte, b3: Byte): Word {
    b0 + 0x100 * b1 + 0x1_0000 * b2 + 0x100_0000 * b3
  }

  /** Byte `r` of a little-endian word. */
  function WordByte(w: Word, r: nat): Byte
    requires r < 4
  {
    match r
    case 0 => w % 0x100
    case 1 => w / 0x100 % 0x100
    case 2 => w / 0x100 / 0x100 % 0x100
    case _ => w / 0x100 / 0x100 / 0x100
  }

  lemma {:induction false} Peel(low: nat, rest: nat)
    requires low < 0x100
    ensures (low + 0x100 * rest) % 0x100 == low && (low + 0x100 * rest) / 0x100 == rest
  {
  }

  lemma {:induction false} BytesOfWord(b0: Byte, b1: Byte, b2: Byte, b3: Byte)
    ensures var w := WordOf(b0, b1, b2, b3);
            WordByte(w, 0) == b0 && WordByte(w, 1) == b1 && WordByte(w, 2) == b2 && WordByte(w, 3) == b3
  {
    Peel(b2, b3);
    Peel(b1, b2 + 0x100 * b3);
    Peel(b0, b1 + 0x100 * (b2 + 0x100 * b3));
    assert WordOf(b0, b1, b2, b3) == b0 + 0x100 * (b1 + 0x100 * (b2 + 0x100 * b3));
  }
}
