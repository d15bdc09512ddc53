/** memcpy, memset and memcmp: a word path for aligned arguments, a byte path for the others, one meaning.
    A uintptr_t is four bytes, little-endian; addresses index one array of bytes. */
module StringC {
  import opened Powers
  import opened Words
  import opened Bytes

  const WORD: nat := 4

  function FromBytes(b: seq<Byte>): Word
    requires |b| == WORD
  {
    WordOf(b[0], b[1], b[2], b[3])
  }

  function ToBytes(w: Word): (b: seq<Byte>)
    ensures |b| == WORD
  {
    [WordByte(w, 0), WordByte(w, 1), WordByte(w, 2), WordByte(w, 3)]
  }

  lemma {:induction false} ToFrom(b: seq<Byte>)
    requires |b| == WORD
    ensures ToBytes(FromBytes(b)) == b
  {
    BytesOfWord(b[0], b[1], b[2], b[3]);
  }

  /** Two words are equal exactly when their bytes are. */
  lemma {:induction false} WordsEqual(a: seq<Byte>, b: seq<Byte>)
    requires |a| == |b| == WORD
    ensures FromBytes(a) == FromBytes(b) <==> a == b
  {
    ToFrom(a);
    ToFrom(b);
  }

  /** byte & 0xFF */
  function Low(byte: Word): Byte { byte % 0x100 }

  function ShiftLeft(w: Word, n: nat): Word { w * Pow2(n) % TWO32 }

  /** byte & 0xFF in all four places */
  function Spread(byte: Word): Word {
    var w := Low(byte);
    var w := Or(w, ShiftLeft(w, 8));
    Or(w, ShiftLeft(w, 16))
  }

  /** Numbers without a common bit. */
  lemma {:induction false} OrDisjoint(low: nat, high: nat, k: nat, n: nat)
    requires k <= n && low < Pow2(k) && high < Pow2(n - k)
    ensures OrBits(low, high * Pow2(k), n) == low + high * Pow2(k)
  {
    if k == 0 {
      OrBitsZero(high, n);
    } else {
      var h := high * Pow2(k - 1);
      assert high * Pow2(k) == 2 * h;
      OrDisjoint(low / 2, high, k - 1, n - 1);
    }
  }

  lemma {:induction false} Powers8And16()
    ensures Pow2(8) == 0x100 && Pow2(16) == 0x1_0000 && Pow2(24) == 0x100_0000
  {
    assert Pow2(8) == 0x100;
    PowSum(8, 8);
    PowSum(16, 8);
  }

  lemma {:induction false} OrShifted(w: Word, n: nat)
    requires n <= 16 && w < Pow2(n)
    ensures Or(w, ShiftLeft(w, n)) == w + w * Pow2(n)
  {
    PowFacts();
    PowMono(n, 32 - n);
    OrDisjoint(w, w, n, 32);
    Unshifted(w, n);
  }

  lemma {:induction false} Unshifted(w: Word, n: nat)
    requires w * Pow2(n) < TWO32
    ensures ShiftLeft(w, n) == w * Pow2(n)
  {
  }

  lemma {:induction false} SpreadBytes(byte: Word)
    ensures ToBytes(Spread(byte)) == [Low(byte), Low(byte), Low(byte), Low(byte)]
  {
    var b := Low(byte);
    SpreadIs(byte, b);
    ToFrom([b, b, b, b]);
  }

  lemma {:induction false} SpreadIs(byte: Word, b: Byte)
    requires b == Low(byte)
    ensures Spread(byte) == WordOf(b, b, b, b)
  {
    var w: Word := 0x101 * b;
    Powers8And16();
    OrShifted(b, 8);
    OrShifted(w, 16);
  }

  /** n % WORD == 0, without the division. */
  ghost predicate Whole(n: nat) {
    n == 0 || (n >= WORD && Whole(n - WORD))
  }

  lemma {:induction false} WholeIs(n: nat)
    ensures Whole(n) <==> n % WORD == 0
  {
    if n >= WORD { WholeIs(n - WORD); }
  }

  lemma {:induction false} WholeSum(a: nat, b: nat)
    requires Whole(a) && Whole(b)
    ensures Whole(a + b)
  {
    if a > 0 { WholeSum(a - WORD, b); }
  }

  lemma {:induction false} WholeGap(a: nat, b: nat)
    requires Whole(a) && Whole(b) && a < b
    ensures a + WORD <= b && Whole(b - a)
  {
    if a > 0 { WholeGap(a - WORD, b - WORD); }
  }

  method LoadWord(mem: array<Byte>, a: nat) returns (w: Word)
    requires Whole(a) && a + WORD <= mem.Length
    ensures w == FromBytes([mem[a], mem[a + 1], mem[a + 2], mem[a + 3]])
  {
    w := FromBytes([mem[a], mem[a + 1], mem[a + 2], mem[a + 3]]);
  }

  method StoreWord(mem: array<Byte>, a: nat, w: Word)
    requires Whole(a) && a + WORD <= mem.Length
    modifies mem
    ensures [mem[a], mem[a + 1], mem[a + 2], mem[a + 3]] == ToBytes(w)
    ensures forall i :: 0 <= i < mem.Length && !(a <= i < a + WORD) ==> mem[i] == old(mem[i])
  {
    var b := ToBytes(w);
    mem[a], mem[a + 1], mem[a + 2], mem[a + 3] := b[0], b[1], b[2], b[3];
  }

  /** The destination from `dest` to `d` is copied, and nothing else has changed. */
  ghost predicate CopiedTo(before: seq<Byte>, m: seq<Byte>, dest: nat, src: nat, d: nat)
    requires |m| == |before| && dest <= d <= |m| && src + (d - dest) <= |m|
  {
    && (forall i :: dest <= i < d ==> m[i] == before[i - dest + src])
    && (forall i :: 0 <= i < |m| && !(dest <= i < d) ==> m[i] == before[i])
  }

  /** *d++ = *s++ on words */
  method CopyWord(mem: array<Byte>, d: nat, s: nat)
    requires Whole(d) && d + WORD <= mem.Length && Whole(s) && s + WORD <= mem.Length
    modifies mem
    ensures CopiedTo(old(mem[..]), mem[..], d, s, d + WORD)
  {
    var w := LoadWord(mem, s);
    ghost var b := [mem[s], mem[s + 1], mem[s + 2], mem[s + 3]];
    ToFrom(b);
    StoreWord(mem, d, w);
    assert mem[d] == b[0] && mem[d + 1] == b[1] && mem[d + 2] == b[2] && mem[d + 3] == b[3];
  }

  /** The next `n` bytes, which the copy so far has not touched. */
  lemma {:induction false} CopyOn(before: seq<Byte>, m: seq<Byte>, m': seq<Byte>,
                                   dest: nat, src: nat, len: nat, d: nat, s: nat, n: nat)
    requires |m'| == |m| == |before| && dest + len <= |m| && src + len <= |m|
    requires dest + len <= src || src + len <= dest
    requires dest <= d && d + n <= dest + len && s == src + (d - dest)
    requires CopiedTo(before, m, dest, src, d) && CopiedTo(m, m', d, s, d + n)
    ensures CopiedTo(before, m', dest, src, d + n)
  {
  }

  /** For ranges that do not overlap, exactly the destination changes, to what the source holds. */
  method Memcpy(mem: array<Byte>, dest: nat, src: nat, len: nat)
    requires dest + len <= mem.Length && src + len <= mem.Length
    requires dest + len <= src || src + len <= dest
    modifies mem
    ensures CopiedTo(old(mem[..]), mem[..], dest, src, dest + len)
  {
    if dest % WORD == 0 && src % WORD == 0 && len % WORD == 0 {
      WholeIs(dest);
      WholeIs(src);
      WholeIs(len);
      CopyWords(mem, dest, src, len);
    } else {
      CopyBytes(mem, dest, src, len);
    }
  }

  method CopyBytes(mem: array<Byte>, dest: nat, src: nat, len: nat)
    requires dest + len <= mem.Length && src + len <= mem.Length
    requires dest + len <= src || src + len <= dest
    modifies mem
    ensures CopiedTo(old(mem[..]), mem[..], dest, src, dest + len)
  {
    var d, s := dest, src;
    while d < dest + len
      invariant dest <= d <= dest + len && s == src + (d - dest)
      invariant CopiedTo(old(mem[..]), mem[..], dest, src, d)
    {
      mem[d] := mem[s];
      d, s := d + 1, s + 1;
    }
  }

  lemma {:induction false} NextWord(dest: nat, src: nat, len: nat, d: nat, s: nat)
    requires Whole(dest) && Whole(src) && Whole(len)
    requires dest <= d < dest + len && Whole(d) && s == src + (d - dest)
    ensures d + WORD <= dest + len && Whole(d + WORD) && Whole(s)
  {
    WholeSum(dest, len);
    WholeGap(d, dest + len);
    WholeSum(WORD, d);
    if dest < d { WholeGap(dest, d); }
    WholeSum(src, d - dest);
  }

  method CopyWords(mem: array<Byte>, dest: nat, src: nat, len: nat)
    requires Whole(dest) && Whole(src) && Whole(len)
    requires dest + len <= mem.Length && src + len <= mem.Length
    requires dest + len <= src || src + len <= dest
    modifies mem
    ensures CopiedTo(old(mem[..]), mem[..], dest, src, dest + len)
  {
    var d, s := dest, src;
    while d < dest + len
      invariant dest <= d <= dest + len && Whole(d) && s == src + (d - dest)
      invariant CopiedTo(old(mem[..]), mem[..], dest, src, d)
    {
      NextWord(dest, src, len, d, s);
      label Before:
      CopyWord(mem, d, s);
      CopyOn(old(mem[..]), old@Before(mem[..]), mem[..], dest, src, len, d, s, WORD);
      d, s := d + WORD, s + WORD;
    }
  }

  /** The destination from `dest` to `d` is filled, and nothing else has changed. */
  ghost predicate FilledTo(before: seq<Byte>, m: seq<Byte>, dest: nat, d: nat, low: Byte)
    requires |m| == |before| && dest <= d <= |m|
  {
    && (forall i :: dest <= i < d ==> m[i] == low)
    && (forall i :: 0 <= i < |m| && !(dest <= i < d) ==> m[i] == before[i])
  }

  /** Exactly the destination changes, to the low byte of the argument. */
  method Memset(mem: array<Byte>, dest: nat, byte: Word, len: nat)
    requires dest + len <= mem.Length
    modifies mem
    ensures FilledTo(old(mem[..]), mem[..], dest, dest + len, byte % 0x100)
  {
    if dest % WORD == 0 && len % WORD == 0 {
      WholeIs(dest);
      WholeIs(len);
      SpreadBytes(byte);
      SetWords(mem, dest, Spread(byte), len, Low(byte));
    } else {
      var d := dest;
      while d < dest + len
        invariant dest <= d <= dest + len
        invariant FilledTo(old(mem[..]), mem[..], dest, d, Low(byte))
      {
        mem[d] := Low(byte);
        d := d + 1;
      }
    }
  }

  method SetWords(mem: array<Byte>, dest: nat, word: Word, len: nat, ghost low: Byte)
    requires Whole(dest) && Whole(len) && dest + len <= mem.Length && ToBytes(word) == [low, low, low, low]
    modifies mem
    ensures FilledTo(old(mem[..]), mem[..], dest, dest + len, low)
  {
    var d := dest;
    while d < dest + len
      invariant dest <= d <= dest + len && Whole(d)
      invariant FilledTo(old(mem[..]), mem[..], dest, d, low)
    {
      NextWord(dest, dest, len, d, d);
      StoreWord(mem, d, word);
      assert mem[d] == low && mem[d + 1] == low && mem[d + 2] == low && mem[d + 3] == low;
      d := d + WORD;
    }
  }

  /** The difference at the first place where the bytes differ. */
  function Compare(a: seq<Byte>, b: seq<Byte>): int
    requires |a| == |b|
  {
    if a == [] then 0
    else if a[0] != b[0] then a[0] - b[0]
    else Compare(a[1..], b[1..])
  }

  lemma {:induction false} CompareFirst(a: seq<Byte>, b: seq<Byte>, k: nat)
    requires |a| == |b| && k <= |a| && a[..k] == b[..k]
    ensures Compare(a, b) == Compare(a[k..], b[k..])
    ensures k < |a| && a[k] != b[k] ==> Compare(a, b) == a[k] as int - b[k] as int
  {
    if k > 0 {
      assert a[0] == a[..k][0] == b[..k][0] == b[0];
      assert a[1..][..k - 1] == a[..k][1..] && b[1..][..k - 1] == b[..k][1..];
      CompareFirst(a[1..], b[1..], k - 1);
    }
  }

  /** Zero means equal. */
  lemma {:induction false} CompareZero(a: seq<Byte>, b: seq<Byte>)
    requires |a| == |b|
    ensures Compare(a, b) == 0 <==> a == b
  {
    if a != [] {
      if a[0] == b[0] { CompareZero(a[1..], b[1..]); }
      assert a == [a[0]] + a[1..] && b == [b[0]] + b[1..];
    }
  }

  ghost predicate Same(m: seq<Byte>, p1: nat, p2: nat, k: nat)
    requires p1 + k <= |m| && p2 + k <= |m|
  {
    forall i :: p1 <= i < p1 + k ==> m[i] == m[i - p1 + p2]
  }

  lemma {:induction false} CompareDecided(m: seq<Byte>, p1: nat, p2: nat, n: nat, k: nat)
    requires p1 + n <= |m| && p2 + n <= |m| && k <= n && Same(m, p1, p2, k)
    requires k == n || m[p1 + k] != m[p2 + k]
    ensures Compare(m[p1..p1 + n], m[p2..p2 + n])
         == if k == n then 0 else m[p1 + k] as int - m[p2 + k] as int
  {
    var a, b := m[p1..p1 + n], m[p2..p2 + n];
    forall i | 0 <= i < k
      ensures a[i] == b[i]
    {
      assert m[p1 + i] == m[p1 + i - p1 + p2];
    }
    assert a[..k] == b[..k];
    CompareFirst(a, b, k);
  }

  lemma {:induction false} SameMore(m: seq<Byte>, p1: nat, p2: nat, k: nat, n: nat)
    requires p1 + k + n <= |m| && p2 + k + n <= |m| && Same(m, p1, p2, k) && Same(m, p1 + k, p2 + k, n)
    ensures Same(m, p1, p2, k + n)
  {
  }

  /** The word loop: how many equal bytes there are before it stops. */
  method EqualWords(mem: array<Byte>, p1: nat, p2: nat, n: nat) returns (k: nat)
    requires Whole(p1) && Whole(p2) && p1 + n <= mem.Length && p2 + n <= mem.Length
    ensures k <= n && Same(mem[..], p1, p2, k)
  {
    k := 0;
    var whole := n / WORD * WORD;
    WholeIs(whole);
    while k < whole
      invariant k <= whole <= n && Whole(k) && Same(mem[..], p1, p2, k)
    {
      NextPair(p1, p2, k, whole);
      var same := SameWord(mem, p1 + k, p2 + k);
      if !same { break; }
      SameMore(mem[..], p1, p2, k, WORD);
      k := k + WORD;
    }
  }

  lemma {:induction false} NextPair(p1: nat, p2: nat, k: nat, whole: nat)
    requires Whole(p1) && Whole(p2) && Whole(k) && Whole(whole) && k < whole
    ensures k + WORD <= whole && Whole(k + WORD) && Whole(p1 + k) && Whole(p2 + k)
  {
    WholeGap(k, whole);
    WholeSum(p1, k);
    WholeSum(p2, k);
  }

  lemma {:induction false} SameFour(m: seq<Byte>, u1: nat, u2: nat)
    requires u1 + WORD <= |m| && u2 + WORD <= |m|
    ensures Same(m, u1, u2, WORD)
       <==> m[u1] == m[u2] && m[u1 + 1] == m[u2 + 1] && m[u1 + 2] == m[u2 + 2] && m[u1 + 3] == m[u2 + 3]
  {
    assert Same(m, u1, u2, WORD) ==> forall j :: u1 <= j < u1 + 4 ==> m[j] == m[j - u1 + u2];
    assert u1 + 1 - u1 + u2 == u2 + 1 && u1 + 2 - u1 + u2 == u2 + 2 && u1 + 3 - u1 + u2 == u2 + 3;
  }

  /** *u1 == *u2 */
  method SameWord(mem: array<Byte>, u1: nat, u2: nat) returns (same: bool)
    requires Whole(u1) && Whole(u2) && u1 + WORD <= mem.Length && u2 + WORD <= mem.Length
    ensures same <==> Same(mem[..], u1, u2, WORD)
  {
    var w1 := LoadWord(mem, u1);
    var w2 := LoadWord(mem, u2);
    WordsEqual([mem[u1], mem[u1 + 1], mem[u1 + 2], mem[u1 + 3]], [mem[u2], mem[u2 + 1], mem[u2 + 2], mem[u2 + 3]]);
    SameFour(mem[..], u1, u2);
    same := w1 == w2;
  }

  /** memcmp gives the byte-wise result, even when its word loop stops early at a word that differs. */
  method Memcmp(mem: array<Byte>, p1: nat, p2: nat, n: nat) returns (r: int)
    requires p1 + n <= mem.Length && p2 + n <= mem.Length
    ensures r == Compare(mem[..][p1..p1 + n], mem[..][p2..p2 + n])
  {
    ghost var m := mem[..];
    var k := 0;
    if p1 % WORD == 0 && p2 % WORD == 0 {
      WholeIs(p1);
      WholeIs(p2);
      k := EqualWords(mem, p1, p2, n);
    }
    while k < n
      invariant k <= n && Same(m, p1, p2, k)
    {
      var c1, c2 := mem[p1 + k], mem[p2 + k];
      if c1 != c2 {
        CompareDecided(m, p1, p2, n, k);
        return c1 as int - c2 as int;
      }
      k := k + 1;
    }
    CompareDecided(m, p1, p2, n, n);
    r := 0;
  }
}
