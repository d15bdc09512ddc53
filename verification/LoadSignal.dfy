/** The boot ROM's "!\n" in the serial stream of the terminal: counting it, and keeping it off the
    screen, however the stream is cut into reads. */
module LoadSignal {
  import opened Bytes

  const BANG: Byte := 0x21
  const NEWLINE: Byte := 0x0A

  /** The two bytes of a signal, "!" and a line feed. */
  predicate SignalAt(s: seq<Byte>, i: nat) {
    i + 1 < |s| && s[i] == 0x21 && s[i + 1] == 0x0A
  }

  /** The reference for the count: the places where a signal begins. */
  function Occurrences(s: seq<Byte>): set<nat> {
    set i: nat | i < |s| && SignalAt(s, i)
  }

  /** The reference for the screen: byte `i` is shown unless it is part of a signal, or a "!" at the very
      end that may still become one. */
  predicate Shown(s: seq<Byte>, i: nat)
    requires i < |s|
  {
    && !SignalAt(s, i)
    && !(i > 0 && SignalAt(s, i - 1))
    && !(i == |s| - 1 && s[i] == 0x21)
  }

  function Screen(s: seq<Byte>, n: nat): seq<Byte>
    requires n <= |s|
  {
    if n == 0 then []
    else Screen(s, n - 1) + if Shown(s, n - 1) then [s[n - 1]] else []
  }

  function Held(s: seq<Byte>): seq<Byte> {
    if s != [] && s[|s| - 1] == 0x21 then [0x21] else []
  }

  datatype Split = Split(count: nat, pending: seq<Byte>, visible: seq<Byte>)

  /** One pass over a scan buffer. */
  function Scan(s: seq<Byte>): (r: Split)
    decreases |s|
  {
    if s == [] then Split(0, [], [])
    else if |s| > 1 && s[0] == BANG && s[1] == NEWLINE then
      var r := Scan(s[2..]);
      r.(count := r.count + 1)
    else if s == [BANG] then Split(0, s, [])
    else
      var r := Scan(s[1..]);
      r.(visible := [s[0]] + r.visible)
  }

  /** What a read adds to a pass that stopped with `r.pending`. */
  function Feed(r: Split, data: seq<Byte>): Split {
    var next := Scan(r.pending + data);
    Split(r.count + next.count, next.pending, r.visible + next.visible)
  }

  function FeedAll(pieces: seq<seq<Byte>>): Split {
    if pieces == [] then Split(0, [], [])
    else Feed(FeedAll(pieces[..|pieces| - 1]), pieces[|pieces| - 1])
  }

  function Flatten(pieces: seq<seq<Byte>>): seq<Byte> {
    if pieces == [] then [] else Flatten(pieces[..|pieces| - 1]) + pieces[|pieces| - 1]
  }

  lemma {:induction false} ScanUnfold(s: seq<Byte>)
    requires s != [] && !SignalAt(s, 0) && s != [BANG]
    ensures Scan(s) == Scan(s[1..]).(visible := [s[0]] + Scan(s[1..]).visible)
  {
  }

  lemma {:induction false} ScanConcatVisible(a: seq<Byte>, b: seq<Byte>)
    requires a != [] && !SignalAt(a, 0) && a != [BANG]
    requires Feed(Scan(a[1..]), b) == Scan(a[1..] + b)
    ensures Feed(Scan(a), b) == Scan(a + b)
  {
    OneVisible(a, b);
    ScanUnfold(a);
    ScanUnfold(a + b);
    var r := Scan(a[1..]);
    ConsConcat(a[0], r.visible, Scan(r.pending + b).visible);
  }

  lemma {:induction false} ConsConcat(x: Byte, s: seq<Byte>, t: seq<Byte>)
    ensures ([x] + s) + t == [x] + (s + t)
  {
  }

  lemma {:induction false} OneVisible(a: seq<Byte>, b: seq<Byte>)
    requires a != [] && !SignalAt(a, 0) && a != [BANG]
    ensures !SignalAt(a + b, 0) && a + b != [BANG] && (a + b)[0] == a[0] && (a + b)[1..] == a[1..] + b
  {
    if |a| == 1 { assert (a + b)[0] == a[0] != BANG; }
  }

  /** Stopping after `a` and going on with `b` is one pass over both. */
  lemma {:induction false} ScanConcat(a: seq<Byte>, b: seq<Byte>)
    ensures Feed(Scan(a), b) == Scan(a + b)
    decreases |a|
  {
    if a == [] {
      assert a + b == b && [] + b == b;
    } else if SignalAt(a, 0) {
      assert SignalAt(a + b, 0) && (a + b)[2..] == a[2..] + b;
      ScanConcat(a[2..], b);
    } else if a == [BANG] {
      assert [] + Scan(a + b).visible == Scan(a + b).visible;
    } else {
      ScanConcat(a[1..], b);
      ScanConcatVisible(a, b);
    }
  }

  /** Any way of cutting the stream into reads gives what one read of it all gives. */
  lemma {:induction false} ChunkingIsIrrelevant(pieces: seq<seq<Byte>>)
    ensures FeedAll(pieces) == Scan(Flatten(pieces))
  {
    if pieces != [] {
      ChunkingIsIrrelevant(pieces[..|pieces| - 1]);
      ScanConcat(Flatten(pieces[..|pieces| - 1]), pieces[|pieces| - 1]);
    }
  }

  /** Every byte is counted, held or shown. */
  lemma {:induction false} NothingDisappears(s: seq<Byte>)
    ensures |s| == 2 * Scan(s).count + |Scan(s).pending| + |Scan(s).visible|
    decreases |s|
  {
    if s != [] && s != [BANG] {
      if SignalAt(s, 0) { NothingDisappears(s[2..]); } else { NothingDisappears(s[1..]); }
    }
  }

  lemma {:induction false} OccurrencesSnoc(s: seq<Byte>, b: Byte)
    ensures Occurrences(s + [b])
         == Occurrences(s) + if s != [] && s[|s| - 1] == BANG && b == NEWLINE then {|s| - 1} else {}
    ensures |Occurrences(s + [b])|
         == |Occurrences(s)| + if s != [] && s[|s| - 1] == BANG && b == NEWLINE then 1 else 0
  {
    var t := s + [b];
    assert forall i: nat :: i < |s| - 1 ==> (SignalAt(t, i) <==> SignalAt(s, i));
    assert |s| - 1 !in Occurrences(s);
  }

  lemma {:induction false} ScreenPrefix(s: seq<Byte>, b: Byte, n: nat)
    requires n < |s|
    ensures Screen(s + [b], n) == Screen(s, n)
  {
    if n > 0 {
      ScreenPrefix(s, b, n - 1);
      assert SignalAt(s + [b], n - 1) == SignalAt(s, n - 1);
      if n > 1 { assert SignalAt(s + [b], n - 2) == SignalAt(s, n - 2); }
    }
  }

  lemma {:induction false} ShownAtTheEnd(s: seq<Byte>, b: Byte)
    requires s != []
    ensures var t, n := s + [b], |s|;
            && (Shown(s, n - 1) <==> s[n - 1] != BANG && !(n > 1 && SignalAt(s, n - 2)))
            && (Shown(t, n - 1) <==> !(s[n - 1] == BANG && b == NEWLINE) && !(n > 1 && SignalAt(s, n - 2)))
            && (Shown(t, n) <==> b != BANG && !(s[n - 1] == BANG && b == NEWLINE))
  {
  }

  function If(c: bool, b: Byte): seq<Byte> { if c then [b] else [] }

  lemma {:induction false} AppendIfs(p: seq<Byte>, b: Byte, c: bool, d: bool, rest: seq<Byte>)
    requires !(c && d)
    ensures p + If(c || d, b) + rest == p + If(c, b) + If(d, b) + rest
  {
    if c { assert p + [b] + [] == p + [b]; } else { assert p + [] == p; }
  }

  /** How the reference screen grows: a held "!" appears when the next byte is not a newline. */
  lemma {:induction false} ScreenSnoc(s: seq<Byte>, b: Byte)
    ensures Screen(s + [b], |s| + 1)
         == Screen(s, |s|)
            + If(Held(s) != [] && b != NEWLINE, BANG)
            + If(b != BANG && !(Held(s) != [] && b == NEWLINE), b)
  {
    if s == [] {
      assert Screen(s + [b], 0) == [];
    } else {
      var t, n := s + [b], |s|;
      ScreenPrefix(s, b, n - 1);
      ShownAtTheEnd(s, b);
      assert Screen(t, n) == Screen(s, n - 1) + If(Shown(t, n - 1), s[n - 1]);
      assert Screen(s, n) == Screen(s, n - 1) + If(Shown(s, n - 1), s[n - 1]);
      AppendIfs(Screen(s, n - 1), s[n - 1], Shown(s, n - 1), s[n - 1] == BANG && b != NEWLINE, If(Shown(t, n), b));
    }
  }

  lemma {:induction false} ScanOne(p: seq<Byte>, b: Byte)
    requires p == [] || p == [BANG]
    ensures Scan(p + [b]) ==
            if b == NEWLINE && p != [] then Split(1, [], [])
            else if b == BANG then Split(0, [BANG], p)
            else Split(0, [], p + [b])
  {
    var s := p + [b];
    assert Scan([]) == Split(0, [], []);
    if p == [] {
      assert s == [b] && s[1..] == [];
    } else {
      assert s[2..] == [] && s[1..] == [b] && [b][1..] == [];
      assert Scan([b]) == if b == BANG then Split(0, [BANG], []) else Split(0, [], [b]);
      assert [BANG] + [b] == s && [BANG] + [] == [BANG];
    }
  }

  /** The pass meets the reference: it counts the occurrences, shows the stream without them, and holds
      back a "!" at the end. */
  lemma {:induction false} ScanMeetsReference(s: seq<Byte>)
    ensures Scan(s) == Split(|Occurrences(s)|, Held(s), Screen(s, |s|))
    decreases |s|
  {
    if s == [] {
      assert Occurrences(s) == {};
    } else {
      var t, b := s[..|s| - 1], s[|s| - 1];
      assert s == t + [b];
      ScanMeetsReference(t);
      ReferenceStep(t, b);
    }
  }

  lemma {:induction false} ReferenceStep(t: seq<Byte>, b: Byte)
    requires Scan(t) == Split(|Occurrences(t)|, Held(t), Screen(t, |t|))
    ensures Scan(t + [b]) == Split(|Occurrences(t + [b])|, Held(t + [b]), Screen(t + [b], |t + [b]|))
  {
    ScanConcat(t, [b]);
    ScanOne(Held(t), b);
    OccurrencesSnoc(t, b);
    ScreenSnoc(t, b);
  }

  /** split_load_signals */
  method SplitLoadSignals(pending: seq<Byte>, data: seq<Byte>) returns (r: Split)
    ensures r == Scan(pending + data)
  {
    var scan := pending + data;
    var visible: seq<Byte>, count, index := [], 0, 0;
    assert scan[0..] == scan;
    while index < |scan|
      invariant 0 <= index <= |scan|
      invariant Scan(scan) == Join(count, visible, Scan(scan[index..]))
    {
      var rest := scan[index..];
      if index + 1 < |scan| && scan[index] == BANG && scan[index + 1] == NEWLINE {
        assert rest[2..] == scan[index + 2..];
        count := count + 1;
        index := index + 2;
      } else if scan[index] == BANG && index == |scan| - 1 {
        assert rest == [BANG];
        return Split(count, scan[index..], visible);
      } else {
        assert rest[1..] == scan[index + 1..] && rest != [BANG];
        JoinVisible(count, visible, scan[index], Scan(scan[index + 1..]));
        visible := visible + [scan[index]];
        index := index + 1;
      }
    }
    r := Split(count, [], visible);
  }

  function Join(count: nat, visible: seq<Byte>, r: Split): Split {
    Split(count + r.count, r.pending, visible + r.visible)
  }

  lemma {:induction false} JoinVisible(count: nat, visible: seq<Byte>, b: Byte, r: Split)
    ensures Join(count, visible, r.(visible := [b] + r.visible)) == Join(count, visible + [b], r)
  {
    assert visible + ([b] + r.visible) == (visible + [b]) + r.visible;
  }

  /** count_load_signals: the signals in one scan buffer, and its last byte to go on with. */
  function CountLoadSignals(pending: seq<Byte>, data: seq<Byte>): (nat, seq<Byte>) {
    var scan := pending + data;
    (|Occurrences(scan)|, if scan == [] then [] else scan[|scan| - 1..])
  }

  function CountAll(pieces: seq<seq<Byte>>): (nat, seq<Byte>) {
    if pieces == [] then (0, [])
    else
      var (n, pending) := CountAll(pieces[..|pieces| - 1]);
      var (m, pending') := CountLoadSignals(pending, pieces[|pieces| - 1]);
      (n + m, pending')
  }

  /** The two counters agree on every stream and every way of cutting it. */
  lemma {:induction false} CountersAgree(pieces: seq<seq<Byte>>)
    ensures CountAll(pieces).0 == FeedAll(pieces).count
    ensures CountAll(pieces).1 == LastByte(Flatten(pieces))
  {
    ChunkingIsIrrelevant(pieces);
    ScanMeetsReference(Flatten(pieces));
    if pieces == [] {
      assert Occurrences([]) == {};
    } else {
      var front, data := pieces[..|pieces| - 1], pieces[|pieces| - 1];
      CountersAgree(front);
      ChunkingIsIrrelevant(front);
      ScanMeetsReference(Flatten(front));
      OccurrencesSplit(Flatten(front), data);
    }
  }

  function LastByte(s: seq<Byte>): seq<Byte> {
    if s == [] then [] else s[|s| - 1..]
  }

  lemma {:induction false} LastBytes(s: seq<Byte>)
    ensures s == [] <==> LastByte(s) == []
    ensures s != [] ==> LastByte(s) == [s[|s| - 1]]
  {
  }

  lemma {:induction false} SplitSnoc(a: seq<Byte>, c: seq<Byte>, x: Byte)
    requires |Occurrences(a + c)| == |Occurrences(a)| + |Occurrences(LastByte(a) + c)|
    requires LastByte(LastByte(a) + c) == LastByte(a + c)
    ensures |Occurrences(a + (c + [x]))| == |Occurrences(a)| + |Occurrences(LastByte(a) + (c + [x]))|
    ensures LastByte(LastByte(a) + (c + [x])) == LastByte(a + (c + [x])) == [x]
  {
    assert a + (c + [x]) == (a + c) + [x] && LastByte(a) + (c + [x]) == (LastByte(a) + c) + [x];
    OccurrencesSnoc(a + c, x);
    OccurrencesSnoc(LastByte(a) + c, x);
    LastBytes(a + c);
    LastBytes(LastByte(a) + c);
  }

  lemma {:induction false} OccurrencesSplit(a: seq<Byte>, b: seq<Byte>)
    ensures |Occurrences(a + b)| == |Occurrences(a)| + |Occurrences(LastByte(a) + b)|
    ensures LastByte(LastByte(a) + b) == LastByte(a + b)
  {
    if b == [] {
      assert a + b == a && LastByte(a) + b == LastByte(a);
      assert Occurrences(LastByte(a)) == {};
    } else {
      var c, x := b[..|b| - 1], b[|b| - 1];
      OccurrencesSplit(a, c);
      assert b == c + [x];
      SplitSnoc(a, c, x);
    }
  }
}
