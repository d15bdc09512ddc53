/** The integer formatter of the embedded printf: layout, digits, and the number parser beside it. */
module Number {
  import opened Powers
  import opened Words

  const LONG_MAX: int := 0x7FFF_FFFF
  const LONG_MIN: int := -0x8000_0000
  const INT_MAX: int := 0x7FFF_FFFF

  datatype Flags = Flags(zeropad: bool, sign: bool, plus: bool, space: bool, left: bool, hexPrep: bool, upper: bool)

  datatype Option<T> = None | Some(value: T)

  const LOWER := "0123456789abcdefghijklmnopqrstuvwxyz"
  const UPPER := "0123456789ABCDEFGHIJKLMNOPQRSTUVWXYZ"

  function DigitChar(d: nat, upper: bool): char
    requires d < 36
  {
    if d < 10 then '0' + d as char
    else if upper then 'A' + (d - 10) as char
    else 'a' + (d - 10) as char
  }

  /** The tables hold the digit characters in order. */
  lemma {:induction false} Tables(d: nat)
    requires d < 36
    ensures |LOWER| == |UPPER| == 36
    ensures LOWER[d] == DigitChar(d, false) && UPPER[d] == DigitChar(d, true)
  {
  }

  /** What the digits stand for: the argument, or its unsigned reading if no sign was asked for. */
  function Magnitude(num: int, f: Flags): nat {
    if f.sign then (if num < 0 then -num else num) else num % TWO32
  }

  function SignOf(num: int, f: Flags): string {
    if !f.sign then ""
    else if num < 0 then "-"
    else if f.plus then "+"
    else if f.space then " "
    else ""
  }

  function Prefix(base: int, f: Flags): string {
    if !f.hexPrep then "" else if base == 16 then "0x" else if base == 8 then "0" else ""
  }

  /** n / base and n % base, by repeated subtraction. */
  function Quot(n: nat, base: nat): (q: nat)
    requires 2 <= base
    ensures q <= n / 2
    ensures q == 0 <==> n < base
  {
    if n < base then 0 else 1 + Quot(n - base, base)
  }

  function Rem(n: nat, base: nat): (d: nat)
    requires 2 <= base
    ensures d < base
  {
    if n < base then n else Rem(n - base, base)
  }

  lemma {:induction false} QuotTimesBase(n: nat, base: nat)
    requires 2 <= base
    ensures Quot(n, base) * base + Rem(n, base) == n
  {
    if n >= base {
      QuotTimesBase(n - base, base);
      TimesNext(Quot(n - base, base), base);
    }
  }

  lemma {:induction false} QuotRem(n: nat, base: nat)
    requires 2 <= base
    ensures Quot(n, base) * base + Rem(n, base) == n
    ensures n / base == Quot(n, base) && n % base == Rem(n, base)
  {
    QuotTimesBase(n, base);
    DivModUnique(n, base, Quot(n, base), Rem(n, base));
  }

  function Digits(n: nat, base: nat, upper: bool): (r: string)
    requires 2 <= base <= 36
    ensures |r| > 0
  {
    if n < base then [DigitChar(n, upper)]
    else Digits(Quot(n, base), base, upper) + [DigitChar(Rem(n, base), upper)]
  }

  function Repeat(c: char, n: int): (r: string)
    ensures |r| == if n > 0 then n else 0
  {
    if n <= 0 then "" else Repeat(c, n - 1) + [c]
  }

  function Max(a: int, b: int): int { if a >= b then a else b }

  /** The characters between the padding, and the whole field. */
  function Core(num: int, base: nat, precision: int, f: Flags): string
    requires 2 <= base <= 36
  {
    var digits := Digits(Magnitude(num, f), base, f.upper);
    Repeat('0', precision - |digits|) + digits
  }

  function Assemble(sign: string, prefix: string, core: string, pad: int, f: Flags): string {
    if f.left then sign + prefix + core + Repeat(' ', pad)
    else if f.zeropad then sign + prefix + Repeat('0', pad) + core
    else Repeat(' ', pad) + sign + prefix + core
  }

  function Field(num: int, base: nat, size: int, precision: int, f: Flags): string
    requires 2 <= base <= 36
  {
    var sign, prefix, core := SignOf(num, f), Prefix(base, f), Core(num, base, precision, f);
    Assemble(sign, prefix, core, size - |sign| - |prefix| - |core|, f)
  }

  /** The field is exactly as wide as asked for, unless its contents need more. */
  lemma {:induction false} FieldWidth(num: int, base: nat, size: int, precision: int, f: Flags)
    requires 2 <= base <= 36
    ensures |Field(num, base, size, precision, f)|
         == Max(size, |SignOf(num, f)| + |Prefix(base, f)|
                      + Max(|Digits(Magnitude(num, f), base, f.upper)|, precision))
  {
  }

  function DigitValue(c: char): nat {
    if '0' <= c <= '9' then c as nat - '0' as nat
    else if 'a' <= c <= 'z' then c as nat - 'a' as nat + 10
    else if 'A' <= c <= 'Z' then c as nat - 'A' as nat + 10
    else 0
  }

  /** The number that a digit string denotes. */
  function Value(s: string, base: nat): nat {
    if s == "" then 0 else Value(s[..|s| - 1], base) * base + DigitValue(s[|s| - 1])
  }

  lemma {:induction false} DigitRoundTrip(d: nat, upper: bool)
    requires d < 36
    ensures DigitValue(DigitChar(d, upper)) == d
    ensures d < 10 ==> '0' <= DigitChar(d, upper) <= '9'
  {
  }

  /** The digits denote the magnitude, in every base. */
  lemma {:induction false} DigitsDenote(n: nat, base: nat, upper: bool)
    requires 2 <= base <= 36
    ensures Value(Digits(n, base, upper), base) == n
  {
    if n < base {
      DigitRoundTrip(n, upper);
      ValueSnoc("", DigitChar(n, upper), base);
    } else {
      var q, d := Quot(n, base), Rem(n, base);
      QuotRem(n, base);
      DigitsDenote(q, base, upper);
      DigitRoundTrip(d, upper);
      ValueSnoc(Digits(q, base, upper), DigitChar(d, upper), base);
    }
  }

  /** They start with a zero only for zero itself. */
  lemma {:induction false} NoLeadingZero(n: nat, base: nat, upper: bool)
    requires 2 <= base <= 36
    ensures Digits(n, base, upper)[0] == '0' <==> n == 0
  {
    if n >= base { NoLeadingZero(Quot(n, base), base, upper); }
  }

  lemma {:induction false} ValueSnoc(s: string, c: char, base: nat)
    ensures Value(s + [c], base) == Value(s, base) * base + DigitValue(c)
  {
    assert (s + [c])[..|s|] == s;
    assert "" + [c] == [c];
  }

  lemma {:induction false} Assoc(a: string, b: string, c: string)
    ensures (a + b) + c == a + (b + c)
    ensures a + "" == a && "" + a == a
  {
  }

  // ---- Reading a field back ----

  /** The digit that a character stands for in some base up to 36; 36 if it is no digit at all. */
  function DigitOf(c: char): nat {
    if '0' <= c <= '9' then c as nat - '0' as nat
    else if 'a' <= c <= 'z' then c as nat - 'a' as nat + 10
    else if 'A' <= c <= 'Z' then c as nat - 'A' as nat + 10
    else 36
  }

  /** The number in a text: its digits in that base, whatever other characters stand between them. */
  function Reading(s: string, base: nat): nat {
    if s == "" then 0
    else
      var front, d := Reading(s[..|s| - 1], base), DigitOf(s[|s| - 1]);
      if d < base then front * base + d else front
  }

  lemma {:induction false} ReadingSnoc(s: string, c: char, base: nat)
    ensures Reading(s + [c], base)
         == if DigitOf(c) < base then Reading(s, base) * base + DigitOf(c) else Reading(s, base)
  {
    assert (s + [c])[..|s|] == s;
  }

  lemma {:induction false} ReadingSkips(s: string, c: char, base: nat)
    requires DigitOf(c) == 36 && base <= 36
    ensures Reading(s + [c], base) == Reading(s, base) && Reading([c], base) == 0
  {
    ReadingSnoc(s, c, base);
    ReadingSnoc("", c, base);
    assert "" + [c] == [c];
  }

  lemma {:induction false} ReadingZero(s: string, base: nat)
    requires Reading(s, base) == 0
    ensures Reading(s + ['0'], base) == 0 && Reading(['0'], base) == 0
  {
    ReadingSnoc(s, '0', base);
    ReadingSnoc("", '0', base);
    assert "" + ['0'] == ['0'];
  }

  /** What reads as 0 in front of a text changes nothing ... */
  lemma {:induction false} ReadingBehind(s: string, t: string, base: nat)
    requires Reading(s, base) == 0
    ensures Reading(s + t, base) == Reading(t, base)
  {
    if t == "" {
      assert s + t == s;
    } else {
      var front, c := t[..|t| - 1], t[|t| - 1];
      ReadingBehind(s, front, base);
      assert s + t == (s + front) + [c] && t == front + [c];
      ReadingSnoc(s + front, c, base);
      ReadingSnoc(front, c, base);
    }
  }

  /** ... and blanks behind it do not either. */
  lemma {:induction false} ReadingBeforeBlanks(s: string, n: int, base: nat)
    requires base <= 36
    ensures Reading(s + Repeat(' ', n), base) == Reading(s, base)
  {
    if n <= 0 {
      assert s + Repeat(' ', n) == s;
    } else {
      ReadingBeforeBlanks(s, n - 1, base);
      assert s + Repeat(' ', n) == (s + Repeat(' ', n - 1)) + [' '];
      ReadingSkips(s + Repeat(' ', n - 1), ' ', base);
    }
  }

  lemma {:induction false} ReadingOfZeros(c: char, n: int, base: nat)
    requires base <= 36 && (c == '0' || c == ' ')
    ensures Reading(Repeat(c, n), base) == 0
  {
    if n > 0 {
      ReadingOfZeros(c, n - 1, base);
      if c == '0' { ReadingZero(Repeat(c, n - 1), base); } else { ReadingSkips(Repeat(c, n - 1), c, base); }
    }
  }

  lemma {:induction false} DigitReads(d: nat, upper: bool)
    requires d < 36
    ensures DigitOf(DigitChar(d, upper)) == d
  {
  }

  lemma {:induction false} ReadingOfDigits(n: nat, base: nat, upper: bool)
    requires 2 <= base <= 36
    ensures Reading(Digits(n, base, upper), base) == n
  {
    if n < base {
      DigitReads(n, upper);
      assert Digits(n, base, upper) == "" + [DigitChar(n, upper)];
      ReadingSnoc("", DigitChar(n, upper), base);
    } else {
      var q, d := Quot(n, base), Rem(n, base);
      QuotTimesBase(n, base);
      ReadingOfDigits(q, base, upper);
      DigitReads(d, upper);
      ReadingSnoc(Digits(q, base, upper), DigitChar(d, upper), base);
    }
  }

  lemma {:induction false} ReadingOfSign(num: int, f: Flags, base: nat)
    requires base <= 36
    ensures Reading(SignOf(num, f), base) == 0
  {
    ReadingSkips("", '-', base);
    ReadingSkips("", '+', base);
    ReadingSkips("", ' ', base);
  }

  lemma {:induction false} ReadingOfPrefix(base: int, f: Flags)
    requires 2 <= base <= 36
    ensures Reading(Prefix(base, f), base) == 0
  {
    if f.hexPrep && (base == 8 || base == 16) {
      ReadingZero("", base);
      if base == 16 {
        assert "0x" == ['0'] + ['x'];
        ReadingSnoc(['0'], 'x', base);
      }
    }
  }

  lemma {:induction false} ReadingOfCore(num: int, base: nat, precision: int, f: Flags)
    requires 2 <= base <= 36
    ensures Reading(Core(num, base, precision, f), base) == Magnitude(num, f)
  {
    var digits := Digits(Magnitude(num, f), base, f.upper);
    ReadingOfZeros('0', precision - |digits|, base);
    ReadingBehind(Repeat('0', precision - |digits|), digits, base);
    ReadingOfDigits(Magnitude(num, f), base, f.upper);
  }

  /** The parts of a field, wherever the padding goes, read as its last part does. */
  lemma {:induction false} ReadingOfParts(sign: string, prefix: string, core: string, pad: int, f: Flags, base: nat)
    requires base <= 36 && Reading(sign, base) == 0 && Reading(prefix, base) == 0
    ensures Reading(Assemble(sign, prefix, core, pad, f), base) == Reading(core, base)
  {
    ReadingBehind(sign, prefix, base);
    if f.left {
      ReadingBehind(sign + prefix, core, base);
      ReadingBeforeBlanks(sign + prefix + core, pad, base);
    } else if f.zeropad {
      ReadingOfZeros('0', pad, base);
      ReadingBehind(sign + prefix, Repeat('0', pad), base);
      ReadingBehind(sign + prefix + Repeat('0', pad), core, base);
    } else {
      ReadingOfZeros(' ', pad, base);
      ReadingBehind(Repeat(' ', pad), sign, base);
      ReadingBehind(Repeat(' ', pad) + sign, prefix, base);
      ReadingBehind(Repeat(' ', pad) + sign + prefix, core, base);
    }
  }

  lemma {:induction false} InRepeat(c: char, n: int)
    ensures forall x :: x in Repeat(c, n) ==> x == c
  {
    if n > 0 { InRepeat(c, n - 1); }
  }

  lemma {:induction false} InDigits(n: nat, base: nat, upper: bool)
    requires 2 <= base <= 36
    ensures forall x :: x in Digits(n, base, upper) ==> DigitOf(x) < base
  {
    if n < base {
      DigitReads(n, upper);
    } else {
      InDigits(Quot(n, base), base, upper);
      DigitReads(Rem(n, base), upper);
    }
  }

  lemma {:induction false} InField(num: int, base: nat, size: int, precision: int, f: Flags, c: char)
    requires 2 <= base <= 36 && (c == '-' || c == '+')
    ensures c in Field(num, base, size, precision, f) <==> c in SignOf(num, f)
  {
    var digits := Digits(Magnitude(num, f), base, f.upper);
    var pad := size - |SignOf(num, f)| - |Prefix(base, f)| - |Core(num, base, precision, f)|;
    InDigits(Magnitude(num, f), base, f.upper);
    InRepeat('0', precision - |digits|);
    InRepeat(' ', pad);
    InRepeat('0', pad);
  }

  lemma {:induction false} FieldReads(num: int, base: nat, size: int, precision: int, f: Flags)
    requires 2 <= base <= 36
    ensures Reading(Field(num, base, size, precision, f), base) == Magnitude(num, f)
  {
    ReadingOfSign(num, f, base);
    ReadingOfPrefix(base, f);
    ReadingOfCore(num, base, precision, f);
    ReadingOfParts(SignOf(num, f), Prefix(base, f), Core(num, base, precision, f),
                   size - |SignOf(num, f)| - |Prefix(base, f)| - |Core(num, base, precision, f)|, f, base);
  }

  lemma {:induction false} SignCharacters(num: int, f: Flags)
    ensures '-' in SignOf(num, f) <==> f.sign && num < 0
    ensures '+' in SignOf(num, f) <==> f.sign && num >= 0 && f.plus
  {
  }

  lemma {:induction false} RepeatIs(c: char, n: int)
    ensures Repeat(c, n) == seq(if n > 0 then n else 0, _ => c)
  {
    if n > 0 { RepeatIs(c, n - 1); }
  }

  lemma {:induction false} SignIs(num: int, f: Flags)
    ensures SignOf(num, f) == if f.sign && num < 0 then "-" else if f.sign && f.plus then "+"
                              else if f.sign && f.space then " " else ""
  {
  }

  lemma {:induction false} CoreIs(num: int, base: nat, precision: int, f: Flags)
    requires 2 <= base <= 36
    ensures var digits := Digits(Magnitude(num, f), base, f.upper);
            var zeros := if precision > |digits| then precision - |digits| else 0;
            Core(num, base, precision, f) == seq(zeros, _ => '0') + digits
  {
    RepeatIs('0', precision - |Digits(Magnitude(num, f), base, f.upper)|);
  }

  lemma {:induction false} AssembleIs(sign: string, prefix: string, core: string, pad: int, f: Flags)
    ensures var n := if pad > 0 then pad else 0;
            Assemble(sign, prefix, core, pad, f) == if f.left then sign + prefix + core + seq(n, _ => ' ')
                                                    else if f.zeropad then sign + prefix + seq(n, _ => '0') + core
                                                    else seq(n, _ => ' ') + sign + prefix + core
  {
    RepeatIs(' ', pad);
    RepeatIs('0', pad);
  }

  /** How a field looks: sign and prefix as the flags ask for them, zeros up to the precision and the digits, filled
      up with blanks on the right or on the left, or with zeros between prefix and digits. */
  lemma {:induction false} FieldLooks(num: int, base: nat, size: int, precision: int, f: Flags)
    requires 2 <= base <= 36
    ensures var text, digits := Field(num, base, size, precision, f), Digits(Magnitude(num, f), base, f.upper);
            var sign := if f.sign && num < 0 then "-" else if f.sign && f.plus then "+"
                        else if f.sign && f.space then " " else "";
            var prefix := if f.hexPrep && base == 16 then "0x" else if f.hexPrep && base == 8 then "0" else "";
            var core := seq(if precision > |digits| then precision - |digits| else 0, _ => '0') + digits;
            var used := |sign| + |prefix| + |core|;
            var pad := if size > used then size - used else 0;
            text == if f.left then sign + prefix + core + seq(pad, _ => ' ')
                    else if f.zeropad then sign + prefix + seq(pad, _ => '0') + core
                    else seq(pad, _ => ' ') + sign + prefix + core
  {
    SignIs(num, f);
    CoreIs(num, base, precision, f);
    AssembleIs(SignOf(num, f), Prefix(base, f), Core(num, base, precision, f),
               size - |SignOf(num, f)| - |Prefix(base, f)| - |Core(num, base, precision, f)|, f);
  }

  /** A field reads back as the number that was written, in every base and with all flags: its digits give the
      magnitude, a "-" stands in it exactly for a negative number and a "+" exactly where one was asked for.
      Without a sign it is the number's unsigned form. */
  lemma {:induction false} FieldReadsBack(num: int, base: nat, size: int, precision: int, f: Flags)
    requires 2 <= base <= 36
    ensures var text := Field(num, base, size, precision, f);
            && Reading(text, base) == (if !f.sign then num % 0x1_0000_0000 else if num < 0 then -num else num)
            && ('-' in text <==> f.sign && num < 0)
            && ('+' in text <==> f.sign && num >= 0 && f.plus)
  {
    FieldReads(num, base, size, precision, f);
    InField(num, base, size, precision, f, '-');
    InField(num, base, size, precision, f, '+');
    SignCharacters(num, f);
  }

  function Reversed(s: string): (r: string)
    ensures |r| == |s|
  {
    if s == "" then "" else [s[|s| - 1]] + Reversed(s[..|s| - 1])
  }

  lemma {:induction false} ReversedSnoc(s: string, c: char)
    ensures Reversed(s + [c]) == [c] + Reversed(s)
  {
    assert (s + [c])[..|s|] == s;
  }

  /** The digits that are still to be made. */
  function Rest(n: nat, base: nat, upper: bool): string
    requires 2 <= base <= 36
  {
    if n == 0 then "" else Digits(n, base, upper)
  }

  /** The digits of `num` are those still to be made, and then those made so far. */
  ghost predicate Progress(num: nat, n: nat, made: string, base: nat, upper: bool)
    requires 2 <= base <= 36
  {
    Digits(num, base, upper) == Rest(n, base, upper) + Reversed(made)
  }

  /** tmp[i] = dig[num % base]; num = num / base; */
  method NextDigit(n: nat, base: nat, upper: bool, tmp: array<char>, i: nat) returns (q: nat)
    requires 2 <= base <= 36 && i < tmp.Length
    modifies tmp
    ensures tmp[..i + 1] == old(tmp[..i]) + [DigitChar(Rem(n, base), upper)] && q == Quot(n, base)
  {
    QuotRem(n, base);
    Tables(Rem(n, base));
    tmp[i] := if upper then UPPER[n % base] else LOWER[n % base];
    q := n / base;
  }

  lemma {:induction false} DigitMoves(n: nat, base: nat, upper: bool, num: nat, made: string)
    requires 2 <= base <= 36 && n > 0 && Progress(num, n, made, base, upper)
    ensures Progress(num, Quot(n, base), made + [DigitChar(Rem(n, base), upper)], base, upper)
  {
    var front, d := Rest(Quot(n, base), base, upper), DigitChar(Rem(n, base), upper);
    ReversedSnoc(made, d);
    Assoc(front, [d], Reversed(made));
    Assoc([d], "", "");
  }

  lemma {:induction false} FewDigits(n: nat, base: nat, upper: bool, bits: nat)
    requires 2 <= base <= 36 && bits > 0 && n < Pow2(bits)
    ensures |Digits(n, base, upper)| <= bits
  {
    if n >= base { FewDigits(Quot(n, base), base, upper, bits - 1); }
  }

  lemma {:induction false} AtMost32Digits(n: Word, base: nat, upper: bool)
    requires 2 <= base <= 36
    ensures |Digits(n, base, upper)| <= 32
  {
    PowFacts();
    FewDigits(n, base, upper, 32);
  }

  /** The digits, least significant first, into a buffer of 66 characters. */
  method MakeDigits(num: Word, base: nat, upper: bool, tmp: array<char>) returns (i: nat)
    requires 2 <= base <= 36 && tmp.Length == 66
    modifies tmp
    ensures i <= 32 && Reversed(tmp[..i]) == Digits(num, base, upper)
  {
    i := 0;
    if num == 0 {
      tmp[0] := '0';
      assert tmp[..1] == "" + ['0'];
      ReversedSnoc("", '0');
      return 1;
    }
    AtMost32Digits(num, base, upper);
    var n: nat := num;
    ghost var made := "";
    assert Digits(num, base, upper) + "" == Digits(num, base, upper);
    while n != 0
      invariant i <= 32 && tmp[..i] == made && Progress(num, n, made, base, upper)
    {
      DigitMoves(n, base, upper, num, made);
      made := made + [DigitChar(Rem(n, base), upper)];
      n := NextDigit(n, base, upper, tmp, i);
      i := i + 1;
    }
    assert Digits(num, base, upper) == Reversed(made);
  }

  /** while (size-- > 0) *str++ = c */
  method Pad(str: string, size: int, c: char) returns (out: string, left: int)
    ensures out == str + Repeat(c, size)
    ensures left == (if size > 0 then -1 else size - 1)
  {
    out, left := str, size;
    while left > 0
      invariant size > 0 ==> 0 <= left <= size
      invariant size <= 0 ==> left == size
      invariant out == str + Repeat(c, size - left)
      decreases left
    {
      out, left := out + [c], left - 1;
    }
    left := left - 1;
  }

  /** The sign that is written, what it leaves of the number, and the characters it takes. */
  method TakeSign(num: int, f: Flags) returns (sign: string, n: Word)
    requires LONG_MIN <= num <= LONG_MAX
    ensures sign == SignOf(num, f) && n == Magnitude(num, f)
  {
    sign := "";
    var rest := num;
    if f.sign {
      if rest < 0 {
        sign, rest := "-", -rest;
      } else if f.plus {
        sign := "+";
      } else if f.space {
        sign := " ";
      }
    }
    n := rest % TWO32;
  }

  /** The three places where padding can go; at most one of them gets any. */
  function Blanks(pad: int, f: Flags): string { if !f.zeropad && !f.left then Repeat(' ', pad) else "" }

  function Zeros(pad: int, f: Flags): string { if f.zeropad && !f.left then Repeat('0', pad) else "" }

  function Trail(pad: int, f: Flags): string { if f.left then Repeat(' ', pad) else "" }

  lemma {:induction false} InOneRow(str: string, sign: string, prefix: string, zeros: string,
                                     digits: string, pad: int, f: Flags)
    ensures str + Blanks(pad, f) + sign + prefix + Zeros(pad, f) + zeros + digits + Trail(pad, f)
         == str + Assemble(sign, prefix, zeros + digits, pad, f)
  {
    var lead := Blanks(pad, f) + sign + prefix + Zeros(pad, f);
    calc {
      str + Blanks(pad, f) + sign + prefix + Zeros(pad, f) + zeros + digits + Trail(pad, f);
      { Assoc(str, Blanks(pad, f), sign); Assoc(str, Blanks(pad, f) + sign, prefix);
        Assoc(str, Blanks(pad, f) + sign + prefix, Zeros(pad, f)); }
      str + lead + zeros + digits + Trail(pad, f);
      { Assoc(str + lead, zeros, digits); Assoc(str, lead, zeros + digits);
        Assoc(str, lead + (zeros + digits), Trail(pad, f)); }
      str + (lead + (zeros + digits) + Trail(pad, f));
      { Assoc(Repeat(' ', pad), "", ""); Assoc(sign, "", ""); Assoc(sign + prefix, "", "");
        Assoc(lead + (zeros + digits), "", ""); Assoc(Repeat(' ', pad) + sign + prefix, "", ""); }
      str + Assemble(sign, prefix, zeros + digits, pad, f);
    }
  }

  /** Everything that is written, once the digits and the padding are known. */
  method WriteField(str: string, sign: string, base: nat, tmp: array<char>, i: nat, zeros: int, pad: int, f: Flags)
    returns (out: string)
    requires i <= tmp.Length
    ensures out == str + Assemble(sign, Prefix(base, f), Repeat('0', zeros) + Reversed(tmp[..i]), pad, f)
  {
    out := str;
    var size, left := pad, zeros;
    Assoc(str, "", "");
    if !f.zeropad && !f.left { out, size := Pad(out, size, ' '); }
    assert out == str + Blanks(pad, f);
    out := out + sign;
    Assoc(out, "", "");
    if f.hexPrep {
      if base == 8 { out := out + "0"; } else if base == 16 { out := out + "0x"; }
    }
    assert out == str + Blanks(pad, f) + sign + Prefix(base, f);
    Assoc(out, "", "");
    if !f.left { out, size := Pad(out, size, if f.zeropad then '0' else ' '); }
    assert out == str + Blanks(pad, f) + sign + Prefix(base, f) + Zeros(pad, f);
    out, left := Pad(out, left, '0');
    out := Emit(out, tmp, i);
    Assoc(out, "", "");
    out, size := Pad(out, size, ' ');
    InOneRow(str, sign, Prefix(base, f), Repeat('0', zeros), Reversed(tmp[..i]), pad, f);
  }

  lemma {:induction false} FieldParts(num: int, base: nat, size: int, precision: int, f: Flags, zeros: nat, pad: int)
    requires 2 <= base <= 36
    requires var digits := |Digits(Magnitude(num, f), base, f.upper)|;
             zeros == Max(digits, precision) - digits
             && pad == size - |SignOf(num, f)| - |Prefix(base, f)| - zeros - digits
    ensures Field(num, base, size, precision, f)
         == Assemble(SignOf(num, f), Prefix(base, f),
                     Repeat('0', zeros) + Digits(Magnitude(num, f), base, f.upper), pad, f)
  {
    assert Repeat('0', zeros) == Repeat('0', precision - |Digits(Magnitude(num, f), base, f.upper)|);
  }

  /** number(): appends the field to the output, or fails for a base it cannot write. */
  method Format(str: string, num: int, base: int, size: int, precision: int, f: Flags) returns (r: Option<string>)
    requires LONG_MIN <= num <= LONG_MAX
    ensures r == if 2 <= base <= 36 then Some(str + Field(num, base, size, precision, f)) else None
  {
    if base < 2 || base > 36 { return None; }
    var tmp := new char[66];
    var sign, n := TakeSign(num, f);
    var room := size - |sign|;
    if f.hexPrep {
      if base == 16 { room := room - 2; } else if base == 8 { room := room - 1; }
    }
    var i := MakeDigits(n, base, f.upper, tmp);
    var width := if i > precision then i else precision;
    FieldParts(num, base, size, precision, f, width - i, room - width);
    var out := WriteField(str, sign, base, tmp, i, width - i, room - width, f);
    r := Some(out);
  }

  /** while (i-- > 0) *str++ = tmp[i] */
  method Emit(str: string, tmp: array<char>, n: nat) returns (out: string)
    requires n <= tmp.Length
    ensures out == str + Reversed(tmp[..n])
  {
    out := str;
    var i := n;
    while i > 0
      invariant 0 <= i <= n
      invariant out + Reversed(tmp[..i]) == str + Reversed(tmp[..n])
    {
      i := i - 1;
      assert tmp[..i + 1] == tmp[..i] + [tmp[i]];
      ReversedSnoc(tmp[..i], tmp[i]);
      assert out + ([tmp[i]] + Reversed(tmp[..i])) == (out + [tmp[i]]) + Reversed(tmp[..i]);
      out := out + [tmp[i]];
    }
  }

  predicate IsDigit(c: char) { '0' <= c <= '9' }

  /** How many digits a string starts with. */
  function Run(s: string): (n: nat)
    ensures n <= |s|
    ensures forall k :: 0 <= k < n ==> '0' <= s[k] <= '9'
    ensures n < |s| ==> !('0' <= s[n] <= '9')
  {
    if s == "" || !IsDigit(s[0]) then 0 else 1 + Run(s[1..])
  }

  /** The largest i * 10 + c that the parser computes on a string of digits. */
  function Peak(s: string): int {
    if s == "" then 0
    else
      var front := s[..|s| - 1];
      Max(Peak(front), Value(front, 10) * 10 + s[|s| - 1] as nat)
  }

  lemma {:induction false} PeakIs(s: string)
    requires s != "" && forall k :: 0 <= k < |s| ==> IsDigit(s[k])
    ensures Peak(s) == Value(s, 10) + '0' as nat
  {
    if |s| > 1 { PeakIs(s[..|s| - 1]); }
  }

  /** Of the decimal numbers that fit an int, exactly the last 48 make the parser leave the type. */
  lemma {:induction false} ReadableInts(num: nat)
    requires num <= INT_MAX
    ensures Peak(Digits(num, 10, false)) <= INT_MAX <==> num <= INT_MAX - 48
    ensures Peak(Digits(0x7FFF_FFFF, 10, false)) > INT_MAX
  {
    DecimalDigits(num);
    DigitsDenote(num, 10, false);
    PeakIs(Digits(num, 10, false));
    DecimalDigits(0x7FFF_FFFF);
    DigitsDenote(0x7FFF_FFFF, 10, false);
    PeakIs(Digits(0x7FFF_FFFF, 10, false));
  }

  lemma {:induction false} OneMore(s: string, c: char)
    requires IsDigit(c)
    ensures Value(s + [c], 10) == Value(s, 10) * 10 + c as nat - '0' as nat >= 0
    ensures Peak(s + [c]) == Max(Peak(s), Value(s, 10) * 10 + c as nat)
  {
    ValueSnoc(s, c, 10);
    assert (s + [c])[..|s|] == s;
  }

  /** What the parser knows after a run of digits. */
  ghost predicate Parsed(run: string, i: nat, fits: bool) {
    && (forall k :: 0 <= k < |run| ==> IsDigit(run[k]))
    && i == Value(run, 10) && (fits <==> Peak(run) <= INT_MAX)
  }

  lemma {:induction false} ParsedMore(run: string, c: char, i: nat, fits: bool)
    requires Parsed(run, i, fits) && IsDigit(c)
    ensures i * 10 + c as nat >= '0' as nat
    ensures Parsed(run + [c], i * 10 + c as nat - '0' as nat, fits && i * 10 + c as nat <= INT_MAX)
  {
    OneMore(run, c);
  }

  /** skip_atoi: the number, the place behind it, and whether every i * 10 + c on the way was an int. */
  method SkipAtoi(s: string, start: nat) returns (i: nat, next: nat, fits: bool)
    requires start <= |s|
    ensures next == start + Run(s[start..])
    ensures i == Value(s[start..next], 10)
    ensures fits <==> Peak(s[start..next]) <= INT_MAX
  {
    i, next, fits := 0, start, true;
    ghost var run := "";
    while next < |s| && IsDigit(s[next])
      invariant start <= next <= |s| && run == s[start..next]
      invariant Parsed(run, i, fits)
    {
      var c := s[next] as nat;
      ParsedMore(run, s[next], i, fits);
      run := run + [s[next]];
      fits := fits && i * 10 + c <= INT_MAX;
      i := i * 10 + c - '0' as nat;
      next := next + 1;
    }
    RunIs(s[start..], next - start);
  }

  lemma {:induction false} RunIs(s: string, n: nat)
    requires n <= |s| && (forall k :: 0 <= k < n ==> IsDigit(s[k])) && (n < |s| ==> !IsDigit(s[n]))
    ensures Run(s) == n
  {
    if n > 0 { RunIs(s[1..], n - 1); }
  }

  lemma {:induction false} DecimalDigits(n: nat)
    ensures forall k :: 0 <= k < |Digits(n, 10, false)| ==> IsDigit(Digits(n, 10, false)[k])
  {
    if n >= 10 { DecimalDigits(Quot(n, 10)); }
  }

  lemma {:induction false} PlainField(num: nat, size: int, precision: int)
    requires num <= LONG_MAX && size <= |Digits(num, 10, false)| && precision <= |Digits(num, 10, false)|
    ensures Field(num, 10, size, precision, Flags(false, true, false, false, false, false, false))
         == Digits(num, 10, false)
  {
    Assoc(Digits(num, 10, false), "", "");
  }

  lemma {:induction false} DigitsParse(num: nat, rest: string)
    requires rest == "" || !IsDigit(rest[0])
    ensures var digits := Digits(num, 10, false);
            Run(digits + rest) == |digits| && Value(digits, 10) == num
  {
    var digits := Digits(num, 10, false);
    DecimalDigits(num);
    DigitsDenote(num, 10, false);
    RunIs(digits + rest, |digits|);
  }

  /** The parser undoes the plain decimal form: whatever follows it, it stops behind it and returns the
      number that was written. */
  lemma {:induction false} AtoiUndoesFormat(num: nat, size: int, precision: int, rest: string)
    requires num <= LONG_MAX && (rest == "" || !IsDigit(rest[0]))
    requires size <= |Digits(num, 10, false)| && precision <= |Digits(num, 10, false)|
    ensures var plain := Flags(false, true, false, false, false, false, false);
            var text := Field(num, 10, size, precision, plain);
            Run(text + rest) == |text| && Value(text, 10) == num
  {
    PlainField(num, size, precision);
    DigitsParse(num, rest);
  }
}
