/** What the output of vsnprintf means: the numbers and fields against ISO C99, section 7.19.6.1. */
module FormatLaws {
  import opened Format
  import Arithmetic

  // ---------------------------------------------------------------- digits

  /** A number in a base, highest digit first, without leading zeros. */
  function Written(u: nat, base: nat, caps: bool): (r: string)
    requires 2 <= base <= 16
    ensures |r| >= 1
    decreases u
  {
    if u < base then [DigitChar(u, caps)]
    else
      assert u / base < u by { Shrinks(u, base); }
      Written(u / base, base, caps) + [DigitChar(u % base, caps)]
  }

  /** What a digit stands for. */
  function DigitOf(c: char): nat {
    if '0' <= c <= '9' then c as nat - '0' as nat
    else if 'a' <= c <= 'f' then 10 + (c as nat - 'a' as nat)
    else if 'A' <= c <= 'F' then 10 + (c as nat - 'A' as nat)
    else 0
  }

  /** What a string of digits stands for, highest first. */
  function ValueOf(s: string, base: nat): nat {
    if s == "" then 0 else base * ValueOf(s[..|s| - 1], base) + DigitOf(s[|s| - 1])
  }

  lemma DigitRead(d: nat, caps: bool)
    requires d < 16
    ensures DigitOf(DigitChar(d, caps)) == d
    ensures DigitChar(d, caps) == '0' <==> d == 0
    ensures DigitChar(d, caps) != '\0'
  {
  }

  lemma ValueOfNone(base: nat)
    ensures ValueOf("", base) == 0
  {
  }

  lemma ValueOfLast(s: string, c: char, base: nat)
    ensures ValueOf(s + [c], base) == base * ValueOf(s, base) + DigitOf(c)
  {
    hide DigitOf;
    assert (s + [c])[..|s|] == s;
  }

  lemma Parts(u: nat, base: nat)
    requires 2 <= base <= u
    ensures base * (u / base) + u % base == u && u / base != 0
  {
  }

  /** A written number reads back as the number, and starts with a zero only if it is zero. */
  lemma {:induction false} WrittenReadsBack(u: nat, base: nat, caps: bool)
    requires 2 <= base <= 16
    ensures ValueOf(Written(u, base, caps), base) == u
    ensures Written(u, base, caps)[0] == '0' <==> u == 0
    ensures u == 0 ==> Written(u, base, caps) == "0"
    decreases u
  {
    hide DigitChar, DigitOf, ValueOf;
    if u < base {
      ValueOfNone(base);
      assert Written(u, base, caps) == "" + [DigitChar(u, caps)];
      DigitRead(u, caps);
      ValueOfLast("", DigitChar(u, caps), base);
    } else {
      Shrinks(u, base);
      WrittenReadsBack(u / base, base, caps);
      DigitRead(u % base, caps);
      ValueOfLast(Written(u / base, base, caps), DigitChar(u % base, caps), base);
      Parts(u, base);
    }
  }

  lemma LowestDigit(u: nat, base: nat)
    requires 2 <= base
    ensures u < base ==> u / base == 0 && u % base == u
    ensures u >= base ==> 0 < u / base < u
  {
    Shrinks(u, base);
    if u >= base { Parts(u, base); } else { assert u == base * 0 + u; }
  }

  lemma ReversedDigits(u: nat, base: nat, caps: bool)
    requires 2 <= base <= 16
    ensures Reversed(u, base, caps) == [DigitChar(u % base, caps)] + if u < base then "" else Reversed(u / base, base, caps)
  {
    hide DigitChar;
    LowestDigit(u, base);
  }

  lemma WrittenDigits(u: nat, base: nat, caps: bool)
    requires 2 <= base <= 16
    ensures Written(u, base, caps) == (if u < base then "" else Written(u / base, base, caps)) + [DigitChar(u % base, caps)]
  {
    hide DigitChar;
    LowestDigit(u, base);
  }

  /** The digits made lowest first and put out in reverse are the written number. */
  lemma {:induction false} ReversedIsWritten(u: nat, base: nat, caps: bool)
    requires 2 <= base <= 16
    ensures Grouped(Reversed(u, base, caps), |Reversed(u, base, caps)|, false) == Written(u, base, caps)
    decreases u
  {
    hide DigitChar, Reversed, Written, Grouped;
    LowestDigit(u, base);
    ReversedDigits(u, base, caps);
    WrittenDigits(u, base, caps);
    var r := Reversed(u, base, caps);
    if u < base {
      assert r == [r[0]];
      GroupedOne(r[0]);
    } else {
      ReversedIsWritten(u / base, base, caps);
      GroupedBehind(r[0], Reversed(u / base, base, caps), |r| - 1);
    }
  }

  lemma GroupedOne(c: char)
    ensures Grouped([c], 1, false) == [c]
  {
    assert Grouped([c], 1, false) == [c] + "" + Grouped([c], 0, false);
  }

  lemma {:induction false} GroupedBehind(c: char, r: string, pos: nat)
    requires pos <= |r|
    ensures Grouped([c] + r, pos + 1, false) == Grouped(r, pos, false) + [c]
  {
    var all := [c] + r;
    if pos == 0 {
      assert Grouped(all, 1, false) == [all[0]] + "" + Grouped(all, 0, false);
    } else {
      GroupedBehind(c, r, pos - 1);
      assert all[pos] == r[pos - 1];
      assert Grouped(all, pos + 1, false) == [r[pos - 1]] + "" + Grouped(all, pos, false);
      assert [r[pos - 1]] + "" + (Grouped(r, pos - 1, false) + [c]) == ([r[pos - 1]] + "" + Grouped(r, pos - 1, false)) + [c];
    }
  }

  // ---------------------------------------------------------------- integer conversions

  /** The digits of a base below or equal to 16, in their order. */
  function Alphabet(upper: bool): (s: string)
    ensures |s| == 16
  {
    if upper then "0123456789ABCDEF" else "0123456789abcdef"
  }

  predicate IsNumeral(s: string, base: nat, upper: bool)
    requires base <= 16
  {
    forall c :: c in s ==> c in Alphabet(upper)[..base]
  }

  lemma DigitIn(c: char, base: nat, upper: bool)
    requires base <= 16
    ensures c in Alphabet(upper)[..base] <==> DigitOf(c) < base && DigitChar(DigitOf(c), upper) == c
  {
    var a := Alphabet(upper);
    if c in a[..base] {
      var i :| 0 <= i < base && a[..base][i] == c;
      DigitAt(i, upper);
    }
    if DigitOf(c) < base {
      DigitAt(DigitOf(c), upper);
      assert a[..base][DigitOf(c)] == a[DigitOf(c)];
    }
    hide DigitOf, DigitChar, Alphabet;
  }

  lemma DigitAt(i: nat, upper: bool)
    requires i < 16
    ensures DigitOf(Alphabet(upper)[i]) == i && DigitChar(i, upper) == Alphabet(upper)[i]
  {
  }

  lemma {:induction false} WrittenNumeral(u: nat, base: nat, upper: bool)
    requires 2 <= base <= 16
    ensures IsNumeral(Written(u, base, upper), base, upper)
    decreases u
  {
    hide DigitChar, Alphabet, Written;
    LowestDigit(u, base);
    WrittenDigits(u, base, upper);
    if u >= base { WrittenNumeral(u / base, base, upper); }
    DigitRead(u % base, upper);
    DigitIn(DigitChar(u % base, upper), base, upper);
  }

  /** s is w behind zeros, or only zeros for the number 0. */
  predicate ZerosThen(s: string, u: nat, w: string) {
    if u == 0 then s == Fill(|s|, '0') else |w| <= |s| && s == Fill(|s| - |w|, '0') + w
  }

  lemma ZerosStep(front: string, c: char, q: nat, u: nat, fw: string, w: string)
    requires ZerosThen(front, q, fw) && (q > 0 ==> u > 0) && (q == 0 ==> (c == '0' <==> u == 0))
    requires w == if q == 0 then [c] else fw + [c]
    ensures ZerosThen(front + [c], u, w)
  {
    if u == 0 {
      assert front + [c] == Fill(|front| + 1, '0');
    } else if q > 0 {
      assert Fill(|front| - |fw|, '0') + fw + [c] == Fill(|front| - |fw|, '0') + w;
    }
  }

  lemma NumeralParts(s: string, base: nat, upper: bool)
    requires s != "" && base <= 16 && IsNumeral(s, base, upper)
    ensures var front, c := s[..|s| - 1], s[|s| - 1];
            && IsNumeral(front, base, upper) && DigitOf(c) < base && DigitChar(DigitOf(c), upper) == c
            && ValueOf(s, base) == base * ValueOf(front, base) + DigitOf(c)
  {
    hide DigitChar, DigitOf, Alphabet;
    var front, c := s[..|s| - 1], s[|s| - 1];
    assert c in s && forall e :: e in front ==> e in s;
    DigitIn(c, base, upper);
  }

  /** A numeral is the written number behind zeros. */
  lemma {:induction false} ZerosBefore(s: string, base: nat, upper: bool)
    requires 2 <= base <= 16 && IsNumeral(s, base, upper)
    ensures var u := ValueOf(s, base); ZerosThen(s, u, Written(u, base, upper))
    decreases |s|
  {
    if s != "" {
      NumeralParts(s, base, upper);
      ZerosBefore(s[..|s| - 1], base, upper);
      hide *;
      var front, c := s[..|s| - 1], s[|s| - 1];
      var q, d := ValueOf(front, base), DigitOf(c);
      var u := ValueOf(s, base);
      DigitRead(d, upper);
      Arithmetic.Quotient(u, base, q, d);
      WrittenDigits(u, base, upper);
      if q > 0 { Above(q, base); }
      assert s == front + [c] && "" + [c] == [c];
      ZerosStep(front, c, q, u, Written(q, base, upper), Written(u, base, upper));
    }
  }

  lemma Above(q: nat, base: nat)
    requires q > 0
    ensures base * q >= base
  {
  }

  /** These are the digits C99 asks for: they stand for the number, there are at least as many as the
      precision, and one if there is none, a zero comes first only to make up that number, or one to
      make the alternative form of octal start with a zero. */
  ghost predicate AreDigits(s: string, u: nat, base: nat, upper: bool, precision: int, octal: bool)
    requires 2 <= base <= 16
  {
    var wanted := if precision < 0 then 1 else precision;
    && IsNumeral(s, base, upper) && ValueOf(s, base) == u && |s| >= wanted
    && (if octal then s != "" && s[0] == '0' && (|s| > wanted && |s| > 1 ==> s[1] != '0') else |s| > wanted ==> s[0] != '0')
  }

  /** The digits of an integer conversion: at least as many as the precision, none at all for zero with
      precision zero, and a leading zero for alternative octal. */
  function C99Digits(u: nat, base: nat, upper: bool, precision: int, octal: bool): string
    requires 2 <= base <= 16
  {
    var plain := if u == 0 && precision == 0 then "" else Written(u, base, upper);
    var wide := Fill(precision - |plain|, '0') + plain;
    if octal && (wide == "" || wide[0] != '0') then "0" + wide else wide
  }

  lemma {:induction false} ZerosValue(n: nat, s: string, base: nat)
    ensures ValueOf(Fill(n, '0') + s, base) == ValueOf(s, base)
    decreases |s|, n
  {
    hide DigitOf, ValueOf;
    var z := Fill(n, '0');
    if s != "" {
      var f, c := s[..|s| - 1], s[|s| - 1];
      ZerosValue(n, f, base);
      assert s == f + [c] && z + s == (z + f) + [c];
      ValueOfLast(z + f, c, base);
      ValueOfLast(f, c, base);
    } else if n > 0 {
      var y := Fill(n - 1, '0');
      ZerosValue(n - 1, "", base);
      assert y + "" == y && z + "" == z && z == y + ['0'];
      ValueOfLast(y, '0', base);
      DigitRead(0, false);
      ValueOfNone(base);
    }
  }

  lemma ZerosNumeral(n: nat, s: string, base: nat, upper: bool)
    requires 2 <= base <= 16
    ensures IsNumeral(Fill(n, '0') + s, base, upper) <==> IsNumeral(s, base, upper)
  {
    var t := Fill(n, '0') + s;
    DigitRead(0, upper);
    DigitIn('0', base, upper);
    hide Alphabet;
    assert forall c :: c in s ==> c in t;
    assert forall c :: c in t ==> c == '0' || c in s;
  }

  lemma DigitsAre(s: string, u: nat, base: nat, upper: bool, precision: int, octal: bool)
    requires 2 <= base <= 16 && precision >= -1
    ensures AreDigits(s, u, base, upper, precision, octal) <==> s == C99Digits(u, base, upper, precision, octal)
  {
    hide Written, ValueOf, IsNumeral;
    WrittenReadsBack(u, base, upper);
    WrittenNumeral(u, base, upper);
    var plain := if u == 0 && precision == 0 then "" else Written(u, base, upper);
    var wide := Fill(precision - |plain|, '0') + plain;
    NoNumeral(base, upper);
    var n := |Fill(precision - |plain|, '0')|;
    ZerosValue(n, plain, base);
    ZerosNumeral(n, plain, base, upper);
    ZerosValue(1, wide, base);
    ZerosNumeral(1, wide, base, upper);
    assert Fill(1, '0') == "0";
    if AreDigits(s, u, base, upper, precision, octal) { ZerosBefore(s, base, upper); }
  }

  lemma NoNumeral(base: nat, upper: bool)
    requires base <= 16
    ensures IsNumeral("", base, upper) && ValueOf("", base) == 0
  {
  }

  lemma FillSplit(a: nat, b: nat, ch: char)
    ensures Fill(a, ch) + Fill(b, ch) == Fill(a + b, ch)
  {
  }

  /** A number in its field as C99 asks for it. */
  function C99Field(front: string, digits: string, width: int, precision: int, flags: Flags): string {
    var pad := width - |front| - |digits|;
    if flags.minus then front + digits + Fill(pad, ' ')
    else if flags.zero && precision == -1 then front + Fill(pad, '0') + digits
    else Fill(pad, ' ') + front + digits
  }

  /** The sign of a signed conversion, and the prefix of alternative hexadecimal, as C99 asks for them. */
  function C99Front(v: int, base: nat, flags: Flags): string {
    (if v < 0 then "-" else if flags.unsigned then "" else if flags.plus then "+" else if flags.space then " " else "")
    + (if flags.num && base == 16 && v != 0 then (if flags.up then "0X" else "0x") else "")
  }

  function Size(v: int): nat { if v < 0 then -v else v }

  /** The value of the type of the conversion that the number passed stands for. */
  predicate Passed(v: int, value: int, unsigned: bool) {
    if unsigned then 0 <= v < WORD_LIMIT && (v - value) % WORD_LIMIT == 0 else -WORD_LIMIT < v < WORD_LIMIT && v == value
  }

  lemma SizeIs(v: int, value: int, unsigned: bool)
    requires Passed(v, value, unsigned)
    ensures Magnitude(value, unsigned) == Size(v)
  {
  }

  lemma FrontAgrees(v: int, value: int, base: nat, flags: Flags)
    requires Passed(v, value, flags.unsigned)
    ensures Front(value, base, flags) == C99Front(v, base, flags)
  {
    SizeIs(v, value, flags.unsigned);
    hide Magnitude;
  }

  /** The one conversion C99 gives no digits. */
  predicate NoDigits(u: nat, base: nat, precision: int, flags: Flags) { u == 0 && precision == 0 && !(flags.num && base == 8) }

  /** The digits of the code and of C99: the zeros asked for, then the number. */
  lemma DigitsAgree(u: nat, base: nat, precision: int, flags: Flags)
    requires 2 <= base <= 16 && precision >= -1 && !NoDigits(u, base, precision, flags)
    ensures var w := Written(u, base, flags.up);
            var wanted := DigitsWanted(u, base, precision, flags, |w|);
            C99Digits(u, base, flags.up, precision, flags.num && base == 8) == Fill(Max(wanted - |w|, 0), '0') + w
  {
    hide Written, ValueOf;
    WrittenReadsBack(u, base, flags.up);
    var w := Written(u, base, flags.up);
    assert Fill(1, '0') == "0";
    assert Fill(0, '0') + w == w;
    if precision > |w| {
      assert (Fill(precision - |w|, '0') + w)[0] == '0';
    }
  }

  lemma {:induction false} SameLength(u: nat, base: nat, caps: bool)
    requires 2 <= base <= 16
    ensures |Reversed(u, base, caps)| == |Written(u, base, caps)|
    decreases u
  {
    hide DigitChar, Reversed, Written;
    LowestDigit(u, base);
    ReversedDigits(u, base, caps);
    WrittenDigits(u, base, caps);
    if u >= base { SameLength(u / base, base, caps); }
  }

  /** The padding of the code makes the field of C99. */
  lemma FieldsAgree(front: string, w: string, width: int, precision: int, wanted: int, flags: Flags)
    ensures var p := Pads(width, precision, wanted, |w|, 0, |front|, flags);
            Padded(front, w, p) == C99Field(front, Fill(Max(wanted - |w|, 0), '0') + w, width, precision, flags)
  {
    hide Fill;
    var p := Pads(width, precision, wanted, |w|, 0, |front|, flags);
    var z := Max(wanted - |w|, 0);
    var pad := width - |front| - z - |w|;
    assert z + |w| == Max(wanted, |w|);
    assert Fill(0, ' ') == "";
    if !flags.minus && flags.zero && precision == -1 {
      FillSplit(Max(pad, 0), z, '0');
    }
  }

  /** A field of a zero is not a field of no digits. */
  lemma ZeroDiffers(sign: string, width: int, flags: Flags)
    requires '0' !in sign
    ensures C99Field(sign, "0", width, 0, flags) != C99Field(sign, "", width, 0, flags)
  {
    var a, b := C99Field(sign, "0", width, 0, flags), C99Field(sign, "", width, 0, flags);
    assert '0' in a by { assert a[if flags.minus then |sign| else |a| - 1] == '0'; }
    assert '0' !in b;
  }

  lemma FillZero(ch: char)
    ensures Fill(0, ch) == ""
  {
  }

  function Front(value: int, base: nat, flags: Flags): string {
    SignText(Sign(value, flags)) + PrefixText(PrefixLetter(Magnitude(value, flags.unsigned), base, flags))
  }

  function Padded(front: string, w: string, p: Padding): string {
    Fill(p.before, ' ') + front + Fill(p.zeros, '0') + w + Fill(p.behind, ' ')
  }

  /** The field of the code in terms of the written number. */
  lemma FieldOfCode(value: int, base: nat, width: int, precision: int, flags: Flags)
    requires 2 <= base <= 16 && !flags.quote
    ensures var u := Magnitude(value, flags.unsigned);
            var w := Written(u, base, flags.up);
            var front := Front(value, base, flags);
            FmtInt(value, base, width, precision, flags)
            == Padded(front, w, Pads(width, precision, DigitsWanted(u, base, precision, flags, |w|), |w|, 0, |front|, flags))
  {
    hide Written, Reversed, Grouped, Fill, Pads;
    var u := Magnitude(value, flags.unsigned);
    ReversedIsWritten(u, base, flags.up);
    SameLength(u, base, flags.up);
    var w := Written(u, base, flags.up);
    var sign, prefix := SignText(Sign(value, flags)), PrefixText(PrefixLetter(u, base, flags));
    var p := Pads(width, precision, DigitsWanted(u, base, precision, flags, |w|), |w|, 0, |sign| + |prefix|, flags);
    assert Fill(p.before, ' ') + sign + prefix == Fill(p.before, ' ') + (sign + prefix);
  }

  /** A conversion without grouping is what C99 asks for, unless C99 asks for no digits at all. */
  lemma IntegerConversion(v: int, value: int, base: nat, width: int, precision: int, flags: Flags, digits: string)
    requires 2 <= base <= 16 && precision >= -1 && !flags.quote && Passed(v, value, flags.unsigned)
    requires AreDigits(digits, Size(v), base, flags.up, precision, flags.num && base == 8)
    ensures FmtInt(value, base, width, precision, flags) == C99Field(C99Front(v, base, flags), digits, width, precision, flags)
            <==> !(v == 0 && precision == 0 && !(flags.num && base == 8))
  {
    hide Written, Fill, Pads, C99Field, C99Digits, FmtInt, Front, C99Front, AreDigits, Magnitude, Passed;
    FieldOfCode(value, base, width, precision, flags);
    FrontAgrees(v, value, base, flags);
    SizeIs(v, value, flags.unsigned);
    var u := Magnitude(value, flags.unsigned);
    DigitsAre(digits, u, base, flags.up, precision, flags.num && base == 8);
    if NoDigits(u, base, precision, flags) {
      ZeroConversion(value, base, width, flags);
    } else {
      var w := Written(u, base, flags.up);
      DigitsAgree(u, base, precision, flags);
      FieldsAgree(Front(value, base, flags), w, width, precision, DigitsWanted(u, base, precision, flags, |w|), flags);
    }
  }

  lemma ZeroConversion(value: int, base: nat, width: int, flags: Flags)
    requires 2 <= base <= 16 && !flags.quote && NoDigits(Magnitude(value, flags.unsigned), base, 0, flags)
    ensures C99Digits(0, base, flags.up, 0, false) == ""
    ensures FmtInt(value, base, width, 0, flags) != C99Field(Front(value, base, flags), "", width, 0, flags)
  {
    hide Written, FmtInt, Fill, C99Field;
    FieldOfCode(value, base, width, 0, flags);
    WrittenReadsBack(0, base, flags.up);
    var sign := SignText(Sign(value, flags));
    assert Front(value, base, flags) == sign;
    ZeroDiffers(sign, width, flags);
    FillZero('0');
    FieldsAgree(sign, "0", width, 0, 0, flags);
    assert Fill(0, '0') + "0" == "0" && Fill(0, '0') + "" == "";
  }

  /** v is the value of the argument of d or i (in two's complement), or of u, o, x or X, in as many
      bits as the length modifier says. */
  predicate IsArgument(v: int, args: seq<Arg>, arg: nat, length: Length, signed: bool) {
    var word := if arg < |args| then args[arg].word else 0;
    var n := if length == CharLength then 0x100 else if length == ShortLength then 0x1_0000 else 0x1_0000_0000;
    (v - word) % n == 0 && if signed then -n <= 2 * v < n else 0 <= v < n
  }

  lemma ModAdd(x: int, n: int, q: int)
    requires n > 0
    ensures (x + n * q) % n == x % n
  {
    var y := x + n * q;
    var d := y / n - x / n - q;
    assert n * (y / n) + y % n == y && n * (x / n) + x % n == x;
    assert n * d == n * (y / n) - n * (x / n) - n * q;
    Multiple(n, d);
  }

  lemma Multiple(n: int, d: int)
    requires n > 0 && -n < n * d < n
    ensures d == 0
  {
    if d > 0 { AtLeast(n, d); } else if d < 0 { AtLeast(n, -d); }
  }

  lemma AtLeast(n: int, d: int)
    requires n > 0 && d > 0
    ensures n * d >= n
  {
    assert n * d == n + n * (d - 1);
  }

  lemma Congruent(v: int, word: nat, n: int)
    requires n > 0
    ensures (v - word) % n == 0 <==> (v - word % n) % n == 0
  {
    var q := word / n;
    ModAdd(v - word, n, q);
    assert word == n * q + word % n;
  }

  lemma Near(x: int, n: int)
    requires n > 0 && -2 * n < x < n
    ensures x % n == 0 <==> x == 0 || x == -n
  {
    ModAdd(x, n, 1);
    assert 0 % n == 0 && n % n == 0;
  }

  lemma Residue(v: int, word: nat, n: int)
    requires n > 0
    ensures (v - word) % n == 0 && 0 <= v < n <==> v == word % n
    ensures (v - word) % n == 0 && -n <= 2 * v < n <==> v == if 2 * (word % n) < n then word % n else word % n - n
  {
    Congruent(v, word, n);
    if -n <= 2 * v < 2 * n { Near(v - word % n, n); }
  }

  lemma Narrowed(word: nat)
    ensures word % WORD_LIMIT % 0x100 == word % 0x100 && word % WORD_LIMIT % 0x1_0000 == word % 0x1_0000
  {
    var q := word / WORD_LIMIT;
    ModAdd(word, 0x100, -0x100_0000 * q);
    ModAdd(word, 0x1_0000, -0x1_0000 * q);
  }

  lemma NarrowedArg(args: seq<Arg>, arg: nat, length: Length)
    ensures WordArg(args, arg) % Range(length) == (if arg < |args| then args[arg].word else 0) % Range(length)
  {
    Narrowed(if arg < |args| then args[arg].word else 0);
  }

  lemma ArgumentIs(v: int, args: seq<Arg>, arg: nat, length: Length)
    ensures IsArgument(v, args, arg, length, true) <==> v == SignedArg(args, arg, length)
    ensures IsArgument(v, args, arg, length, false) <==> v == UnsignedArg(args, arg, length)
  {
    SignedArgumentIs(v, args, arg, length);
    UnsignedArgumentIs(v, args, arg, length);
    hide IsArgument, SignedArg, UnsignedArg;
  }

  lemma SignedArgumentIs(v: int, args: seq<Arg>, arg: nat, length: Length)
    ensures IsArgument(v, args, arg, length, true) <==> v == SignedArg(args, arg, length)
  {
    var word := if arg < |args| then args[arg].word else 0;
    var n := if length == CharLength then 0x100 else if length == ShortLength then 0x1_0000 else 0x1_0000_0000;
    assert Range(length) == n;
    NarrowedArg(args, arg, length);
    Residue(v, word, n);
    Halved(word % n, n);
    hide WordArg, Range;
  }

  lemma UnsignedArgumentIs(v: int, args: seq<Arg>, arg: nat, length: Length)
    ensures IsArgument(v, args, arg, length, false) <==> v == UnsignedArg(args, arg, length)
  {
    var word := if arg < |args| then args[arg].word else 0;
    NarrowedArg(args, arg, length);
    Residue(v, word, Range(length));
    hide WordArg;
  }

  lemma Halved(r: nat, n: nat)
    requires n in {0x100, 0x1_0000, 0x1_0000_0000}
    ensures 2 * r < n <==> r < n / 2
  {
  }

  /** Each integer conversion of a directive is what C99 asks for, with the value of its argument v in
      the digits C99 asks for, unless these are none. */
  lemma IntegerDirective(ch: char, length: Length, width: int, precision: int, flags: Flags, args: seq<Arg>, arg: nat, v: int, digits: string)
    requires ch in {'d', 'i', 'u', 'x', 'X', 'o'} && precision >= -1 && !flags.quote && !flags.up && !flags.unsigned
    requires IsArgument(v, args, arg, length, ch in {'d', 'i'})
    requires AreDigits(digits, if v < 0 then -v else v, if ch in {'x', 'X'} then 16 else if ch == 'o' then 8 else 10,
                       ch == 'X', precision, flags.num && ch == 'o')
    ensures var sign := if v < 0 then "-" else if ch !in {'d', 'i'} then "" else if flags.plus then "+" else if flags.space then " " else "";
            var prefix := if !flags.num || v == 0 then "" else if ch == 'x' then "0x" else if ch == 'X' then "0X" else "";
            var pad := width - |sign| - |prefix| - |digits|;
            Converted(ch, length, width, precision, flags, args, arg)
            == (if flags.minus then sign + prefix + digits + Fill(pad, ' ')
                else if flags.zero && precision == -1 then sign + prefix + Fill(pad, '0') + digits
                else Fill(pad, ' ') + sign + prefix + digits)
            <==> !(v == 0 && precision == 0 && !(flags.num && ch == 'o'))
  {
    hide FmtInt, AreDigits, SignedArg, UnsignedArg, Fill;
    ArgumentIs(v, args, arg, length);
    var base := if ch in {'x', 'X'} then 16 else if ch == 'o' then 8 else 10;
    var asked := if ch in {'d', 'i'} then flags else flags.(up := flags.up || ch == 'X', unsigned := true);
    assert Passed(v, v, asked.unsigned);
    IntegerConversion(v, v, base, width, precision, asked, digits);
  }

  /** Without grouping, a number fills its field and has at least the digits asked for. */
  lemma FieldLength(value: int, base: nat, width: int, precision: int, flags: Flags)
    requires 2 <= base <= 16 && precision >= -1 && !flags.quote
    ensures var n := |FmtInt(value, base, width, precision, flags)|;
            var front, w := Front(value, base, flags), Written(Magnitude(value, flags.unsigned), base, flags.up);
            n == Max(width, |front| + Max(DigitsWanted(Magnitude(value, flags.unsigned), base, precision, flags, |w|), |w|))
  {
    hide Written, FmtInt;
    FieldOfCode(value, base, width, precision, flags);
  }

  /** A pointer that is not null is a number in alternative hexadecimal. */
  lemma PointerDirective(length: Length, width: int, precision: int, flags: Flags, args: seq<Arg>, arg: nat, word: nat, digits: string)
    requires precision >= -1 && !flags.quote && !flags.up && !flags.unsigned
    requires word == if arg < |args| then args[arg].word % 0x1_0000_0000 else 0
    requires word != 0 ==> AreDigits(digits, word, 16, false, precision, false)
    ensures var r := Converted('p', length, width, precision, flags, args, arg);
            if word == 0 then r == if flags.minus then "(nil)" + Fill(width - 5, ' ') else Fill(width - 5, ' ') + "(nil)"
            else
              var pad := width - 2 - |digits|;
              r == if flags.minus then "0x" + digits + Fill(pad, ' ')
                   else if flags.zero && precision == -1 then "0x" + Fill(pad, '0') + digits
                   else Fill(pad, ' ') + "0x" + digits
  {
    hide FmtInt, AreDigits, Fill;
    if word == 0 {
      Shown("(nil)", -1, 0, 5);
    } else {
      var asked := flags.(num := true, unsigned := true);
      assert Passed(word, Signed(word, WORD_LIMIT), true);
      IntegerConversion(word, Signed(word, WORD_LIMIT), 16, width, precision, asked, digits);
    }
  }

  /** A string: the characters before its end, n of them, as many as the precision allows, in their
      field; "(null)" for the null pointer. */
  lemma StringDirective(length: Length, width: int, precision: int, flags: Flags, args: seq<Arg>, arg: nat, s: string, n: nat)
    requires precision >= -1
    requires s == if arg < |args| && args[arg].word % 0x1_0000_0000 != 0 then args[arg].text else "(null)"
    requires n <= |s| && '\0' !in s[..n] && (n == |s| || s[n] == '\0' || n == precision) && (precision == -1 || n <= precision)
    ensures Converted('s', length, width, precision, flags, args, arg)
            == if flags.minus then s[..n] + Fill(width - n, ' ') else Fill(width - n, ' ') + s[..n]
  {
    Shown(s, precision, 0, n);
  }

  /** So a string without an end in it fills its field and shows its first characters. */
  lemma StringConversion(s: string, width: int, precision: int, minus: bool)
    requires '\0' !in s && precision >= -1
    ensures var shown := if precision == -1 || |s| <= precision then s else s[..precision];
            && |FmtStr(s, width, precision, minus)| == Max(width, |shown|)
            && (if minus then shown <= FmtStr(s, width, precision, minus)
                else FmtStr(s, width, precision, minus) == Fill(width - |shown|, ' ') + shown)
  {
    var n := if precision == -1 || |s| <= precision then |s| else precision;
    assert forall c :: c in s[..n] ==> c in s;
    Shown(s, precision, 0, n);
  }

  lemma {:induction false} Shown(s: string, precision: int, i: nat, n: nat)
    requires i <= n <= |s| && '\0' !in s[..n] && (n == |s| || s[n] == '\0' || n == precision) && (precision == -1 || n <= precision)
    ensures StrLen(s, precision, i) == n
    decreases n - i
  {
    if i < n {
      assert s[i] in s[..n];
      Shown(s, precision, i + 1, n);
    }
  }

  /** The other conversions: a per cent sign, one character, and nothing for n and for characters that
      are no conversion. */
  lemma OtherDirective(ch: char, length: Length, width: int, precision: int, flags: Flags, args: seq<Arg>, arg: nat)
    requires ch !in {'d', 'i', 'u', 'x', 'X', 'o', 's', 'p'}
    ensures var r := Converted(ch, length, width, precision, flags, args, arg);
            && (ch == '%' ==> r == "%")
            && (ch == 'c' ==> |r| == 1 && r[0] as int == if arg < |args| then args[arg].word % 0x100 else 0)
            && (ch != '%' && ch != 'c' ==> r == "")
  {
    if arg < |args| { Narrowed(args[arg].word); }
  }

  /** C99 pads a character to its field; the code does not, so it is right just for widths up to one. */
  lemma CharacterConversion(width: int, precision: int, flags: Flags, length: Length, args: seq<Arg>, arg: nat, c: char)
    requires c as int == if arg < |args| then args[arg].word % 0x100 else 0
    ensures Converted('c', length, width, precision, flags, args, arg)
            == (if flags.minus then [c] + Fill(width - 1, ' ') else Fill(width - 1, ' ') + [c])
            <==> width <= 1
  {
    OtherDirective('c', length, width, precision, flags, args, arg);
    var r := Converted('c', length, width, precision, flags, args, arg);
    assert r == [c];
    FillZero(' ');
    assert [c] + "" == [c] && "" + [c] == [c];
  }

  /** What padding is: so many times one character. */
  lemma FillIs(n: int, ch: char)
    ensures |Fill(n, ch)| == (if n > 0 then n else 0) && forall c :: c in Fill(n, ch) ==> c == ch
  {
  }

  /** What the characters of a number stand for, in ASCII. */
  lemma DigitValues(c: char)
    ensures '0' <= c <= '9' ==> DigitOf(c) == c as int - 48
    ensures 'A' <= c <= 'F' ==> DigitOf(c) == c as int - 55
    ensures 'a' <= c <= 'f' ==> DigitOf(c) == c as int - 87
  {
  }

  // ---------------------------------------------------------------- grouping

  /** g is the number w with a comma before every three digits but the first ones, counted from the right. */
  ghost predicate IsGrouped(g: string, w: string)
    requires |w| > 0
  {
    && |g| == |w| + (|w| - 1) / 3
    && forall e :: 0 <= e < |g| ==> g[|g| - 1 - e] == if e % 4 == 3 then ',' else w[|w| - 1 - (e - (e + 1) / 4)]
  }

  /** The digit that is e places from the right, with the commas counted. */
  function FromRight(e: nat): nat { e - (e + 1) / 4 }

  /** The places the next digit and its comma take. */
  lemma CommaPlace(pos: nat)
    requires pos > 1
    ensures var n := pos - 1 + (pos - 2) / 3;
            if (pos - 1) % 3 == 0 then n % 4 == 3 && (n + 1) % 4 != 3 && FromRight(n + 1) == pos - 1 && n + 2 == pos + (pos - 1) / 3
            else n % 4 != 3 && FromRight(n) == pos - 1 && n + 1 == pos + (pos - 1) / 3
  {
    var a, b := (pos - 1) / 3, (pos - 1) % 3;
    assert pos - 1 == 3 * a + b;
    if b == 0 {
      Arithmetic.Quotient(pos - 2, 3, a - 1, 2);
      Arithmetic.Quotient(4 * a - 1, 4, a - 1, 3);
      Arithmetic.Quotient(4 * a, 4, a, 0);
      Arithmetic.Quotient(4 * a + 1, 4, a, 1);
    } else {
      Arithmetic.Quotient(pos - 2, 3, a, b - 1);
      Arithmetic.Quotient(4 * a + b, 4, a, b);
      Arithmetic.Quotient(4 * a + b + 1, 4, a, b + 1);
    }
  }

  lemma GroupedStep(digits: string, pos: nat)
    requires 1 < pos <= |digits|
    ensures var rest := Grouped(digits, pos - 1, true);
            Grouped(digits, pos, true) == if (pos - 1) % 3 == 0 then [digits[pos - 1], ','] + rest else [digits[pos - 1]] + rest
  {
    var rest := Grouped(digits, pos - 1, true);
    assert [digits[pos - 1]] + "," + rest == [digits[pos - 1], ','] + rest;
    assert [digits[pos - 1]] + "" + rest == [digits[pos - 1]] + rest;
  }

  /** Grouped digits, counted from the right. */
  lemma {:induction false} GroupedAt(digits: string, pos: nat)
    requires 0 < pos <= |digits|
    ensures var g := Grouped(digits, pos, true);
            && |g| == pos + (pos - 1) / 3
            && forall e :: 0 <= e < |g| ==>
                 if e % 4 == 3 then g[|g| - 1 - e] == ',' else FromRight(e) < pos && g[|g| - 1 - e] == digits[FromRight(e)]
  {
    if pos > 1 {
      GroupedAt(digits, pos - 1);
      CommaPlace(pos);
      GroupedStep(digits, pos);
      hide Grouped, FromRight;
      var g, rest := Grouped(digits, pos, true), Grouped(digits, pos - 1, true);
      forall e | 0 <= e < |g|
        ensures if e % 4 == 3 then g[|g| - 1 - e] == ',' else FromRight(e) < pos && g[|g| - 1 - e] == digits[FromRight(e)]
      {
        if e < |rest| { assert g[|g| - 1 - e] == rest[|rest| - 1 - e]; }
      }
    } else {
      assert Grouped(digits, 0, true) == "";
    }
  }

  lemma {:induction false} UngroupedAt(digits: string, pos: nat, i: nat)
    requires i < pos <= |digits|
    ensures |Grouped(digits, pos, false)| == pos && Grouped(digits, pos, false)[i] == digits[pos - 1 - i]
  {
    UngroupedLength(digits, pos);
    if i > 0 { UngroupedAt(digits, pos - 1, i - 1); }
  }

  lemma {:induction false} UngroupedLength(digits: string, pos: nat)
    requires pos <= |digits|
    ensures |Grouped(digits, pos, false)| == pos
  {
    if pos > 0 { UngroupedLength(digits, pos - 1); }
  }

  /** The digits put out with the grouping flag. */
  lemma GroupsAre(u: nat, base: nat, upper: bool, g: string)
    requires 2 <= base <= 16 && IsGrouped(g, Written(u, base, upper))
    ensures var r := Reversed(u, base, upper);
            g == Grouped(r, |r|, NumSep(|r|) > 0) && |g| == |r| + NumSep(|r|)
  {
    hide Reversed, Written;
    var r, w := Reversed(u, base, upper), Written(u, base, upper);
    SameLength(u, base, upper);
    ReversedIsWritten(u, base, upper);
    forall k | 0 <= k < |r|
      ensures w[|w| - 1 - k] == r[k]
    {
      UngroupedAt(r, |r|, |r| - 1 - k);
    }
    hide IsGrouped;
    if |r| > 3 {
      GroupedAt(r, |r|);
      SameGroups(g, w, r, Grouped(r, |r|, true));
    } else {
      NotGrouped(g, w);
    }
  }

  lemma SameGroups(g: string, w: string, r: string, h: string)
    requires |w| == |r| > 0 && IsGrouped(g, w) && forall k :: 0 <= k < |r| ==> w[|w| - 1 - k] == r[k]
    requires |h| == |r| + (|r| - 1) / 3
    requires forall e :: 0 <= e < |h| ==>
               if e % 4 == 3 then h[|h| - 1 - e] == ',' else FromRight(e) < |r| && h[|h| - 1 - e] == r[FromRight(e)]
    ensures g == h
  {
    forall i | 0 <= i < |g|
      ensures g[i] == h[i]
    {
      var e := |g| - 1 - i;
      var k := FromRight(e);
      assert g[|g| - 1 - e] == if e % 4 == 3 then ',' else w[|w| - 1 - (e - (e + 1) / 4)];
      assert if e % 4 == 3 then h[|h| - 1 - e] == ',' else FromRight(e) < |r| && h[|h| - 1 - e] == r[FromRight(e)];
    }
  }

  lemma NotGrouped(g: string, w: string)
    requires 0 < |w| <= 3 && IsGrouped(g, w)
    ensures g == w
  {
    forall i | 0 <= i < |g|
      ensures g[i] == w[i]
    {
      var e := |g| - 1 - i;
      assert g[|g| - 1 - e] == if e % 4 == 3 then ',' else w[|w| - 1 - (e - (e + 1) / 4)];
    }
  }

  lemma PaddedParts(front: string, g: string, z: nat, s: nat)
    ensures Padded(front, g, Padding(0, z, s)) == front + Fill(z, '0') + g + Fill(s, ' ')
    ensures Padded(front, g, Padding(0, z, 0)) == front + Fill(z, '0') + g
    ensures Padded(front, g, Padding(s, z, 0)) == Fill(s, ' ') + front + Fill(z, '0') + g
  {
    FillZero(' ');
    hide Fill;
    assert "" + front == front;
    var a, b := front + Fill(z, '0') + g, Fill(s, ' ') + front + Fill(z, '0') + g;
    assert a + "" == a && b + "" == b;
  }

  /** A number with the grouping flag: the sign and prefix C99 asks for, and the grouped digits g behind
      zeros. The zeros make up the precision together with the commas, the spaces do not. */
  lemma GroupedConversion(v: int, value: int, base: nat, width: int, precision: int, flags: Flags, g: string, zeros: nat, spaces: nat)
    requires 2 <= base <= 16 && precision >= -1 && flags.quote && Passed(v, value, flags.unsigned)
    requires IsGrouped(g, Written(Size(v), base, flags.up))
    requires var w := |Written(Size(v), base, flags.up)|;
             var wanted := if flags.num && v != 0 && base == 8 && precision <= w then w + 1 else precision;
             && zeros == (if wanted > |g| then wanted - |g| else 0)
             && var rest := width - (|g| - w) - (if wanted > w then wanted else w) - |C99Front(v, base, flags)|;
                spaces == if rest > 0 then rest else 0
    ensures var front := C99Front(v, base, flags);
            FmtInt(value, base, width, precision, flags)
            == if flags.minus then front + Fill(zeros, '0') + g + Fill(spaces, ' ')
               else if flags.zero && precision == -1 then front + Fill(zeros + spaces, '0') + g
               else Fill(spaces, ' ') + front + Fill(zeros, '0') + g
  {
    hide Written, Reversed, Fill, Grouped, IsGrouped, Magnitude, Passed, C99Front, Pads, Padded;
    FrontAgrees(v, value, base, flags);
    SizeIs(v, value, flags.unsigned);
    GroupsAre(Size(v), base, flags.up, g);
    SameLength(Size(v), base, flags.up);
    var w := |Written(Size(v), base, flags.up)|;
    var wanted := DigitsWanted(Size(v), base, precision, flags, w);
    var front := Front(value, base, flags);
    PadsAre(width, precision, wanted, w, NumSep(w), |front|, flags, zeros, spaces);
    FieldParts(value, base, width, precision, flags, g);
    hide FmtInt, Front, DigitsWanted;
    PaddedParts(front, g, if flags.minus || !flags.zero || precision != -1 then zeros else zeros + spaces, spaces);
  }

  lemma PadsAre(width: int, precision: int, wanted: int, w: nat, seps: nat, extra: nat, flags: Flags, zeros: nat, spaces: nat)
    requires zeros == if wanted > w + seps then wanted - w - seps else 0
    requires var rest := width - seps - (if wanted > w then wanted else w) - extra; spaces == if rest > 0 then rest else 0
    ensures Pads(width, precision, wanted, w, seps, extra, flags)
            == if flags.minus then Padding(0, zeros, spaces) else if flags.zero && precision == -1 then Padding(0, zeros + spaces, 0)
               else Padding(spaces, zeros, 0)
  {
  }

  /** The parts the code puts out, with the grouped digits g. */
  lemma FieldParts(value: int, base: nat, width: int, precision: int, flags: Flags, g: string)
    requires 2 <= base <= 16 && flags.quote
    requires var r := Reversed(Magnitude(value, flags.unsigned), base, flags.up); g == Grouped(r, |r|, NumSep(|r|) > 0)
    ensures var u := Magnitude(value, flags.unsigned);
            var n := |Reversed(u, base, flags.up)|;
            var front := Front(value, base, flags);
            FmtInt(value, base, width, precision, flags)
            == Padded(front, g, Pads(width, precision, DigitsWanted(u, base, precision, flags, n), n, NumSep(n), |front|, flags))
  {
    hide Written, Reversed, Fill, Grouped, Magnitude, Pads;
    var u := Magnitude(value, flags.unsigned);
    var n := |Reversed(u, base, flags.up)|;
    var sign, prefix := SignText(Sign(value, flags)), PrefixText(PrefixLetter(u, base, flags));
    var p := Pads(width, precision, DigitsWanted(u, base, precision, flags, n), n, NumSep(n), |sign| + |prefix|, flags);
    assert Fill(p.before, ' ') + sign + prefix == Fill(p.before, ' ') + (sign + prefix);
  }

  /** An integer conversion with the grouping flag, its value v written w and grouped g. */
  lemma GroupedDirective(ch: char, length: Length, width: int, precision: int, flags: Flags, args: seq<Arg>, arg: nat, v: int,
                         base: nat, sign: string, prefix: string, w: string, g: string, zeros: nat, spaces: nat)
    requires ch in {'d', 'i', 'u', 'x', 'X', 'o'} && precision >= -1 && flags.quote && !flags.up && !flags.unsigned
    requires IsArgument(v, args, arg, length, ch in {'d', 'i'})
    requires base == if ch in {'x', 'X'} then 16 else if ch == 'o' then 8 else 10
    requires sign == if v < 0 then "-" else if ch !in {'d', 'i'} then "" else if flags.plus then "+" else if flags.space then " " else ""
    requires prefix == if !flags.num || v == 0 then "" else if ch == 'x' then "0x" else if ch == 'X' then "0X" else ""
    requires AreDigits(w, if v < 0 then -v else v, base, ch == 'X', -1, false) && IsGrouped(g, w)
    requires var wanted := if flags.num && v != 0 && ch == 'o' && precision <= |w| then |w| + 1 else precision;
             var rest := width - (|g| - |w|) - (if wanted > |w| then wanted else |w|) - |sign| - |prefix|;
             zeros == (if wanted > |g| then wanted - |g| else 0) && spaces == if rest > 0 then rest else 0
    ensures Converted(ch, length, width, precision, flags, args, arg)
            == if flags.minus then sign + prefix + Fill(zeros, '0') + g + Fill(spaces, ' ')
               else if flags.zero && precision == -1 then sign + prefix + Fill(zeros + spaces, '0') + g
               else Fill(spaces, ' ') + sign + prefix + Fill(zeros, '0') + g
  {
    hide Converted, FmtInt, Fill, AreDigits, IsGrouped, C99Front, IsArgument, Written, Passed;
    ConvertedNumber(ch, length, width, precision, flags, args, arg, v);
    DirectiveFront(ch, flags, v);
    WrittenOnly(w, Size(v), base, ch == 'X');
    GroupedNumber(v, base, width, precision, FlagsAsked(ch, flags), sign, prefix, w, g, zeros, spaces);
  }

  lemma GroupedNumber(v: int, base: nat, width: int, precision: int, flags: Flags, sign: string, prefix: string, w: string, g: string, zeros: nat, spaces: nat)
    requires 2 <= base <= 16 && precision >= -1 && flags.quote && Passed(v, v, flags.unsigned)
    requires C99Front(v, base, flags) == sign + prefix && w == Written(Size(v), base, flags.up) && IsGrouped(g, w)
    requires var wanted := if flags.num && v != 0 && base == 8 && precision <= |w| then |w| + 1 else precision;
             var rest := width - (|g| - |w|) - (if wanted > |w| then wanted else |w|) - |sign| - |prefix|;
             zeros == (if wanted > |g| then wanted - |g| else 0) && spaces == if rest > 0 then rest else 0
    ensures FmtInt(v, base, width, precision, flags)
            == if flags.minus then sign + prefix + Fill(zeros, '0') + g + Fill(spaces, ' ')
               else if flags.zero && precision == -1 then sign + prefix + Fill(zeros + spaces, '0') + g
               else Fill(spaces, ' ') + sign + prefix + Fill(zeros, '0') + g
  {
    hide FmtInt, Fill, IsGrouped, C99Front, Written, Passed;
    GroupedConversion(v, v, base, width, precision, flags, g, zeros, spaces);
    var all := Fill(spaces, ' ');
    assert all + (sign + prefix) == all + sign + prefix;
  }

  function BaseAsked(ch: char): nat { if ch in {'x', 'X'} then 16 else if ch == 'o' then 8 else 10 }

  function FlagsAsked(ch: char, flags: Flags): Flags {
    if ch in {'d', 'i'} then flags else flags.(up := flags.up || ch == 'X', unsigned := true)
  }

  lemma ConvertedNumber(ch: char, length: Length, width: int, precision: int, flags: Flags, args: seq<Arg>, arg: nat, v: int)
    requires ch in {'d', 'i', 'u', 'x', 'X', 'o'} && !flags.unsigned && IsArgument(v, args, arg, length, ch in {'d', 'i'})
    ensures Passed(v, v, FlagsAsked(ch, flags).unsigned)
    ensures Converted(ch, length, width, precision, flags, args, arg) == FmtInt(v, BaseAsked(ch), width, precision, FlagsAsked(ch, flags))
  {
    hide FmtInt, SignedArg, UnsignedArg;
    ArgumentIs(v, args, arg, length);
  }

  lemma DirectiveFront(ch: char, flags: Flags, v: int)
    requires ch in {'d', 'i', 'u', 'x', 'X', 'o'} && !flags.up && !flags.unsigned
    ensures C99Front(v, BaseAsked(ch), FlagsAsked(ch, flags))
            == (if v < 0 then "-" else if ch !in {'d', 'i'} then "" else if flags.plus then "+" else if flags.space then " " else "")
               + (if !flags.num || v == 0 then "" else if ch == 'x' then "0x" else if ch == 'X' then "0X" else "")
  {
  }

  lemma WrittenOnly(w: string, u: nat, base: nat, upper: bool)
    requires 2 <= base <= 16 && AreDigits(w, u, base, upper, -1, false)
    ensures w == Written(u, base, upper)
  {
    hide AreDigits;
    DigitsAre(w, u, base, upper, -1, false);
  }

  /** Such a number fills its field if and only if nothing is grouped, the precision asks for no zeros, or it
      is as long as the field anyway: the commas come off the width, but zeros make up for them. */
  lemma GroupedFills(v: int, value: int, base: nat, width: int, precision: int, flags: Flags, g: string)
    requires 2 <= base <= 16 && precision >= -1 && flags.quote && Passed(v, value, flags.unsigned)
    requires IsGrouped(g, Written(Size(v), base, flags.up))
    ensures var w := |Written(Size(v), base, flags.up)|;
            var wanted := if flags.num && v != 0 && base == 8 && precision <= w then w + 1 else precision;
            var number := |C99Front(v, base, flags)| + if wanted > |g| then wanted else |g|;
            |FmtInt(value, base, width, precision, flags)| == (if width > number then width else number)
            <==> w <= 3 || wanted <= w || width <= number
  {
    hide Written, Fill, FmtInt, Passed, C99Front;
    var w := |Written(Size(v), base, flags.up)|;
    var wanted := if flags.num && v != 0 && base == 8 && precision <= w then w + 1 else precision;
    var zeros := if wanted > |g| then wanted - |g| else 0;
    var rest := width - (|g| - w) - (if wanted > w then wanted else w) - |C99Front(v, base, flags)|;
    GroupedConversion(v, value, base, width, precision, flags, g, zeros, if rest > 0 then rest else 0);
  }

  // ---------------------------------------------------------------- whole formats

  /** A format without directives is put out as it is. */
  lemma {:induction false} PlainText(format: string, args: seq<Arg>, pos: nat, arg: nat, len: nat)
    requires pos <= |format| && '%' !in format[pos..] && '\0' !in format[pos..]
    ensures Run(format, args, Start(pos, arg), len) == Output(format[pos..], false, [])
    decreases |format| - pos
  {
    hide NextRound, Run;
    if pos < |format| {
      var rest := format[pos..];
      assert rest[0] == format[pos] && rest[1..] == format[pos + 1..] && rest[0] in rest;
      assert forall c :: c in format[pos + 1..] ==> c in rest;
      PlainText(format, args, pos + 1, arg, len + 1);
      assert [rest[0]] + rest[1..] == rest;
      PlainCharacter(format, args, pos, arg, len);
    } else {
      NothingLeft(format, args, Start(pos, arg), len);
    }
  }

  lemma PlainCharacter(format: string, args: seq<Arg>, pos: nat, arg: nat, len: nat)
    requires pos < |format| && format[pos] != '%' && format[pos] != '\0'
    ensures var rest := Run(format, args, Start(pos + 1, arg), len + 1);
            Run(format, args, Start(pos, arg), len) == Output([format[pos]] + rest.text, rest.overflow, rest.stores)
  {
    assert NextRound(format, args, Start(pos, arg)) == Round(Start(pos + 1, arg), [format[pos]], false);
    hide NextRound;
    var rest := Run(format, args, Start(pos + 1, arg), len + 1);
    assert [] + rest.stores == rest.stores;
  }

  lemma NothingLeft(format: string, args: seq<Arg>, p: Parse, len: nat)
    requires p.pos >= |format|
    ensures Run(format, args, p, len) == Output("", false, [])
  {
  }

  predicate Digits(format: string, a: nat, b: nat) {
    a <= b <= |format| && forall i :: a <= i < b ==> IsDigit(format[i])
  }

  /** The number written between two places of a format. */
  function Number(format: string, a: nat, b: nat): (n: nat)
    requires Digits(format, a, b)
    decreases b
  {
    if a == b then 0 else 10 * Number(format, a, b - 1) + DigitValue(format[b - 1])
  }

  lemma {:induction false} NumberGrows(format: string, a: nat, b: nat, c: nat)
    requires a <= b && Digits(format, a, c) && b <= c
    ensures Number(format, a, b) <= Number(format, a, c)
    decreases c
  {
    if b < c {
      NumberGrows(format, a, b, c - 1);
    }
  }

  /** A field width is the number written, and overflows just when that is above INT_MAX. */
  lemma {:induction false} WidthRead(format: string, args: seq<Arg>, p: Parse, len: nat, a: nat, b: nat)
    requires p.state == WidthState && a <= p.pos <= b && Digits(format, a, b)
    requires p.width == Number(format, a, p.pos) <= INT_MAX
    ensures Run(format, args, p, len)
            == if Number(format, a, b) > INT_MAX then Output("", true, [])
               else Run(format, args, p.(pos := b, width := Number(format, a, b)), len)
    decreases b - p.pos
  {
    if p.pos < b {
      var n := Number(format, a, p.pos + 1);
      var r := NextRound(format, args, p);
      NumberGrows(format, a, p.pos + 1, b);
      assert r == if n > INT_MAX then Overflow else Quiet(p.(pos := p.pos + 1, width := n));
      if n <= INT_MAX {
        WidthRead(format, args, r.parse, len, a, b);
        QuietRound(format, args, p, r.parse, len);
      }
    } else {
      assert p.(pos := b, width := Number(format, a, b)) == p;
    }
  }

  /** A precision is the number written, zero without digits. */
  lemma {:induction false} PrecisionRead(format: string, args: seq<Arg>, p: Parse, len: nat, a: nat, b: nat)
    requires p.state == Precision && a <= p.pos <= b < |format| && Digits(format, a, b)
    requires !IsDigit(format[b]) && format[b] != '*' && format[b] != '\0'
    requires Max(p.precision, 0) == Number(format, a, p.pos) <= INT_MAX && p.precision >= -1
    ensures Run(format, args, p, len)
            == if Number(format, a, b) > INT_MAX then Output("", true, [])
               else Run(format, args, p.(pos := b, state := Mod, precision := Number(format, a, b)), len)
    decreases b - p.pos
  {
    var r := NextRound(format, args, p);
    if p.pos < b {
      var n := Number(format, a, p.pos + 1);
      NumberGrows(format, a, p.pos + 1, b);
      assert r == if n > INT_MAX then Overflow else Quiet(p.(pos := p.pos + 1, precision := n));
      if n <= INT_MAX {
        PrecisionRead(format, args, r.parse, len, a, b);
        QuietRound(format, args, p, r.parse, len);
      }
    } else {
      QuietRound(format, args, p, r.parse, len);
    }
  }

  lemma QuietRound(format: string, args: seq<Arg>, p: Parse, q: Parse, len: nat)
    requires CharAt(format, p.pos) != '\0' && NextRound(format, args, p) == Quiet(q)
    ensures Run(format, args, p, len) == Run(format, args, q, len)
  {
    hide NextRound;
    var rest := Run(format, args, q, len);
    assert "" + rest.text == rest.text && [] + rest.stores == rest.stores;
  }

  // ---------------------------------------------------------------- directives

  predicate IsFlag(c: char) { c in {'-', '+', ' ', '#', '0', '\''} }

  predicate IsModifier(c: char) { c in {'h', 'l', 'j', 't', 'z'} }

  /** The flags written between two places of a format, in any order and number. */
  function FlagsIn(format: string, a: nat, b: nat): Flags
    requires a <= b <= |format|
  {
    var s := format[a..b];
    Flags('-' in s, '+' in s, ' ' in s, '#' in s, '0' in s, '\'' in s, false, false)
  }

  lemma OneMoreFlag(format: string, a: nat, b: nat)
    requires a <= b < |format|
    ensures var f, g, c := FlagsIn(format, a, b), FlagsIn(format, a, b + 1), format[b];
            g == Flags(f.minus || c == '-', f.plus || c == '+', f.space || c == ' ', f.num || c == '#', f.zero || c == '0',
                       f.quote || c == '\'', f.up, f.unsigned)
  {
    var s, c := format[a..b], format[b];
    assert format[a..b + 1] == s + [c];
    assert forall d: char :: d in s + [c] <==> d in s || d == c;
  }

  lemma OneFlag(format: string, args: seq<Arg>, p: Parse, a: nat)
    requires p.state == FlagsState && a <= p.pos < |format| && p.flags == FlagsIn(format, a, p.pos) && IsFlag(format[p.pos])
    ensures NextRound(format, args, p) == Quiet(p.(pos := p.pos + 1, flags := FlagsIn(format, a, p.pos + 1)))
  {
    hide FlagsIn;
    OneMoreFlag(format, a, p.pos);
  }

  lemma {:induction false} FlagsRead(format: string, args: seq<Arg>, p: Parse, len: nat, a: nat, b: nat)
    requires p.state == FlagsState && a <= p.pos <= b < |format| && p.flags == FlagsIn(format, a, p.pos)
    requires (forall i :: a <= i < b ==> IsFlag(format[i])) && !IsFlag(format[b]) && format[b] != '\0'
    ensures Run(format, args, p, len) == Run(format, args, p.(pos := b, state := WidthState, flags := FlagsIn(format, a, b)), len)
    decreases b - p.pos
  {
    hide Run;
    if p.pos < b {
      var q := p.(pos := p.pos + 1, flags := FlagsIn(format, a, p.pos + 1));
      OneFlag(format, args, p, a);
      FlagsRead(format, args, q, len, a, b);
      QuietRound(format, args, p, q, len);
    } else {
      QuietRound(format, args, p, p.(state := WidthState), len);
    }
  }

  /** Between f and w a width is written: digits, perhaps none, or a star. */
  predicate WidthAt(format: string, f: nat, w: nat)
    requires f <= w < |format|
  {
    (w == f + 1 && format[f] == '*') || (Digits(format, f, w) && !IsDigit(format[w]) && format[w] != '*')
  }

  /** Between w and p a precision is written: a point, and digits or a star; or nothing. */
  predicate PrecisionAt(format: string, w: nat, p: nat)
    requires w <= p < |format|
  {
    || (p == w && format[w] != '.')
    || (p == w + 2 && format[w] == '.' && format[w + 1] == '*')
    || (p > w && format[w] == '.' && Digits(format, w + 1, p) && !IsDigit(format[p]) && format[p] != '*')
  }

  /** Between p and c a length modifier is written, or nothing. */
  predicate ModifierAt(format: string, p: nat, c: nat)
    requires p <= c < |format|
  {
    || (c == p && !IsModifier(format[p]))
    || (c == p + 1 && IsModifier(format[p]) && !(format[p] in {'h', 'l'} && format[c] == format[p]))
    || (c == p + 2 && format[p] in {'h', 'l'} && format[p + 1] == format[p])
  }

  function LengthAt(format: string, p: nat, c: nat): Length
    requires p <= c < |format|
  {
    if c == p then NoLength
    else if c == p + 2 then (if format[p] == 'h' then CharLength else LongLongLength)
    else if format[p] == 'h' then ShortLength
    else if format[p] == 'l' then LongLength
    else if format[p] == 'j' then IntmaxLength
    else if format[p] == 't' then PtrdiffLength
    else SizeLength
  }

  lemma ModifierRead(format: string, args: seq<Arg>, q: Parse, len: nat, c: nat)
    requires q.state == Mod && q.length == NoLength && q.pos <= c < |format| && ModifierAt(format, q.pos, c)
    requires format[q.pos] != '\0'
    ensures Run(format, args, q, len) == Run(format, args, q.(pos := c, state := Conv, length := LengthAt(format, q.pos, c)), len)
  {
    QuietRound(format, args, q, q.(pos := c, state := Conv, length := LengthAt(format, q.pos, c)), len);
  }

  predicate StarWidth(format: string, f: nat, w: nat)
    requires f <= w < |format|
  {
    w == f + 1 && format[f] == '*'
  }

  predicate StarPrecision(format: string, w: nat, p: nat)
    requires w <= p < |format|
  {
    p == w + 2 && format[w + 1] == '*'
  }

  /** The width read: the number written, or the size of the argument. */
  function WidthOf(format: string, args: seq<Arg>, f: nat, w: nat, arg: nat): int
    requires f <= w < |format| && WidthAt(format, f, w)
  {
    if StarWidth(format, f, w) then
      var n := SignedArg(args, arg, NoLength);
      if n < 0 then -n else n
    else Number(format, f, w)
  }

  /** The precision read: -1 if none is written, or for a negative argument. */
  function PrecisionOf(format: string, args: seq<Arg>, w: nat, p: nat, arg: nat): int
    requires w <= p < |format| && PrecisionAt(format, w, p)
  {
    if p == w then -1
    else if StarPrecision(format, w, p) then
      var n := SignedArg(args, arg, NoLength);
      if n < 0 then -1 else n
    else Number(format, w + 1, p)
  }

  function Taken(star: bool): nat { if star then 1 else 0 }

  /** A number written is above INT_MAX. */
  predicate TooLarge(format: string, f: nat, w: nat, p: nat)
    requires f <= w <= p < |format| && WidthAt(format, f, w) && PrecisionAt(format, w, p)
  {
    || (!StarWidth(format, f, w) && Number(format, f, w) > INT_MAX)
    || (p > w && !StarPrecision(format, w, p) && Number(format, w + 1, p) > INT_MAX)
  }

  /** What a directive stands for: flags up to f, a width up to w, a precision up to p, a length
      modifier up to c, and the conversion at c. */
  predicate DirectiveAt(format: string, pos: nat, f: nat, w: nat, p: nat, c: nat) {
    && pos + 1 <= f <= w <= p <= c < |format|
    && format[pos] == '%' && (forall i :: pos + 1 <= i < f ==> IsFlag(format[i])) && !IsFlag(format[f])
    && WidthAt(format, f, w) && PrecisionAt(format, w, p) && ModifierAt(format, p, c) && format[c] != '\0'
  }

  /** The flags read are the characters that occur. */
  lemma FlagsAre(format: string, a: nat, b: nat)
    requires a <= b <= |format|
    ensures var f := FlagsIn(format, a, b);
            && (f.minus <==> '-' in format[a..b]) && (f.plus <==> '+' in format[a..b]) && (f.space <==> ' ' in format[a..b])
            && (f.num <==> '#' in format[a..b]) && (f.zero <==> '0' in format[a..b]) && (f.quote <==> '\'' in format[a..b])
            && !f.up && !f.unsigned
  {
  }

  /** The length modifier read, by its text. */
  lemma LengthIs(format: string, p: nat, c: nat)
    requires p <= c < |format| && ModifierAt(format, p, c)
    ensures var m, l := format[p..c], LengthAt(format, p, c);
            && (m == "" <==> l == NoLength) && (m == "hh" <==> l == CharLength) && (m == "h" <==> l == ShortLength)
            && (m == "l" <==> l == LongLength) && (m == "ll" <==> l == LongLongLength) && (m == "j" <==> l == IntmaxLength)
            && (m == "t" <==> l == PtrdiffLength) && (m == "z" <==> l == SizeLength)
  {
    if c == p + 1 { assert format[p..c] == [format[p]]; }
    if c == p + 2 { assert format[p..c] == [format[p], format[p + 1]]; }
  }

  /** A width or precision is the decimal number its digits are. */
  lemma {:induction false} NumberIs(format: string, a: nat, b: nat)
    requires Digits(format, a, b)
    ensures Number(format, a, b) == ValueOf(format[a..b], 10)
    decreases b
  {
    if a < b {
      NumberIs(format, a, b - 1);
      var s := format[a..b];
      assert s[..|s| - 1] == format[a..b - 1] && s[|s| - 1] == format[b - 1];
    }
  }

  /** The width and precision read where v is the number of an argument passed for a star. */
  lemma StarsAre(format: string, args: seq<Arg>, f: nat, w: nat, p: nat, arg: nat, v: int)
    requires f <= w <= p < |format| && WidthAt(format, f, w) && PrecisionAt(format, w, p)
    requires -0x8000_0000 <= v < 0x8000_0000 && (v - if arg < |args| then args[arg].word else 0) % 0x1_0000_0000 == 0
    ensures format[f..w] == "*" ==> SignedArg(args, arg, NoLength) == v && WidthOf(format, args, f, w, arg) == if v < 0 then -v else v
    ensures format[w..p] == ".*" ==> PrecisionOf(format, args, w, p, arg) == if v < 0 then -1 else v
    ensures format[f..w] != "*" ==> WidthOf(format, args, f, w, arg) == ValueOf(format[f..w], 10)
    ensures format[w..p] == "" ==> PrecisionOf(format, args, w, p, arg) == -1
    ensures format[w..p] != "" && format[w..p] != ".*" ==> PrecisionOf(format, args, w, p, arg) == ValueOf(format[w + 1..p], 10)
  {
    ArgumentIs(v, args, arg, NoLength);
    hide SignedArg, ValueOf;
    if w == f + 1 { assert format[f..w] == [format[f]]; }
    if p == w + 2 { assert format[w..p] == [format[w], format[w + 1]]; }
    if Digits(format, f, w) { NumberIs(format, f, w); }
    if p > w && Digits(format, w + 1, p) { NumberIs(format, w + 1, p); }
  }

  lemma NoEnd(format: string, pos: nat, f: nat, w: nat, p: nat, c: nat)
    requires DirectiveAt(format, pos, f, w, p, c)
    ensures format[f] != '\0' && format[w] != '\0' && format[p] != '\0'
  {
  }

  /** Any directive: its conversion of the arguments its stars leave, with what it says, and then
      the rest of the format. */
  lemma Directive(format: string, args: seq<Arg>, pos: nat, arg: nat, len: nat, f: nat, w: nat, p: nat, c: nat)
    requires DirectiveAt(format, pos, f, w, p, c)
    ensures var width, star := WidthOf(format, args, f, w, arg), StarWidth(format, f, w);
            var a1 := arg + Taken(star);
            var precision := PrecisionOf(format, args, w, p, a1);
            var a2 := a1 + Taken(StarPrecision(format, w, p));
            var read := FlagsIn(format, pos + 1, f);
            var flags := if star && SignedArg(args, arg, NoLength) < 0 then read.(minus := true) else read;
            Run(format, args, Start(pos, arg), len)
            == if TooLarge(format, f, w, p) then Output("", true, [])
               else Converts(format, args, Parse(c, Conv, flags, LengthAt(format, p, c), width, precision, a2), len)
  {
    hide Run, Converted, Converts, SignedArg;
    NoEnd(format, pos, f, w, p, c);
    var p1 := Start(pos, arg).(pos := pos + 1, state := FlagsState);
    QuietRound(format, args, Start(pos, arg), p1, len);
    assert format[pos + 1..pos + 1] == "";
    FlagsRead(format, args, p1, len, pos + 1, f);
    var p2 := p1.(pos := f, state := WidthState, flags := FlagsIn(format, pos + 1, f));
    WidthPart(format, args, p2, len, w);
    var p3 := AfterWidth(format, args, p2, w);
    if StarWidth(format, f, w) || Number(format, f, w) <= INT_MAX {
      PrecisionPart(format, args, p3, len, p);
      if !TooLarge(format, f, w, p) {
        var p4 := AfterPrecision(format, args, p3, p);
        ModifierRead(format, args, p4, len, c);
        LoudRound(format, args, p4.(pos := c, state := Conv, length := LengthAt(format, p, c)), len);
      }
    }
  }

  function AfterWidth(format: string, args: seq<Arg>, q: Parse, w: nat): Parse
    requires q.pos <= w < |format| && WidthAt(format, q.pos, w)
  {
    var star := StarWidth(format, q.pos, w);
    q.(pos := w, state := Dot, width := WidthOf(format, args, q.pos, w, q.arg), arg := q.arg + Taken(star),
       flags := if star && SignedArg(args, q.arg, NoLength) < 0 then q.flags.(minus := true) else q.flags)
  }

  lemma WidthPart(format: string, args: seq<Arg>, q: Parse, len: nat, w: nat)
    requires q.state == WidthState && q.width == 0 && q.pos <= w < |format| && WidthAt(format, q.pos, w) && format[w] != '\0'
    ensures Run(format, args, q, len)
            == if !StarWidth(format, q.pos, w) && Number(format, q.pos, w) > INT_MAX then Output("", true, [])
               else Run(format, args, AfterWidth(format, args, q, w), len)
  {
    hide Run, SignedArg;
    if StarWidth(format, q.pos, w) {
      QuietRound(format, args, q, AfterWidth(format, args, q, w), len);
    } else {
      WidthRead(format, args, q, len, q.pos, w);
      var n := Number(format, q.pos, w);
      if n <= INT_MAX { QuietRound(format, args, q.(pos := w, width := n), AfterWidth(format, args, q, w), len); }
    }
  }

  function AfterPrecision(format: string, args: seq<Arg>, q: Parse, p: nat): Parse
    requires q.pos <= p < |format| && PrecisionAt(format, q.pos, p)
  {
    q.(pos := p, state := Mod, precision := PrecisionOf(format, args, q.pos, p, q.arg), arg := q.arg + Taken(StarPrecision(format, q.pos, p)))
  }

  lemma PrecisionPart(format: string, args: seq<Arg>, q: Parse, len: nat, p: nat)
    requires q.state == Dot && q.precision == -1 && q.pos <= p < |format| && PrecisionAt(format, q.pos, p)
    requires format[q.pos] != '\0' && format[p] != '\0'
    ensures Run(format, args, q, len)
            == if p > q.pos && !StarPrecision(format, q.pos, p) && Number(format, q.pos + 1, p) > INT_MAX then Output("", true, [])
               else Run(format, args, AfterPrecision(format, args, q, p), len)
  {
    hide Run, SignedArg;
    if p == q.pos {
      QuietRound(format, args, q, AfterPrecision(format, args, q, p), len);
    } else {
      var r := q.(pos := q.pos + 1, state := Precision);
      QuietRound(format, args, q, r, len);
      if StarPrecision(format, q.pos, p) {
        QuietRound(format, args, r, AfterPrecision(format, args, q, p), len);
      } else {
        PrecisionRead(format, args, r, len, r.pos, p);
      }
    }
  }

  /** A conversion, and the rest of the format. */
  function Converts(format: string, args: seq<Arg>, q: Parse, len: nat): Output
    requires q.state == Conv && q.pos < |format|
  {
    var ch := format[q.pos];
    var text := Converted(ch, q.length, q.width, q.precision, q.flags, args, q.arg);
    var rest := Run(format, args, Start(q.pos + 1, q.arg + if TakesArg(ch) then 1 else 0), len + |text|);
    Output(text + rest.text, rest.overflow, (if ch == 'n' then [StoreAt(q, args, len)] else []) + rest.stores)
  }

  lemma LoudRound(format: string, args: seq<Arg>, q: Parse, len: nat)
    requires q.state == Conv && q.pos < |format| && format[q.pos] != '\0'
    ensures Run(format, args, q, len) == Converts(format, args, q, len)
  {
    hide Converted;
  }

  /** What a conversion leaves: which ones take an argument, the count n stores, and a parser that
      forgets the directive. */
  lemma ConversionDone(format: string, args: seq<Arg>, q: Parse, len: nat, count: int)
    requires q.state == Conv && q.pos < |format|
    requires var n := if q.length == CharLength then 0x100 else if q.length == ShortLength then 0x1_0000 else 0x1_0000_0000;
             (count - len) % n == 0 && -n <= 2 * count < n
    ensures var ch := format[q.pos];
            var text := Converted(ch, q.length, q.width, q.precision, q.flags, args, q.arg);
            var next := q.arg + if ch in {'d', 'i', 'u', 'o', 'x', 'X', 'c', 's', 'p', 'n'} then 1 else 0;
            var none := Flags(false, false, false, false, false, false, false, false);
            var rest := Run(format, args, Parse(q.pos + 1, Default, none, NoLength, 0, -1, next), len + |text|);
            var address := if q.arg < |args| then args[q.arg].word % 0x1_0000_0000 else 0;
            Converts(format, args, q, len)
            == Output(text + rest.text, rest.overflow, (if ch == 'n' then [Store(address, q.length, count)] else []) + rest.stores)
  {
    hide Converted, Run, Signed;
    CountIs(count, len, q.length);
  }

  lemma CountIs(count: int, len: nat, length: Length)
    requires var n := if length == CharLength then 0x100 else if length == ShortLength then 0x1_0000 else 0x1_0000_0000;
             (count - len) % n == 0 && -n <= 2 * count < n
    ensures Signed(len, Range(length)) == count
  {
    Residue(count, len, Range(length));
  }
}
