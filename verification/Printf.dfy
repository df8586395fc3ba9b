/** vsnprintf: the output cut to the buffer, and its length. */
module Printf {
  import opened Format

  /** The output buffer and the count of all characters put out. */
  class Sink {
    const str: array<char>
    const size: nat
    var len: nat
    // All characters put out, and what the buffer held before.
    ghost var text: string
    ghost const before: string

    constructor (buffer: array<char>, n: nat)
      requires n <= buffer.Length
      ensures Valid() && str == buffer && size == n && text == "" && before == buffer[..]
    {
      str, size, len, text, before := buffer, n, 0, "", buffer[..];
    }

    /** The buffer holds the first size - 1 characters of the text; the rest is as before. */
    ghost predicate Valid()
      reads this, str
    {
      && size <= str.Length && |before| == str.Length
      && len == |text| < WORD_LIMIT
      && forall i :: 0 <= i < str.Length ==> str[i] == if i < len && i + 1 < size then text[i] else before[i]
    }

    /** Room for n more characters in the 32-bit count. */
    ghost predicate Room(n: nat)
      reads this`text
    {
      |text| + n < WORD_LIMIT
    }

    lemma Counted()
      requires Valid()
      ensures len == |text|
    {
    }

    method OutChar(ch: char)
      requires Valid() && Room(1)
      modifies this`len, this`text, str
      ensures Valid() && text == old(text) + [ch]
    {
      if len + 1 < size {
        str[len] := ch;
      }
      len := len + 1;
      text := text + [ch];
    }

    /** n times the same character; nothing for a negative n. */
    method OutFill(n: int, ch: char)
      requires Valid() && Room(|Fill(n, ch)|)
      modifies this`len, this`text, str
      ensures Valid() && text == old(text) + Fill(n, ch)
    {
      var k := n;
      ghost var done := 0;
      while k > 0
        invariant Valid() && done <= |Fill(n, ch)| && (n > 0 ==> k == n - done) && (n <= 0 ==> k == n && done == 0)
        invariant text == old(text) + Fill(done, ch)
      {
        OutChar(ch);
        assert Fill(done, ch) + [ch] == Fill(done + 1, ch);
        done := done + 1;
        k := k - 1;
      }
    }

    /** The characters of a string up to its end, within the precision. */
    method OutChars(value: string, precision: int)
      requires Valid() && Room(StrLen(value, precision, 0))
      modifies this`len, this`text, str
      ensures Valid() && text == old(text) + value[..StrLen(value, precision, 0)]
    {
      ghost var n := StrLen(value, precision, 0);
      var i: nat := 0;
      while CharAt(value, i) != '\0' && (precision == -1 || i < precision)
        invariant Valid() && i <= n && StrLen(value, precision, i) == n
        invariant text == old(text) + value[..i]
        decreases |value| - i
      {
        OutChar(value[i]);
        i := i + 1;
        assert value[..i] == value[..i - 1] + [value[i - 1]];
      }
    }

    /** A string in its field. */
    method OutStr(value: string, width: int, precision: int, minus: bool)
      requires Valid() && Room(|FmtStr(value, width, precision, minus)|)
      modifies this`len, this`text, str
      ensures Valid() && text == old(text) + FmtStr(value, width, precision, minus)
    {
      hide Fill, Sink.Valid;
      var strln: nat := 0;
      while CharAt(value, strln) != '\0' && (precision == -1 || strln < precision)
        invariant strln <= |value| && StrLen(value, precision, 0) == StrLen(value, precision, strln)
        decreases |value| - strln
      {
        strln := strln + 1;
      }
      var padlen := width - strln;
      if padlen < 0 { padlen := 0; }
      FillNone(width - strln, ' ');
      if minus { padlen := -padlen; }
      FillNone(padlen, ' ');
      FillNone(-padlen, ' ');
      OutFill(padlen, ' ');
      OutChars(value, precision);
      OutFill(-padlen, ' ');
    }

    /** The digits of a number, from the reversed ones. */
    method OutDigits(iconvert: string, separators: int)
      requires Valid() && Room(|Grouped(iconvert, |iconvert|, separators > 0)|)
      modifies this`len, this`text, str
      ensures Valid() && text == old(text) + Grouped(iconvert, |iconvert|, separators > 0)
    {
      hide Sink.Valid;
      var pos: nat := |iconvert|;
      while pos > 0
        invariant Valid() && pos <= |iconvert|
        invariant text + Grouped(iconvert, pos, separators > 0) == old(text) + Grouped(iconvert, |iconvert|, separators > 0)
      {
        ghost var was, rest := text, Grouped(iconvert, pos, separators > 0);
        pos := pos - 1;
        OutChar(iconvert[pos]);
        if separators > 0 && pos > 0 && pos % 3 == 0 {
          OutChar(',');
        }
        assert text + Grouped(iconvert, pos, separators > 0) == was + rest;
      }
      assert text + "" == text;
    }

    /** A number in its field. */
    method OutInt(value: int, base: nat, width: int, precision: int, flags: Flags)
      requires Valid() && 2 <= base <= 16 && Room(|FmtInt(value, base, width, precision, flags)|)
      modifies this`len, this`text, str
      ensures Valid() && text == old(text) + FmtInt(value, base, width, precision, flags)
    {
      hide Fill, Grouped, Reversed, Sink.Valid, Pads, Field, FmtInt;
      var noprecision := precision == -1;
      var wanted := precision;
      var uvalue := Magnitude(value, flags.unsigned);
      var sign := Sign(value, flags);
      var iconvert := Convert(uvalue, base, flags.up);
      var pos := |iconvert|;
      var hexprefix := '\0';
      if flags.num && uvalue != 0 {
        if base == 8 {
          if wanted <= pos { wanted := pos + 1; }
        } else if base == 16 {
          hexprefix := if flags.up then 'X' else 'x';
        }
      }
      var separators := if flags.quote then NumSep(pos) else 0;
      var zpadlen := wanted - pos - separators;
      var spadlen := width - separators - (if wanted >= pos then wanted else pos)
        - (if sign != '\0' then 1 else 0) - (if hexprefix != '\0' then 2 else 0);
      if zpadlen < 0 { zpadlen := 0; }
      if spadlen < 0 { spadlen := 0; }
      if flags.minus {
        spadlen := -spadlen;
      } else if flags.zero && noprecision {
        zpadlen := zpadlen + spadlen;
        spadlen := 0;
      }
      FieldIsFmtInt(value, base, width, precision, flags, wanted, spadlen, zpadlen);
      OutField(spadlen, sign, hexprefix, zpadlen, iconvert, separators);
    }

    method OutSign(sign: char)
      requires Valid() && Room(|SignText(sign)|)
      modifies this`len, this`text, str
      ensures Valid() && text == old(text) + SignText(sign)
    {
      hide Sink.Valid;
      if sign != '\0' {
        OutChar(sign);
      }
    }

    method OutPrefix(hexprefix: char)
      requires Valid() && Room(|PrefixText(hexprefix)|)
      modifies this`len, this`text, str
      ensures Valid() && text == old(text) + PrefixText(hexprefix)
    {
      hide Sink.Valid;
      if hexprefix != '\0' {
        OutChar('0');
        OutChar(hexprefix);
      }
    }

    /** The parts of a number: spaces, sign, prefix, zeros, digits, and spaces for a negative count. */
    method OutField(spadlen: int, sign: char, hexprefix: char, zpadlen: int, iconvert: string, separators: int)
      requires Valid() && Room(|Field(spadlen, sign, hexprefix, zpadlen, iconvert, separators)|)
      modifies this`len, this`text, str
      ensures Valid() && text == old(text) + Field(spadlen, sign, hexprefix, zpadlen, iconvert, separators)
    {
      hide Fill, Grouped, Sink.Valid, Field, SignText, PrefixText;
      FieldParts(text, spadlen, sign, hexprefix, zpadlen, iconvert, separators);
      OutFill(spadlen, ' ');
      OutSign(sign);
      OutPrefix(hexprefix);
      OutFill(zpadlen, '0');
      OutDigits(iconvert, separators);
      OutFill(-spadlen, ' ');
    }

    /** The terminator, behind the text or at the end of the buffer. */
    method Terminate()
      requires Valid()
      modifies str
      ensures str[..] == Cut(before, text, size) && len == |text|
    {
      if len < size {
        str[len] := '\0';
      } else if size > 0 {
        str[size - 1] := '\0';
      }
    }

    /** One conversion: what is put out for its character. */
    method OutConversion(ch: char, length: Length, width: int, precision: int, flags: Flags, args: seq<Arg>, arg: nat)
      requires Valid() && Room(|Converted(ch, length, width, precision, flags, args, arg)|)
      modifies this`len, this`text, str
      ensures Valid()
      ensures text == old(text) + Converted(ch, length, width, precision, flags, args, arg)
    {
      hide UnsignedArg, FmtInt, FmtStr, Sink.Valid, Signed;
      if ch == 'd' || ch == 'i' {
        OutInt(SignedArg(args, arg, length), 10, width, precision, flags);
      } else if ch == 'X' || ch == 'x' || ch == 'o' || ch == 'u' {
        var f, base := flags, 0;
        if ch == 'X' { f := f.(up := true); }
        if ch == 'X' || ch == 'x' { base := 16; }
        if ch == 'o' { base := 8; }
        if base == 0 { base := 10; }
        f := f.(unsigned := true);
        OutInt(UnsignedArg(args, arg, length), base, width, precision, f);
      } else if ch == 'c' {
        OutChar((WordArg(args, arg) % 0x100) as char);
      } else if ch == 's' {
        OutStr(StringArg(args, arg), width, precision, flags.minus);
      } else if ch == 'p' {
        if WordArg(args, arg) == 0 {
          OutStr("(nil)", width, -1, flags.minus);
        } else {
          OutInt(Signed(WordArg(args, arg), WORD_LIMIT), 16, width, precision, flags.(num := true, unsigned := true));
        }
      } else if ch == '%' {
        OutChar('%');
      }
    }
  }

  /** The digits of a number in reverse order. */
  method Convert(value: nat, base: nat, caps: bool) returns (buf: string)
    requires 2 <= base <= 16 && value < WORD_LIMIT
    ensures buf == Reversed(value, base, caps)
  {
    hide Reversed, DigitChar;
    WordDigits(value, base, caps);
    ghost var all := Reversed(value, base, caps);
    OneDigit(value, base, caps);
    buf := [DigitChar(value % base, caps)];
    var v: nat := value / base;
    while v != 0 && |buf| < MAX_CONVERT_LENGTH
      invariant all == buf + Higher(v, base, caps)
      decreases v
    {
      ghost var was := buf;
      OneDigit(v, base, caps);
      Regrouped(was, DigitChar(v % base, caps), Higher(v / base, base, caps));
      buf := buf + [DigitChar(v % base, caps)];
      Shrinks(v, base);
      v := v / base;
    }
  }

  ghost function Higher(v: nat, base: nat, caps: bool): string
    requires 2 <= base <= 16
  {
    if v == 0 then "" else Reversed(v, base, caps)
  }

  lemma OneDigit(u: nat, base: nat, caps: bool)
    requires 2 <= base <= 16
    ensures Reversed(u, base, caps) == [DigitChar(u % base, caps)] + Higher(u / base, base, caps)
  {
  }

  lemma Regrouped(a: string, c: char, b: string)
    ensures a + ([c] + b) == (a + [c]) + b
  {
  }

  ghost function Field(spadlen: int, sign: char, hexprefix: char, zpadlen: int, iconvert: string, separators: int): string {
    Fill(spadlen, ' ') + SignText(sign) + PrefixText(hexprefix) + Fill(zpadlen, '0')
    + Grouped(iconvert, |iconvert|, separators > 0) + Fill(-spadlen, ' ')
  }

  lemma FieldParts(t: string, spadlen: int, sign: char, hexprefix: char, zpadlen: int, iconvert: string, separators: int)
    ensures var a, b, c, d, e, f := Fill(spadlen, ' '), SignText(sign), PrefixText(hexprefix), Fill(zpadlen, '0'),
                                    Grouped(iconvert, |iconvert|, separators > 0), Fill(-spadlen, ' ');
            var all := Field(spadlen, sign, hexprefix, zpadlen, iconvert, separators);
            && ((((((t + a) + b) + c) + d) + e) + f) == t + all
            && |all| == |a| + |b| + |c| + |d| + |e| + |f|
  {
    hide Fill, Grouped;
  }

  /** One signed count of spaces does for both sides. */
  lemma PadsSigned(width: int, precision: int, wanted: int, pos: nat, seps: nat, extra: nat, flags: Flags, spadlen: int, zpadlen: int)
    requires var z, s := Max(wanted - pos - seps, 0), Max(width - seps - Max(wanted, pos) - extra, 0);
             && spadlen == (if flags.minus then -s else if flags.zero && precision == -1 then 0 else s)
             && zpadlen == (if !flags.minus && flags.zero && precision == -1 then z + s else z)
    ensures var p := Pads(width, precision, wanted, pos, seps, extra, flags);
            && Fill(spadlen, ' ') == Fill(p.before, ' ') && Fill(-spadlen, ' ') == Fill(p.behind, ' ') && zpadlen == p.zeros
  {
  }

  /** A number in its field, from the counts of the code. */
  lemma FieldIsFmtInt(value: int, base: nat, width: int, precision: int, flags: Flags, wanted: int, spadlen: int, zpadlen: int)
    requires 2 <= base <= 16
    requires var u := Magnitude(value, flags.unsigned);
             var pos := |Reversed(u, base, flags.up)|;
             var seps := if flags.quote then NumSep(pos) else 0;
             var extra := |SignText(Sign(value, flags))| + |PrefixText(PrefixLetter(u, base, flags))|;
             var z, s := Max(wanted - pos - seps, 0), Max(width - seps - Max(wanted, pos) - extra, 0);
             && wanted == DigitsWanted(u, base, precision, flags, pos)
             && spadlen == (if flags.minus then -s else if flags.zero && precision == -1 then 0 else s)
             && zpadlen == (if !flags.minus && flags.zero && precision == -1 then z + s else z)
    ensures var u := Magnitude(value, flags.unsigned);
            var digits := Reversed(u, base, flags.up);
            Field(spadlen, Sign(value, flags), PrefixLetter(u, base, flags), zpadlen, digits, if flags.quote then NumSep(|digits|) else 0)
            == FmtInt(value, base, width, precision, flags)
  {
    hide SignText, PrefixText, Max, Sign, PrefixLetter, DigitsWanted, NumSep, Fill, Grouped, Reversed, Pads;
    var u := Magnitude(value, flags.unsigned);
    var pos := |Reversed(u, base, flags.up)|;
    PadsSigned(width, precision, wanted, pos, if flags.quote then NumSep(pos) else 0,
               |SignText(Sign(value, flags))| + |PrefixText(PrefixLetter(u, base, flags))|, flags, spadlen, zpadlen);
  }

  /** A negative count fills nothing. */
  lemma FillNone(n: int, ch: char)
    ensures n <= 0 ==> Fill(n, ch) == ""
    ensures n < 0 ==> Fill(n, ch) == Fill(0, ch)
  {
  }

  // ---------------------------------------------------------------- the parser

  /** The buffer afterwards: as much of the text as fits, and its terminator. */
  function Cut(before: string, text: string, size: nat): string
    requires size <= |before|
  {
    if size == 0 then before
    else
      var n := if |text| < size then |text| else size - 1;
      text[..n] + ['\0'] + before[n + 1..]
  }

  lemma CutIs(before: string, text: string, size: nat)
    requires size <= |before|
    ensures var r := Cut(before, text, size);
            && |r| == |before|
            && forall i :: 0 <= i < |r| ==>
                 r[i] == if i < |text| && i + 1 < size then text[i]
                         else if i < size && (i == |text| || (i < |text| && i + 1 == size)) then '\0'
                         else before[i]
  {
  }

  lemma AtStart(format: string, args: seq<Arg>)
    ensures Towards(format, args, Start(0, 0), "", [], Formatted(format, args))
  {
    hide Run;
    var o := Run(format, args, Start(0, 0), 0);
    assert "" + o.text == o.text && [] + o.stores == o.stores;
  }

  /** What is left to do from a point of the format on, together with what is done, is the whole. */
  ghost predicate Towards(format: string, args: seq<Arg>, p: Parse, text: string, stores: seq<Store>, whole: Output) {
    var rest := Run(format, args, p, |text|);
    whole == Output(text + rest.text, rest.overflow, stores + rest.stores)
  }

  lemma AtEnd(format: string, args: seq<Arg>, p: Parse, text: string, stores: seq<Store>, whole: Output)
    requires Towards(format, args, p, text, stores, whole) && CharAt(format, p.pos) == '\0'
    ensures whole == Output(text, false, stores)
  {
  }

  lemma AtOverflow(format: string, args: seq<Arg>, p: Parse, text: string, stores: seq<Store>, whole: Output)
    requires Towards(format, args, p, text, stores, whole) && CharAt(format, p.pos) != '\0'
    requires NextRound(format, args, p).Overflow?
    ensures whole == Output(text, true, stores)
  {
  }

  lemma Onwards(format: string, args: seq<Arg>, p: Parse, text: string, stores: seq<Store>, whole: Output)
    requires Towards(format, args, p, text, stores, whole) && CharAt(format, p.pos) != '\0'
    requires NextRound(format, args, p).Round?
    ensures var r := NextRound(format, args, p);
            && |text| + |r.text| <= |whole.text|
            && Towards(format, args, r.parse, text + r.text, if r.store then stores + [StoreAt(p, args, |text|)] else stores, whole)
  {
    hide NextRound;
    var r := NextRound(format, args, p);
    var rest := Run(format, args, r.parse, |text| + |r.text|);
    assert text + (r.text + rest.text) == (text + r.text) + rest.text;
    if r.store {
      var st := [StoreAt(p, args, |text|)];
      assert stores + (st + rest.stores) == (stores + st) + rest.stores;
    } else {
      assert [] + rest.stores == rest.stores;
    }
  }

  /** The parser, as a loop over the format. */
  method Vsnprintf(str: array?<char>, size: nat, format: string, args: seq<Arg>) returns (ret: int, stores: seq<Store>)
    requires size < WORD_LIMIT && (str != null ==> size <= str.Length)
    requires |Formatted(format, args).text| < WORD_LIMIT
    modifies str
    ensures var o := Formatted(format, args);
            stores == o.stores && ret == if o.overflow || |o.text| >= 0x7FFF_FFFF then -1 else |o.text|
    ensures str != null ==>
              var text := Formatted(format, args).text;
              forall i :: 0 <= i < str.Length ==>
                str[i] == if i < |text| && i + 1 < size then text[i]
                          else if i < size && (i == |text| || (i < |text| && i + 1 == size)) then '\0'
                          else old(str[i])
  {
    hide Run, Converted, Signed, Towards, Sink.Valid, Cut;
    ghost var whole := Formatted(format, args);
    var buffer, n := str, size;
    if str == null {
      buffer, n := new char[0], 0;
    }
    var sink := new Sink(buffer, n);
    stores := [];
    var overflow := false;
    var pos: nat, arg: nat := 0, 0;
    var state, flags, length, width, precision := Default, NO_FLAGS, NoLength, 0, -1;
    assert Towards(format, args, Start(0, 0), "", [], whole) by { AtStart(format, args); }
    while CharAt(format, pos) != '\0' && !overflow
      invariant sink.Valid()
      invariant if overflow then whole == Output(sink.text, true, stores)
                else Towards(format, args, Parse(pos, state, flags, length, width, precision, arg), sink.text, stores, whole)
      decreases if overflow then 0 else 1, |format| - pos, Rank(state)
    {
      ghost var p := Parse(pos, state, flags, length, width, precision, arg);
      ghost var text, was := sink.text, stores;
      assert text + "" == text;
      var ch := CharAt(format, pos);
      match state {
        case Default =>
          if ch == '%' {
            state := FlagsState;
          } else {
            Onwards(format, args, p, text, stores, whole);
            sink.OutChar(ch);
          }
          pos := pos + 1;
        case FlagsState =>
          match ch {
            case '-' => flags := flags.(minus := true); pos := pos + 1;
            case '+' => flags := flags.(plus := true); pos := pos + 1;
            case ' ' => flags := flags.(space := true); pos := pos + 1;
            case '#' => flags := flags.(num := true); pos := pos + 1;
            case '0' => flags := flags.(zero := true); pos := pos + 1;
            case '\'' => flags := flags.(quote := true); pos := pos + 1;
            case _ => state := WidthState;
          }
        case WidthState =>
          if IsDigit(ch) {
            var d := DigitValue(ch);
            if width > (INT_MAX - d) / 10 {
              overflow := true;
            } else {
              width := 10 * width + d;
              pos := pos + 1;
            }
          } else if ch == '*' {
            width, arg := SignedArg(args, arg, NoLength), arg + 1;
            if width < 0 {
              flags := flags.(minus := true);
              width := -width;
            }
            pos := pos + 1;
            state := Dot;
          } else {
            state := Dot;
          }
        case Dot =>
          if ch == '.' {
            state := Precision;
            pos := pos + 1;
          } else {
            state := Mod;
          }
        case Precision =>
          if precision == -1 { precision := 0; }
          if IsDigit(ch) {
            var d := DigitValue(ch);
            if precision > (INT_MAX - d) / 10 {
              overflow := true;
            } else {
              precision := 10 * precision + d;
              pos := pos + 1;
            }
          } else if ch == '*' {
            precision, arg := SignedArg(args, arg, NoLength), arg + 1;
            if precision < 0 { precision := -1; }
            pos := pos + 1;
            state := Mod;
          } else {
            state := Mod;
          }
        case Mod =>
          match ch {
            case 'h' =>
              pos := pos + 1;
              if CharAt(format, pos) == 'h' {
                pos := pos + 1;
                length := CharLength;
              } else {
                length := ShortLength;
              }
            case 'l' =>
              pos := pos + 1;
              if CharAt(format, pos) == 'l' {
                pos := pos + 1;
                length := LongLongLength;
              } else {
                length := LongLength;
              }
            case 'j' => length := IntmaxLength; pos := pos + 1;
            case 't' => length := PtrdiffLength; pos := pos + 1;
            case 'z' => length := SizeLength; pos := pos + 1;
            case _ =>
          }
          state := Conv;
        case Conv =>
          Onwards(format, args, p, text, stores, whole);
          if ch == 'n' {
            sink.Counted();
            stores := stores + [Store(WordArg(args, arg), length, Signed(sink.len, Range(length)))];
          }
          sink.OutConversion(ch, length, width, precision, flags, args, arg);
          if TakesArg(ch) { arg := arg + 1; }
          pos := pos + 1;
          state, flags, length, width, precision := Default, NO_FLAGS, NoLength, 0, -1;
      }
      if overflow {
        AtOverflow(format, args, p, text, was, whole);
      } else {
        Onwards(format, args, p, text, was, whole);
      }
    }
    if !overflow {
      AtEnd(format, args, Parse(pos, state, flags, length, width, precision, arg), sink.text, stores, whole);
    }
    sink.Terminate();
    CutIs(sink.before, sink.text, n);
    assert forall i :: 0 <= i < buffer.Length ==> buffer[i] == buffer[..][i];
    ret := if overflow || sink.len >= INT_MAX then -1 else sink.len;
  }
}
