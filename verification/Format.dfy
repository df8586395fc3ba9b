/** What a format and its arguments stand for: the output of vsnprintf without a bound. */
module Format {

  const INT_MAX := 0x7FFF_FFFF
  const WORD_LIMIT := 0x1_0000_0000

  /** An argument as it is passed: a 32-bit word, and the string at that address if it is one. */
  datatype Arg = Arg(word: nat, text: string)

  datatype State = Default | FlagsState | WidthState | Dot | Precision | Mod | Conv

  datatype Length = NoLength | CharLength | ShortLength | LongLength | LongLongLength | SizeLength | PtrdiffLength | IntmaxLength

  datatype Flags = Flags(minus: bool, plus: bool, space: bool, num: bool, zero: bool, quote: bool, up: bool, unsigned: bool)

  const NO_FLAGS := Flags(false, false, false, false, false, false, false, false)

  /** The variables of the parser: where it is in the format, what it read of a directive,
      and how many arguments it used. */
  datatype Parse = Parse(pos: nat, state: State, flags: Flags, length: Length, width: int, precision: int, arg: nat)

  function Start(pos: nat, arg: nat): Parse { Parse(pos, Default, NO_FLAGS, NoLength, 0, -1, arg) }

  /** The character at a place of a string; the terminator at its end. */
  function CharAt(s: string, i: nat): char { if i < |s| then s[i] else '\0' }

  predicate IsDigit(ch: char) { '0' <= ch <= '9' }

  function DigitValue(ch: char): int { ch as int - '0' as int }

  function Rank(s: State): nat {
    match s
    case Default => 0
    case FlagsState => 5
    case WidthState => 4
    case Dot => 3
    case Precision => 2
    case Mod => 1
    case Conv => 0
  }

  // ---------------------------------------------------------------- arguments

  function WordArg(args: seq<Arg>, i: nat): nat {
    if i < |args| then args[i].word % WORD_LIMIT else 0
  }

  function StringArg(args: seq<Arg>, i: nat): string {
    if WordArg(args, i) != 0 then args[i].text else "(null)"
  }

  /** The number of values of the type a length modifier names. */
  function Range(length: Length): (r: nat) {
    if length.CharLength? then 0x100 else if length.ShortLength? then 0x1_0000 else WORD_LIMIT
  }

  function Signed(x: int, range: nat): int
    requires range > 0
  {
    var y := x % range;
    if y < range / 2 then y else y - range
  }

  function SignedArg(args: seq<Arg>, i: nat, length: Length): int {
    Signed(WordArg(args, i), Range(length))
  }

  function UnsignedArg(args: seq<Arg>, i: nat, length: Length): int {
    WordArg(args, i) % Range(length)
  }

  // ---------------------------------------------------------------- strings and numbers

  function Fill(n: int, ch: char): (r: string)
    ensures |r| == if n > 0 then n else 0
  {
    seq(if n > 0 then n else 0, i => ch)
  }

  function Max(a: int, b: int): int { if a >= b then a else b }

  /** The number of characters of s before its end and within the precision. */
  function StrLen(s: string, precision: int, i: nat): (n: nat)
    ensures i <= |s| ==> i <= n <= |s|
    decreases |s| - i
  {
    if CharAt(s, i) != '\0' && (precision == -1 || i < precision) then StrLen(s, precision, i + 1) else i
  }

  function FmtStr(s: string, width: int, precision: int, minus: bool): string {
    var n := StrLen(s, precision, 0);
    var pad := Fill(width - n, ' ');
    if minus then s[..n] + pad else pad + s[..n]
  }

  function DigitChar(d: nat, caps: bool): char
    requires d < 16
  {
    if caps then "0123456789ABCDEF"[d] else "0123456789abcdef"[d]
  }

  /** The digits of u, lowest first; one digit for 0. */
  function Reversed(u: nat, base: nat, caps: bool): (r: string)
    requires 2 <= base <= 16
    ensures |r| >= 1
    decreases u
  {
    [DigitChar(u % base, caps)] + if u / base == 0 then "" else Reversed(u / base, base, caps)
  }

  /** The first pos characters of a reversed number, highest first, with the separators. */
  function Grouped(digits: string, pos: nat, separated: bool): string
    requires pos <= |digits|
  {
    if pos == 0 then ""
    else [digits[pos - 1]] + (if separated && pos > 1 && (pos - 1) % 3 == 0 then "," else "") + Grouped(digits, pos - 1, separated)
  }

  function NumSep(digits: nat): nat { if digits == 0 then 0 else (digits - if digits % 3 == 0 then 1 else 0) / 3 }

  function Magnitude(value: int, unsigned: bool): nat {
    if unsigned then value % WORD_LIMIT else (if value >= 0 then value else -value) % WORD_LIMIT
  }

  /** The sign of a number, and the letter of its prefix; the null character where there is none. */
  function Sign(value: int, flags: Flags): char {
    if flags.unsigned then '\0' else if value < 0 then '-' else if flags.plus then '+' else if flags.space then ' ' else '\0'
  }

  function PrefixLetter(u: nat, base: nat, flags: Flags): char {
    if flags.num && u != 0 && base == 16 then (if flags.up then 'X' else 'x') else '\0'
  }

  function SignText(sign: char): string { if sign == '\0' then "" else [sign] }

  function PrefixText(letter: char): string { if letter == '\0' then "" else ['0', letter] }

  /** The precision, raised by the alternative form of octal numbers. */
  function DigitsWanted(u: nat, base: nat, precision: int, flags: Flags, pos: nat): int {
    if flags.num && u != 0 && base == 8 && precision <= pos then pos + 1 else precision
  }

  /** The padding of a number: spaces before, zeros, spaces behind. */
  datatype Padding = Padding(before: nat, zeros: nat, behind: nat)

  function Pads(width: int, precision: int, wanted: int, pos: nat, seps: nat, extra: nat, flags: Flags): Padding {
    var zeros, spaces := Max(wanted - pos - seps, 0), Max(width - seps - Max(wanted, pos) - extra, 0);
    if flags.minus then Padding(0, zeros, spaces)
    else if flags.zero && precision == -1 then Padding(0, zeros + spaces, 0)
    else Padding(spaces, zeros, 0)
  }

  function FmtInt(value: int, base: nat, width: int, precision: int, flags: Flags): string
    requires 2 <= base <= 16
  {
    var u := Magnitude(value, flags.unsigned);
    var digits := Reversed(u, base, flags.up);
    var seps := if flags.quote then NumSep(|digits|) else 0;
    var sign, prefix := SignText(Sign(value, flags)), PrefixText(PrefixLetter(u, base, flags));
    var p := Pads(width, precision, DigitsWanted(u, base, precision, flags, |digits|), |digits|, seps, |sign| + |prefix|, flags);
    Fill(p.before, ' ') + sign + prefix + Fill(p.zeros, '0') + Grouped(digits, |digits|, seps > 0) + Fill(p.behind, ' ')
  }

  const MAX_CONVERT_LENGTH := 43

  function Pow2(k: nat): nat { if k == 0 then 1 else 2 * Pow2(k - 1) }

  lemma {:induction false} DigitsBound(u: nat, base: nat, caps: bool, k: nat)
    requires 2 <= base <= 16 && u < Pow2(k) && k >= 1
    ensures |Reversed(u, base, caps)| <= k
    decreases k
  {
    if u / base != 0 {
      Shrinks(u, base);
      assert u / base < Pow2(k - 1);
      DigitsBound(u / base, base, caps, k - 1);
    }
  }

  lemma Shrinks(u: nat, base: nat)
    requires base >= 2
    ensures 2 * (u / base) <= u
  {
    assert base * (u / base) <= u;
    assert (base - 2) * (u / base) >= 0;
  }

  /** The conversion buffer is large enough for every word. */
  lemma WordDigits(u: nat, base: nat, caps: bool)
    requires 2 <= base <= 16 && u < WORD_LIMIT
    ensures |Reversed(u, base, caps)| < MAX_CONVERT_LENGTH
  {
    assert Pow2(8) == 256;
    assert Pow2(16) == 0x1_0000;
    assert Pow2(24) == 0x100_0000;
    assert Pow2(32) == WORD_LIMIT;
    DigitsBound(u, base, caps, 32);
  }

  // ---------------------------------------------------------------- one round of the parser

  datatype Round = Overflow | Round(parse: Parse, text: string, store: bool)

  /** A count stored by %n: where, as which type, and the value after the cast. */
  datatype Store = Store(address: nat, length: Length, count: int)

  function StoreAt(p: Parse, args: seq<Arg>, len: nat): Store {
    Store(WordArg(args, p.arg), p.length, Signed(len, Range(p.length)))
  }

  function Quiet(p: Parse): Round { Round(p, "", false) }

  function DefaultRound(ch: char, p: Parse): Round {
    if ch == '%' then Quiet(p.(pos := p.pos + 1, state := FlagsState))
    else Round(p.(pos := p.pos + 1), [ch], false)
  }

  function FlagsRound(ch: char, p: Parse): Round {
    var q := p.(pos := p.pos + 1);
    if ch == '-' then Quiet(q.(flags := p.flags.(minus := true)))
    else if ch == '+' then Quiet(q.(flags := p.flags.(plus := true)))
    else if ch == ' ' then Quiet(q.(flags := p.flags.(space := true)))
    else if ch == '#' then Quiet(q.(flags := p.flags.(num := true)))
    else if ch == '0' then Quiet(q.(flags := p.flags.(zero := true)))
    else if ch == '\'' then Quiet(q.(flags := p.flags.(quote := true)))
    else Quiet(p.(state := WidthState))
  }

  function WidthRound(ch: char, p: Parse, args: seq<Arg>): Round {
    if IsDigit(ch) then
      var d := DigitValue(ch);
      if p.width > (INT_MAX - d) / 10 then Overflow else Quiet(p.(pos := p.pos + 1, width := 10 * p.width + d))
    else if ch == '*' then
      var w := SignedArg(args, p.arg, NoLength);
      Quiet(p.(pos := p.pos + 1, arg := p.arg + 1, state := Dot, width := if w < 0 then -w else w,
               flags := if w < 0 then p.flags.(minus := true) else p.flags))
    else Quiet(p.(state := Dot))
  }

  function DotRound(ch: char, p: Parse): Round {
    if ch == '.' then Quiet(p.(pos := p.pos + 1, state := Precision)) else Quiet(p.(state := Mod))
  }

  function PrecisionRound(ch: char, p: Parse, args: seq<Arg>): Round {
    var precision := if p.precision == -1 then 0 else p.precision;
    if IsDigit(ch) then
      var d := DigitValue(ch);
      if precision > (INT_MAX - d) / 10 then Overflow else Quiet(p.(pos := p.pos + 1, precision := 10 * precision + d))
    else if ch == '*' then
      var n := SignedArg(args, p.arg, NoLength);
      Quiet(p.(pos := p.pos + 1, arg := p.arg + 1, state := Mod, precision := if n < 0 then -1 else n))
    else Quiet(p.(state := Mod, precision := precision))
  }

  function ModRound(ch: char, next: char, p: Parse): Round {
    var q := p.(state := Conv);
    if ch == 'h' then Quiet(if next == 'h' then q.(pos := p.pos + 2, length := CharLength) else q.(pos := p.pos + 1, length := ShortLength))
    else if ch == 'l' then Quiet(if next == 'l' then q.(pos := p.pos + 2, length := LongLongLength) else q.(pos := p.pos + 1, length := LongLength))
    else if ch == 'j' then Quiet(q.(pos := p.pos + 1, length := IntmaxLength))
    else if ch == 't' then Quiet(q.(pos := p.pos + 1, length := PtrdiffLength))
    else if ch == 'z' then Quiet(q.(pos := p.pos + 1, length := SizeLength))
    else Quiet(q)
  }

  function BaseOf(ch: char): nat { if ch == 'x' || ch == 'X' then 16 else if ch == 'o' then 8 else 10 }

  predicate TakesArg(ch: char) { ch in {'d', 'i', 'x', 'X', 'o', 'u', 'c', 's', 'p', 'n'} }

  function Converted(ch: char, length: Length, width: int, precision: int, flags: Flags, args: seq<Arg>, arg: nat): string {
    if ch == 'd' || ch == 'i' then FmtInt(SignedArg(args, arg, length), 10, width, precision, flags)
    else if ch == 'x' || ch == 'X' || ch == 'o' || ch == 'u' then
      FmtInt(UnsignedArg(args, arg, length), BaseOf(ch), width, precision, flags.(up := flags.up || ch == 'X', unsigned := true))
    else if ch == 'c' then [(WordArg(args, arg) % 0x100) as char]
    else if ch == 's' then FmtStr(StringArg(args, arg), width, precision, flags.minus)
    else if ch == 'p' then
      if WordArg(args, arg) == 0 then FmtStr("(nil)", width, -1, flags.minus)
      else FmtInt(Signed(WordArg(args, arg), WORD_LIMIT), 16, width, precision, flags.(num := true, unsigned := true))
    else if ch == '%' then "%"
    else ""
  }

  function ConvRound(ch: char, p: Parse, args: seq<Arg>): Round {
    Round(Start(p.pos + 1, p.arg + if TakesArg(ch) then 1 else 0),
          Converted(ch, p.length, p.width, p.precision, p.flags, args, p.arg), ch == 'n')
  }

  function NextRound(format: string, args: seq<Arg>, p: Parse): (r: Round)
    requires CharAt(format, p.pos) != '\0'
    ensures r.Round? ==> p.pos <= r.parse.pos <= |format|
    ensures r.Round? && r.parse.pos == p.pos ==> Rank(r.parse.state) < Rank(p.state)
  {
    var ch := CharAt(format, p.pos);
    match p.state
    case Default => DefaultRound(ch, p)
    case FlagsState => FlagsRound(ch, p)
    case WidthState => WidthRound(ch, p, args)
    case Dot => DotRound(ch, p)
    case Precision => PrecisionRound(ch, p, args)
    case Mod => ModRound(ch, CharAt(format, p.pos + 1), p)
    case Conv => ConvRound(ch, p, args)
  }

  /** The whole output from a point on: its text, whether a number overflowed, and the counts
      stored on the way. */
  datatype Output = Output(text: string, overflow: bool, stores: seq<Store>)

  function Run(format: string, args: seq<Arg>, p: Parse, len: nat): Output
    decreases if p.pos < |format| then |format| - p.pos else 0, Rank(p.state)
  {
    if CharAt(format, p.pos) == '\0' then Output("", false, [])
    else
      match NextRound(format, args, p)
      case Overflow => Output("", true, [])
      case Round(q, text, store) =>
        var rest := Run(format, args, q, len + |text|);
        Output(text + rest.text, rest.overflow, (if store then [StoreAt(p, args, len)] else []) + rest.stores)
  }

  function Formatted(format: string, args: seq<Arg>): Output { Run(format, args, Start(0, 0), 0) }
}
