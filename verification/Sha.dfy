/** Streaming SHA-1 and HMAC over the hash engine, for any compression function. */
module Sha {

  type Byte = x: int | 0 <= x < 256
  type Word = x: int | 0 <= x < 0x1_0000_0000

  const BLOCK := 64
  const MAX_BLOCKS := 1024

  type Hash = s: seq<Word> | |s| == 5 witness [0, 0, 0, 0, 0]
  type Block = s: seq<Byte> | |s| == 64 witness seq(64, i => 0)
  type Compression = (Hash, Block) -> Hash

  const INITIAL: Hash := [0x67452301, 0xEFCDAB89, 0x98BADCFE, 0x10325476, 0xC3D2E1F0]

  // ---------------------------------------------------------------- the hash of a message

  /** The compression function over a string of whole blocks. */
  function Fold(f: Compression, h: Hash, bs: seq<Byte>): Hash
    requires |bs| % BLOCK == 0
    decreases |bs|
  {
    if |bs| < BLOCK then h else Fold(f, f(h, bs[..BLOCK]), bs[BLOCK..])
  }

  lemma {:induction false} FoldAppend(f: Compression, h: Hash, a: seq<Byte>, b: seq<Byte>)
    requires |a| % BLOCK == 0 && |b| % BLOCK == 0
    ensures |a + b| % BLOCK == 0
    ensures Fold(f, h, a + b) == Fold(f, Fold(f, h, a), b)
    decreases |a|
  {
    if |a| < BLOCK {
      assert a + b == b;
    } else {
      assert (a + b)[..BLOCK] == a[..BLOCK] && (a + b)[BLOCK..] == a[BLOCK..] + b;
      FoldAppend(f, f(h, a[..BLOCK]), a[BLOCK..], b);
    }
  }

  const LENGTH_LIMIT := 0x1_0000_0000_0000_0000

  /** A number below 2^64 as eight bytes, highest first. */
  function Big64(x: nat): (r: seq<Byte>)
    requires x < LENGTH_LIMIT
    ensures |r| == 8
  {
    Big32(x / 0x1_0000_0000) + Big32(x % 0x1_0000_0000)
  }

  function Big32(x: Word): (r: seq<Byte>)
    ensures |r| == 4
  {
    [x / 0x100_0000, (x / 0x1_0000) % 0x100, (x / 0x100) % 0x100, x % 0x100]
  }

  function Zeros(n: nat): (r: seq<Byte>)
    ensures |r| == n
  {
    seq<Byte>(n, i => 0)
  }

  /** The padding of section 5.1.1 of FIPS 180-4 for a message of n bytes: a one bit, the
      fewest zeros that fill a block up to its last eight bytes, and the length in bits. */
  function Padding(n: nat): (r: seq<Byte>)
    ensures (n + |r|) % BLOCK == 0
  {
    PaddingFits(n);
    [0x80] + Zeros((119 - n % BLOCK) % BLOCK) + Big64((n * 8) % LENGTH_LIMIT)
  }

  lemma PaddingFits(n: nat)
    ensures (n + 1 + (119 - n % BLOCK) % BLOCK + 8) % BLOCK == 0
  {
    var q, r := n / BLOCK, n % BLOCK;
    assert n == BLOCK * q + r;
    if r <= 55 {
      assert n + 1 + (55 - r) + 8 == BLOCK * (q + 1);
    } else {
      assert n + 1 + (119 - r) + 8 == BLOCK * (q + 2);
    }
  }

  function Digest(f: Compression, m: seq<Byte>): Hash { Fold(f, INITIAL, m + Padding(|m|)) }

  // ---------------------------------------------------------------- one call

  datatype Command = InitSha | ContributeSha | FinalizeSha

  datatype Answer = Success | Invalid | InvalidSize | NoAccess

  datatype Context = Context(states: Hash, length: nat)

  datatype Outcome = Outcome(ret: Answer, context: Context, hash: Hash)

  /** The part of the input that is whole blocks. */
  function Floored(n: nat): nat { n / BLOCK * BLOCK }

  /** The block or two that end a message: the rest of the input, padded. */
  function LastBlocks(rest: seq<Byte>, bits: nat): (r: seq<Byte>)
    requires |rest| < BLOCK && bits < LENGTH_LIMIT
    ensures |r| % BLOCK == 0
  {
    var n := if |rest| + 1 < BLOCK - 7 then 1 else 2;
    rest + [0x80] + Zeros(n * BLOCK - 9 - |rest|) + Big64(bits)
  }

  predicate TooLong(input: seq<Byte>) { Floored(|input|) != 0 && Floored(|input|) / BLOCK - 1 >= MAX_BLOCKS }

  predicate Ragged(input: seq<Byte>, command: Command) {
    Floored(|input|) != 0 && !command.FinalizeSha? && |input| % BLOCK != 0
  }

  predicate Refused(input: seq<Byte>, command: Command) { TooLong(input) || Ragged(input, command) }

  /** What a call of which the engine reports an error does with a context: the error is looked at
      after the whole blocks of the input only. */
  function Called(f: Compression, c: Context, input: seq<Byte>, command: Command, fails: bool): Outcome {
    if Faulty(input, command, fails) then Outcome(NoAccess, if command.InitSha? then Context(INITIAL, 0) else c, INITIAL)
    else Generate(f, c, input, command)
  }

  predicate Faulty(input: seq<Byte>, command: Command, fails: bool) {
    fails && Floored(|input|) != 0 && !Refused(input, command)
  }

  /** What one call of the engine does with a context. */
  function Generate(f: Compression, c: Context, input: seq<Byte>, command: Command): Outcome {
    var reset := if command.InitSha? then Context(INITIAL, 0) else c;
    var n := Floored(|input|);
    if TooLong(input) || Ragged(input, command) then Outcome(InvalidSize, reset, INITIAL)
    else
      var states := Fold(f, reset.states, input[..n]);
      var length := (reset.length + n * 8) % LENGTH_LIMIT;
      if command.FinalizeSha? then
        var rest := input[n..];
        var bits := (length + |rest| * 8) % LENGTH_LIMIT;
        Outcome(Success, Context(reset.states, bits), Fold(f, states, LastBlocks(rest, bits)))
      else if n != 0 then Outcome(Success, Context(states, length), INITIAL)
      else Outcome(if command.InitSha? then Success else Invalid, reset, INITIAL)
  }

  /** The context stands for a message of whole blocks. */
  ghost predicate Absorbed(f: Compression, c: Context, m: seq<Byte>) {
    && |m| % BLOCK == 0
    && c == Context(Fold(f, INITIAL, m), (|m| * 8) % LENGTH_LIMIT)
  }

  lemma FlooredParts(n: nat)
    ensures Floored(n) <= n && n - Floored(n) == n % BLOCK < BLOCK && Floored(n) % BLOCK == 0
  {
  }

  lemma LengthAdds(a: nat, b: nat, c: nat)
    ensures (((a * 8) % LENGTH_LIMIT + b * 8) % LENGTH_LIMIT + c * 8) % LENGTH_LIMIT == ((a + b + c) * 8) % LENGTH_LIMIT
  {
  }

  lemma PaddedLast(m: seq<Byte>, whole: seq<Byte>, rest: seq<Byte>)
    requires |m| % BLOCK == 0 && |whole| % BLOCK == 0 && |rest| < BLOCK
    ensures var n := |m| + |whole| + |rest|;
            (m + (whole + rest)) + Padding(n) == (m + whole) + LastBlocks(rest, (n * 8) % LENGTH_LIMIT)
  {
    var n := |m| + |whole| + |rest|;
    PaddingZeros(|m|, |whole|, |rest|);
    hide Big64, Zeros, Floored;
    var z := (119 - |rest|) % BLOCK;
    var end := [0x80] + Zeros(z) + Big64((n * 8) % LENGTH_LIMIT);
    assert Padding(n) == end;
    Regroup(m, whole, rest, end);
    assert LastBlocks(rest, (n * 8) % LENGTH_LIMIT) == rest + end;
  }

  lemma PaddingZeros(m: nat, w: nat, r: nat)
    requires m % BLOCK == 0 && w % BLOCK == 0 && r < BLOCK
    ensures (m + w + r) % BLOCK == r
    ensures (119 - r) % BLOCK == (if r + 1 < BLOCK - 7 then 1 else 2) * BLOCK - 9 - r
  {
  }

  lemma Regroup(m: seq<Byte>, whole: seq<Byte>, rest: seq<Byte>, end: seq<Byte>)
    ensures (m + (whole + rest)) + end == (m + whole) + (rest + end)
  {
  }

  /** Finalizing gives the digest of all that was absorbed and the last input. */
  lemma FinalizeDigest(f: Compression, c: Context, m: seq<Byte>, input: seq<Byte>)
    requires Absorbed(f, c, m)
    ensures Generate(f, c, input, FinalizeSha).ret == if TooLong(input) then InvalidSize else Success
    ensures !TooLong(input) ==> Generate(f, c, input, FinalizeSha).hash == Digest(f, m + input)
  {
    hide Fold, LastBlocks, Padding, Floored, Big64, Zeros;
    var n := Floored(|input|);
    FlooredParts(|input|);
    var whole, rest := input[..n], input[n..];
    assert input == whole + rest;
    PaddedLast(m, whole, rest);
    LengthAdds(|m|, n, |rest|);
    var bits := (|m + input| * 8) % LENGTH_LIMIT;
    var last := LastBlocks(rest, bits);
    FoldAppend(f, INITIAL, m, whole);
    FoldAppend(f, INITIAL, m + whole, last);
  }

  // ---------------------------------------------------------------- many calls on many contexts

  datatype Option<T> = None | Some(value: T)

  datatype Call = Call(id: nat, command: Command, input: seq<Byte>, fails: bool)

  /** The context with number id after the calls. */
  function ContextOf(f: Compression, start: nat -> Context, calls: seq<Call>, id: nat): Context {
    if calls == [] then start(id)
    else
      var last, before := calls[|calls| - 1], ContextOf(f, start, calls[..|calls| - 1], id);
      if last.id != id then before else Called(f, before, last.input, last.command, last.fails).context
  }

  /** A call that takes nothing in. */
  predicate Stopped(call: Call) { Refused(call.input, call.command) || Faulty(call.input, call.command, call.fails) }

  /** What the context with number id has absorbed since it was last initialised; nothing
      that can be told after it was finalized. */
  function MessageOf(calls: seq<Call>, id: nat): Option<seq<Byte>> {
    if calls == [] then None
    else
      var last, before := calls[|calls| - 1], MessageOf(calls[..|calls| - 1], id);
      if last.id != id then before
      else
        match last.command
        case InitSha => Some(if Stopped(last) then [] else last.input[..Floored(|last.input|)])
        case ContributeSha =>
          if before.None? || Stopped(last) then before
          else Some(before.value + last.input[..Floored(|last.input|)])
        case FinalizeSha => if Stopped(last) then before else None
  }

  lemma InitAbsorbs(f: Compression, c: Context, input: seq<Byte>)
    ensures var r := Generate(f, c, input, InitSha);
            && r.ret == (if Refused(input, InitSha) then InvalidSize else Success)
            && Absorbed(f, r.context, if Refused(input, InitSha) then [] else input[..Floored(|input|)])
  {
    FlooredParts(|input|);
    assert Fold(f, INITIAL, []) == INITIAL;
    assert input[..0] == [];
  }

  lemma ContributeAbsorbs(f: Compression, c: Context, m: seq<Byte>, input: seq<Byte>)
    requires Absorbed(f, c, m)
    ensures var r := Generate(f, c, input, ContributeSha);
            && r.ret == (if Refused(input, ContributeSha) then InvalidSize else if Floored(|input|) == 0 then Invalid else Success)
            && Absorbed(f, r.context, if Refused(input, ContributeSha) then m else m + input[..Floored(|input|)])
  {
    FlooredParts(|input|);
    FoldAppend(f, INITIAL, m, input[..Floored(|input|)]);
    LengthAdds(|m|, Floored(|input|), 0);
    assert m + input[..0] == m;
    hide Fold, Floored;
  }

  /** Calls on other contexts in between make no difference. */
  lemma {:induction false} RunAbsorbs(f: Compression, start: nat -> Context, calls: seq<Call>, id: nat)
    requires MessageOf(calls, id).Some?
    ensures Absorbed(f, ContextOf(f, start, calls, id), MessageOf(calls, id).value)
    decreases |calls|
  {
    hide Generate, Absorbed, Refused;
    var last, before := calls[|calls| - 1], calls[..|calls| - 1];
    if last.id != id {
      RunAbsorbs(f, start, before, id);
    } else {
      var c := ContextOf(f, start, before, id);
      match last.command {
        case InitSha =>
          InitAbsorbs(f, c, last.input);
          NothingAbsorbed(f);
        case ContributeSha =>
          RunAbsorbs(f, start, before, id);
          ContributeAbsorbs(f, c, MessageOf(before, id).value, last.input);
        case FinalizeSha =>
          RunAbsorbs(f, start, before, id);
          if Refused(last.input, FinalizeSha) { FinalizeRefused(f, c, last.input); }
      }
    }
  }

  lemma NothingAbsorbed(f: Compression)
    ensures Absorbed(f, Context(INITIAL, 0), [])
  {
  }

  lemma FinalizeRefused(f: Compression, c: Context, input: seq<Byte>)
    requires Refused(input, FinalizeSha)
    ensures Generate(f, c, input, FinalizeSha).context == c
  {
  }

  /** Whatever the calls before, finalizing a context gives the digest of its whole message, or an
      error and the context as it was. */
  lemma StreamedDigest(f: Compression, start: nat -> Context, calls: seq<Call>, id: nat, input: seq<Byte>, fails: bool)
    requires MessageOf(calls, id).Some?
    ensures var c := ContextOf(f, start, calls, id);
            var r := Called(f, c, input, FinalizeSha, fails);
            && r.ret == (if TooLong(input) then InvalidSize else if fails && Floored(|input|) != 0 then NoAccess else Success)
            && (r.ret.Success? ==> r.hash == Digest(f, MessageOf(calls, id).value + input))
            && (!r.ret.Success? ==> r.context == c)
  {
    hide Absorbed, Fold, LastBlocks;
    RunAbsorbs(f, start, calls, id);
    FinalizeDigest(f, ContextOf(f, start, calls, id), MessageOf(calls, id).value, input);
  }

  /** One context fed piece by piece. */
  function Pieces(id: nat, first: seq<Byte>, rest: seq<seq<Byte>>): seq<Call> {
    if rest == [] then [Call(id, InitSha, first, false)]
    else Pieces(id, first, rest[..|rest| - 1]) + [Call(id, ContributeSha, rest[|rest| - 1], false)]
  }

  function Joined(first: seq<Byte>, rest: seq<seq<Byte>>): seq<Byte> {
    if rest == [] then first else Joined(first, rest[..|rest| - 1]) + rest[|rest| - 1]
  }

  predicate WholeBlocks(input: seq<Byte>) { |input| % BLOCK == 0 && !TooLong(input) }

  lemma {:induction false} PiecesMessage(id: nat, first: seq<Byte>, rest: seq<seq<Byte>>)
    requires WholeBlocks(first) && forall i :: 0 <= i < |rest| ==> WholeBlocks(rest[i])
    ensures MessageOf(Pieces(id, first, rest), id) == Some(Joined(first, rest))
    decreases |rest|
  {
    var calls := Pieces(id, first, rest);
    if rest == [] {
      FlooredWhole(first);
      assert calls[..|calls| - 1] == [];
    } else {
      var front, last := rest[..|rest| - 1], rest[|rest| - 1];
      PiecesMessage(id, first, front);
      FlooredWhole(last);
      assert calls[..|calls| - 1] == Pieces(id, first, front);
    }
  }

  lemma FlooredWhole(input: seq<Byte>)
    requires |input| % BLOCK == 0
    ensures Floored(|input|) == |input| && input[..Floored(|input|)] == input && forall c :: !Ragged(input, c)
  {
  }

  /** Any way of cutting a message into pieces of whole blocks gives the digest of the message. */
  lemma AnySplit(f: Compression, start: nat -> Context, id: nat, first: seq<Byte>, rest: seq<seq<Byte>>, last: seq<Byte>)
    requires WholeBlocks(first) && !TooLong(last) && forall i :: 0 <= i < |rest| ==> WholeBlocks(rest[i])
    ensures Generate(f, ContextOf(f, start, Pieces(id, first, rest), id), last, FinalizeSha).hash == Digest(f, Joined(first, rest) + last)
  {
    PiecesMessage(id, first, rest);
    StreamedDigest(f, start, Pieces(id, first, rest), id, last, false);
  }

  // ---------------------------------------------------------------- HMAC

  const KEY_SIZE := 0x14
  const INNER := 0x36
  const OUTER := 0x5C

  type Key = s: seq<Byte> | |s| == 0x14 witness seq(0x14, i => 0)

  /** The exclusive or of the lowest n bits. */
  function XorBits(a: nat, b: nat, n: nat): (r: nat)
    ensures r < PowerOfTwo(n)
  {
    if n == 0 then 0 else (a + b) % 2 + 2 * XorBits(a / 2, b / 2, n - 1)
  }

  function PowerOfTwo(n: nat): nat { if n == 0 then 1 else 2 * PowerOfTwo(n - 1) }

  function XorByte(a: Byte, b: Byte): Byte {
    assert PowerOfTwo(4) == 16;
    assert PowerOfTwo(8) == 256;
    XorBits(a, b, 8)
  }

  /** The key, filled up with zeros to a block, with every byte changed by x. */
  function KeyPad(key: Key, x: Byte): Block {
    seq<Byte>(BLOCK, i requires 0 <= i < BLOCK => PadByte(key, x, i))
  }

  function PadByte(key: Key, x: Byte, i: nat): Byte { XorByte(if i < KEY_SIZE then key[i] else 0, x) }

  function HashBytes(h: Hash): (r: seq<Byte>)
    ensures |r| == 20
  {
    Big32(h[0]) + Big32(h[1]) + Big32(h[2]) + Big32(h[3]) + Big32(h[4])
  }

  /** Section 2 of RFC 2104. */
  function Hmac(f: Compression, key: Key, m: seq<Byte>): Hash {
    Digest(f, KeyPad(key, OUTER) + HashBytes(Digest(f, KeyPad(key, INNER) + m)))
  }

  function HmacInit(f: Compression, key: Key, c: Context, input: seq<Byte>, faults: nat -> bool): Outcome {
    var o := Called(f, c, KeyPad(key, INNER), InitSha, faults(0));
    if !o.ret.Success? || input == [] then o else Called(f, o.context, input, ContributeSha, faults(1))
  }

  function HmacContribute(f: Compression, c: Context, a: seq<Byte>, b: seq<Byte>, faults: nat -> bool): Outcome {
    var o := if a == [] then Outcome(Success, c, INITIAL) else Called(f, c, a, ContributeSha, faults(0));
    if !o.ret.Success? || b == [] then o else Called(f, o.context, b, ContributeSha, faults(1))
  }

  function HmacFinalize(f: Compression, key: Key, c: Context, a: seq<Byte>, b: seq<Byte>, faults: nat -> bool): Outcome {
    var o := if a == [] then Outcome(Success, c, INITIAL) else Called(f, c, a, ContributeSha, faults(0));
    if !o.ret.Success? then o
    else
      var inner := Called(f, o.context, b, FinalizeSha, faults(1));
      if !inner.ret.Success? then inner
      else
        var outer := Called(f, inner.context, KeyPad(key, OUTER), InitSha, faults(2));
        if !outer.ret.Success? then outer else Called(f, outer.context, HashBytes(inner.hash), FinalizeSha, faults(3))
  }

  predicate NoFaults(faults: nat -> bool) { !faults(0) && !faults(1) && !faults(2) && !faults(3) }

  /** The context of an HMAC that has taken in m. */
  ghost predicate Keyed(f: Compression, key: Key, c: Context, m: seq<Byte>) {
    Absorbed(f, c, KeyPad(key, INNER) + m)
  }

  lemma Adds(f: Compression, c: Context, m: seq<Byte>, input: seq<Byte>, fails: bool)
    requires Absorbed(f, c, m) && WholeBlocks(input) && input != []
    ensures var r := Called(f, c, input, ContributeSha, fails);
            && (r.ret.Success? <==> !fails)
            && (r.ret.Success? ==> Absorbed(f, r.context, m + input))
  {
    ContributeAbsorbs(f, c, m, input);
    FlooredWhole(input);
    hide Generate, Absorbed;
  }

  /** The pad taken in first. */
  lemma PadAbsorbs(f: Compression, c: Context, pad: Block, fails: bool)
    ensures var r := Called(f, c, pad, InitSha, fails);
            (r.ret.Success? <==> !fails) && (r.ret.Success? ==> Absorbed(f, r.context, pad))
  {
    InitAbsorbs(f, c, pad);
    FlooredWhole(pad);
    hide Generate, Absorbed;
  }

  /** Initialising absorbs the inner pad and the input, unless the engine reports an error. */
  lemma HmacInitKeys(f: Compression, key: Key, c: Context, input: seq<Byte>, faults: nat -> bool)
    requires WholeBlocks(input)
    ensures var r := HmacInit(f, key, c, input, faults);
            (NoFaults(faults) ==> r.ret.Success?) && (r.ret.Success? ==> Keyed(f, key, r.context, input))
  {
    hide Called, Absorbed, KeyPad;
    var pad := KeyPad(key, INNER);
    PadAbsorbs(f, c, pad, faults(0));
    var o := Called(f, c, pad, InitSha, faults(0));
    assert pad + [] == pad;
    if o.ret.Success? && input != [] { Adds(f, o.context, pad, input, faults(1)); }
  }

  lemma HmacContributeKeys(f: Compression, key: Key, c: Context, m: seq<Byte>, a: seq<Byte>, b: seq<Byte>, faults: nat -> bool)
    requires Keyed(f, key, c, m) && WholeBlocks(a) && WholeBlocks(b)
    ensures var r := HmacContribute(f, c, a, b, faults);
            (NoFaults(faults) ==> r.ret.Success?) && (r.ret.Success? ==> Keyed(f, key, r.context, m + a + b))
  {
    hide Called, Absorbed, KeyPad;
    var pad := KeyPad(key, INNER);
    assert pad + (m + a + b) == ((pad + m) + a) + b && (pad + m) + [] == pad + m && ((pad + m) + a) + [] == (pad + m) + a;
    if a != [] { Adds(f, c, pad + m, a, faults(0)); }
    var o := if a == [] then Outcome(Success, c, INITIAL) else Called(f, c, a, ContributeSha, faults(0));
    if o.ret.Success? && b != [] { Adds(f, o.context, pad + m + a, b, faults(1)); }
  }

  lemma FinalizeCalled(f: Compression, c: Context, m: seq<Byte>, input: seq<Byte>, fails: bool)
    requires Absorbed(f, c, m) && !TooLong(input)
    ensures var r := Called(f, c, input, FinalizeSha, fails);
            && (!fails ==> r.ret.Success?)
            && (r.ret.Success? ==> r.hash == Digest(f, m + input))
  {
    FinalizeDigest(f, c, m, input);
    hide Generate, Absorbed, Digest;
  }

  /** Finalizing gives the HMAC of all that was taken in, unless the engine reports an error. */
  lemma HmacStreamed(f: Compression, key: Key, c: Context, m: seq<Byte>, a: seq<Byte>, b: seq<Byte>, faults: nat -> bool)
    requires Keyed(f, key, c, m) && WholeBlocks(a) && !TooLong(b)
    ensures var r := HmacFinalize(f, key, c, a, b, faults);
            (NoFaults(faults) ==> r.ret.Success?) && (r.ret.Success? ==> r.hash == Hmac(f, key, m + a + b))
  {
    hide Called, Absorbed, KeyPad, Digest, HashBytes;
    var pad := KeyPad(key, INNER);
    assert pad + (m + a + b) == ((pad + m) + a) + b && (pad + m) + [] == pad + m;
    if a != [] { Adds(f, c, pad + m, a, faults(0)); }
    var o := if a == [] then Outcome(Success, c, INITIAL) else Called(f, c, a, ContributeSha, faults(0));
    if o.ret.Success? {
      FinalizeCalled(f, o.context, pad + m + a, b, faults(1));
      var inner := Called(f, o.context, b, FinalizeSha, faults(1));
      var outer := KeyPad(key, OUTER);
      PadAbsorbs(f, inner.context, outer, faults(2));
      var keyed := Called(f, inner.context, outer, InitSha, faults(2));
      if inner.ret.Success? && keyed.ret.Success? {
        FinalizeCalled(f, keyed.context, outer, HashBytes(inner.hash), faults(3));
      }
    }
  }
}
