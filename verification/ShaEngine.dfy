/** The hash engine and its driver, which work on registers and shared buffers. */
module ShaEngine {
  import opened Sha
  import opened ShaLaws

  class ShaContext {
    var states: Hash
    var length: nat

    function View(): Context
      reads this
    {
      Context(states, length)
    }

    constructor (c: Context)
      ensures View() == c
    {
      states, length := c.states, c.length;
    }
  }

  class Engine {
    const compress: Compression
    var registers: Hash
    const lastBlock: array<Byte>
    const keyPad: array<Byte>

    ghost predicate Valid() { lastBlock.Length == 2 * BLOCK && keyPad.Length == BLOCK && lastBlock != keyPad }

    constructor (f: Compression)
      ensures Valid() && compress == f
    {
      compress, registers := f, INITIAL;
      lastBlock := new Byte[2 * BLOCK](_ => 0);
      keyPad := new Byte[BLOCK](_ => 0);
      new;
      assert lastBlock.Length != keyPad.Length;
    }

    /** The hardware: run over one more block than the control word says. */
    method Execute(src: seq<Byte>, numberOfBlocks: nat)
      requires numberOfBlocks < MAX_BLOCKS && (numberOfBlocks + 1) * BLOCK <= |src|
      modifies this`registers
      ensures registers == Fold(compress, old(registers), src[..(numberOfBlocks + 1) * BLOCK])
    {
      hide Fold;
      var h := registers;
      var i := 0;
      NoBlocks(compress, h);
      while i <= numberOfBlocks
        invariant i <= numberOfBlocks + 1
        invariant registers == Fold(compress, h, src[..i * BLOCK])
      {
        var block := src[i * BLOCK..(i + 1) * BLOCK];
        assert src[..(i + 1) * BLOCK] == src[..i * BLOCK] + block;
        FoldAppend(compress, h, src[..i * BLOCK], block);
        OneBlock(compress, registers, block);
        registers := compress(registers, block);
        i := i + 1;
      }
    }

    /** The end of a message, in the buffer of two blocks. */
    method PadLast(rest: seq<Byte>, bits: nat) returns (numberOfBlocks: nat)
      requires Valid() && |rest| < BLOCK && bits < LENGTH_LIMIT
      modifies lastBlock
      ensures 1 <= numberOfBlocks <= 2 && lastBlock[..numberOfBlocks * BLOCK] == LastBlocks(rest, bits)
      ensures |rest| + 9 <= numberOfBlocks * 64 < |rest| + 9 + 64
      ensures lastBlock[..|rest|] == rest && lastBlock[|rest|] == 0x80
      ensures forall i :: |rest| < i < numberOfBlocks * 64 - 8 ==> lastBlock[i] == 0
      ensures ValueOf(lastBlock[numberOfBlocks * 64 - 8..numberOfBlocks * 64]) == bits
    {
      for i := 0 to 2 * BLOCK
        invariant forall k :: 0 <= k < i ==> lastBlock[k] == 0
      {
        lastBlock[i] := 0;
      }
      for i := 0 to |rest|
        invariant lastBlock[..i] == rest[..i]
        invariant forall k :: i <= k < 2 * BLOCK ==> lastBlock[k] == 0
      {
        lastBlock[i] := rest[i];
      }
      lastBlock[|rest|] := 0x80;
      numberOfBlocks := if |rest| + 1 < BLOCK - 7 then 1 else 2;
      var index := numberOfBlocks * BLOCK;
      Store32(index - 4, bits % 0x1_0000_0000);
      Store32(index - 8, bits / 0x1_0000_0000);
      LastBytes(lastBlock[..], rest, bits, numberOfBlocks);
      assert lastBlock[..][..index] == lastBlock[..index] && lastBlock[..][..|rest|] == lastBlock[..|rest|];
      assert lastBlock[..][index - 8..index] == lastBlock[index - 8..index];
    }

    method Store32(i: nat, x: Word)
      requires Valid() && i + 4 <= 2 * BLOCK
      modifies lastBlock
      ensures lastBlock[i..i + 4] == Big32(x)
      ensures forall k :: 0 <= k < 2 * BLOCK && !(i <= k < i + 4) ==> lastBlock[k] == old(lastBlock[k])
    {
      lastBlock[i] := x / 0x100_0000;
      lastBlock[i + 1] := (x / 0x1_0000) % 0x100;
      lastBlock[i + 2] := (x / 0x100) % 0x100;
      lastBlock[i + 3] := x % 0x100;
    }

    /** One call, on any context and whatever the registers held before; fails is the error bit the
        engine shows after the whole blocks. */
    method GenerateSha(c: ShaContext, input: seq<Byte>, command: Command, fails: bool) returns (ret: Answer, hash: Hash)
      requires Valid()
      modifies c, this`registers, lastBlock
      ensures Outcome(ret, c.View(), hash) == Called(compress, old(c.View()), input, command, fails)
    {
      hide Fold, LastBlocks;
      ret, hash := Invalid, INITIAL;
      if command.InitSha? {
        c.states, c.length := INITIAL, 0;
        ret := Success;
      }
      var floored := Floored(|input|);
      FlooredParts(|input|);
      NoBlocks(compress, c.states);
      assert input[..0] == [];
      if floored != 0 {
        var numberOfBlocks := floored / BLOCK - 1;
        if numberOfBlocks >= MAX_BLOCKS { return InvalidSize, hash; }
        if !command.FinalizeSha? && |input| % BLOCK != 0 { return InvalidSize, hash; }
        registers := c.states;
        Execute(input, numberOfBlocks);
        if fails { return NoAccess, hash; }
      }
      if command.FinalizeSha? {
        c.length := (c.length + floored * 8) % LENGTH_LIMIT;
        var rest := input[floored..];
        c.length := (c.length + |rest| * 8) % LENGTH_LIMIT;
        var numberOfBlocks := PadLast(rest, c.length);
        if floored == 0 {
          registers := c.states;
        }
        Execute(lastBlock[..], numberOfBlocks - 1);
        assert lastBlock[..][..numberOfBlocks * BLOCK] == lastBlock[..numberOfBlocks * BLOCK];
        hash := registers;
        ret := Success;
      } else if floored != 0 {
        c.length := (c.length + floored * 8) % LENGTH_LIMIT;
        c.states := registers;
        ret := Success;
      }
    }

    /** The key pad, byte by byte. */
    method DerivedKeyPad(key: Key, padding: Byte)
      requires Valid()
      modifies keyPad
      ensures keyPad[..] == KeyPad(key, padding)
    {
      hide XorByte;
      var prePad := key + seq<Byte>(BLOCK - KEY_SIZE, i => 0);
      for i := 0 to BLOCK
        invariant forall k :: 0 <= k < i ==> keyPad[k] == PadByte(key, padding, k)
      {
        keyPad[i] := XorByte(prePad[i], padding);
      }
    }

    method GenerateHmacInit(c: ShaContext, input: seq<Byte>, key: Key, faults: nat -> bool) returns (ret: Answer, ghost hash: Hash)
      requires Valid()
      modifies c, this`registers, lastBlock, keyPad
      ensures Outcome(ret, c.View(), hash) == HmacInit(compress, key, old(c.View()), input, faults)
    {
      hide Called, KeyPad;
      DerivedKeyPad(key, INNER);
      ret, hash := GenerateSha(c, keyPad[..], InitSha, faults(0));
      if ret != Success { return; }
      if |input| != 0 {
        ret, hash := GenerateSha(c, input, ContributeSha, faults(1));
      }
    }

    method GenerateHmacContribute(c: ShaContext, first: seq<Byte>, second: seq<Byte>, faults: nat -> bool) returns (ret: Answer, ghost hash: Hash)
      requires Valid()
      modifies c, this`registers, lastBlock
      ensures Outcome(ret, c.View(), hash) == HmacContribute(compress, old(c.View()), first, second, faults)
    {
      hide Called;
      ret, hash := Success, INITIAL;
      if |first| != 0 {
        ret, hash := GenerateSha(c, first, ContributeSha, faults(0));
      }
      if ret != Success { return; }
      if |second| != 0 {
        ret, hash := GenerateSha(c, second, ContributeSha, faults(1));
      }
    }

    method GenerateHmacFinalize(c: ShaContext, first: seq<Byte>, second: seq<Byte>, key: Key, faults: nat -> bool) returns (ret: Answer, output: Hash)
      requires Valid()
      modifies c, this`registers, lastBlock, keyPad
      ensures Outcome(ret, c.View(), output) == HmacFinalize(compress, key, old(c.View()), first, second, faults)
    {
      hide Called, KeyPad;
      DerivedKeyPad(key, OUTER);
      ret, output := Success, INITIAL;
      if |first| != 0 {
        ret, output := GenerateSha(c, first, ContributeSha, faults(0));
      }
      if ret != Success { return; }
      var inner;
      ret, inner := GenerateSha(c, second, FinalizeSha, faults(1));
      output := inner;
      if ret != Success { return; }
      ret, output := GenerateSha(c, keyPad[..], InitSha, faults(2));
      if ret != Success { return; }
      ret, output := GenerateSha(c, HashBytes(inner), FinalizeSha, faults(3));
    }
  }

  lemma NoBlocks(f: Compression, h: Hash)
    ensures Fold(f, h, []) == h
  {
  }

  lemma OneBlock(f: Compression, h: Hash, b: Block)
    ensures Fold(f, h, b) == f(h, b)
  {
    assert b[..BLOCK] == b && b[BLOCK..] == [];
  }

  /** The buffer once the length is stored. */
  lemma LastBytes(s: seq<Byte>, rest: seq<Byte>, bits: nat, n: nat)
    requires |rest| < 64 && bits < LENGTH_LIMIT && |s| == 128 && n == if |rest| + 1 < 57 then 1 else 2
    requires s[..|rest|] == rest && s[|rest|] == 0x80 && forall i :: |rest| < i < n * 64 - 8 ==> s[i] == 0
    requires s[n * 64 - 8..n * 64 - 4] == Big32(bits / 0x1_0000_0000) && s[n * 64 - 4..n * 64] == Big32(bits % 0x1_0000_0000)
    ensures s[..n * 64] == LastBlocks(rest, bits)
    ensures ValueOf(s[n * 64 - 8..n * 64]) == bits
  {
    hide Big32, ValueOf;
    var i := n * 64;
    assert s[i - 8..i] == s[i - 8..i - 4] + s[i - 4..i];
    LengthBytes(bits);
    assert s[..i] == s[..|rest|] + [s[|rest|]] + s[|rest| + 1..i - 8] + s[i - 8..i];
    assert s[|rest| + 1..i - 8] == Zeros(i - 9 - |rest|);
  }
}
