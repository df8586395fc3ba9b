/** What the digests are by FIPS 180-4 and RFC 2104, told by bytes, bits and numbers. */
module ShaLaws {
  import opened Sha

  // ---------------------------------------------------------------- numbers as bytes

  /** The number that bytes stand for, highest first. */
  function ValueOf(s: seq<Byte>): nat {
    if s == [] then 0 else 256 * ValueOf(s[..|s| - 1]) + s[|s| - 1]
  }

  lemma FourBytes(s: seq<Byte>)
    requires |s| == 4
    ensures ValueOf(s) == 0x100_0000 * (s[0] as int) + 0x1_0000 * (s[1] as int) + 0x100 * (s[2] as int) + s[3]
  {
    assert ValueOf(s[..1]) == s[0] by { assert s[..1][..0] == []; }
    assert ValueOf(s[..2]) == 256 * ValueOf(s[..1]) + s[1] by { assert s[..2][..1] == s[..1]; }
    assert ValueOf(s[..3]) == 256 * ValueOf(s[..2]) + s[2] by { assert s[..3][..2] == s[..2]; }
  }

  lemma WordBytes(x: Word)
    ensures |Big32(x)| == 4 && ValueOf(Big32(x)) == x
  {
    var a, b := x / 0x100, x / 0x1_0000;
    assert b == a / 0x100 && x / 0x100_0000 == b / 0x100;
    assert x == 0x100 * a + x % 0x100;
    assert a == 0x100 * b + a % 0x100;
    assert b == 0x100 * (b / 0x100) + b % 0x100;
    FourBytes(Big32(x));
    hide ValueOf;
  }

  lemma {:induction false} ValueAppend(a: seq<Byte>, b: seq<Byte>)
    requires |b| <= 4
    ensures ValueOf(a + b) == ValueOf(a) * (if |b| == 0 then 1 else if |b| == 1 then 0x100 else if |b| == 2 then 0x1_0000
                                            else if |b| == 3 then 0x100_0000 else 0x1_0000_0000) + ValueOf(b)
  {
    if b == [] {
      assert a + b == a;
    } else {
      var front := b[..|b| - 1];
      assert (a + b)[..|a + b| - 1] == a + front;
      ValueAppend(a, front);
    }
  }

  lemma LengthBytes(x: nat)
    requires x < 0x1_0000_0000_0000_0000
    ensures |Big64(x)| == 8 && ValueOf(Big64(x)) == x
  {
    var high, low := x / 0x1_0000_0000, x % 0x1_0000_0000;
    ValueAppend(Big32(high), Big32(low));
    WordBytes(high);
    WordBytes(low);
    hide Big32;
  }

  lemma {:induction false} SameValue(a: seq<Byte>, b: seq<Byte>)
    requires |a| == |b| && ValueOf(a) == ValueOf(b)
    ensures a == b
  {
    if a != [] {
      var n := |a| - 1;
      assert a[n] == ValueOf(a) % 256 && b[n] == ValueOf(b) % 256;
      SameValue(a[..n], b[..n]);
      assert a == a[..n] + [a[n]] && b == b[..n] + [b[n]];
    }
  }

  // ---------------------------------------------------------------- the digest

  /** p is the message m padded as section 5.1.1 of FIPS 180-4 asks: the message, a one bit, the
      fewest zeros, and the length in bits in the last eight bytes. */
  ghost predicate Padded(p: seq<Byte>, m: seq<Byte>) {
    && |m| + 9 <= |p| < |m| + 9 + 64 && |p| % 64 == 0
    && p[..|m|] == m && p[|m|] == 0x80
    && (forall i :: |m| < i < |p| - 8 ==> p[i] == 0)
    && ValueOf(p[|p| - 8..]) == (8 * |m|) % 0x1_0000_0000_0000_0000
  }

  lemma PaddingPads(m: seq<Byte>)
    ensures Padded(m + Padding(|m|), m)
  {
    var p, bits := m + Padding(|m|), (|m| * 8) % 0x1_0000_0000_0000_0000;
    LengthBytes(bits);
    hide Big64;
    assert p[|p| - 8..] == Big64(bits);
  }

  lemma PaddedOnce(p: seq<Byte>, q: seq<Byte>, m: seq<Byte>)
    requires Padded(p, m) && Padded(q, m)
    ensures p == q
  {
    SameLength(|p|, |q|, |m| + 9);
    SameValue(p[|p| - 8..], q[|q| - 8..]);
    forall i | 0 <= i < |p|
      ensures p[i] == q[i]
    {
      if i < |m| {
        assert p[..|m|][i] == m[i] && q[..|m|][i] == m[i];
      } else if i >= |p| - 8 {
        assert p[|p| - 8..][i - (|p| - 8)] == p[i] && q[|q| - 8..][i - (|p| - 8)] == q[i];
      }
    }
  }

  lemma SameLength(a: nat, b: nat, n: nat)
    requires a % 64 == 0 && b % 64 == 0 && n <= a < n + 64 && n <= b < n + 64
    ensures a == b
  {
  }

  /** The hash values of section 6.1.2 of FIPS 180-4, one block after the other. */
  ghost predicate Hashes(f: Compression, p: seq<Byte>, hs: seq<Hash>) {
    && |p| == 64 * (|hs| - 1)
    && hs[0] == [0x67452301, 0xEFCDAB89, 0x98BADCFE, 0x10325476, 0xC3D2E1F0]
    && forall i :: 0 <= i < |hs| - 1 ==> hs[i + 1] == f(hs[i], p[64 * i..64 * i + 64])
  }

  /** d is the digest of m: the last hash value of the padded message. */
  ghost predicate IsDigest(f: Compression, m: seq<Byte>, d: Hash) {
    exists p, hs :: Padded(p, m) && Hashes(f, p, hs) && d == hs[|hs| - 1]
  }

  lemma {:induction false} FoldsTo(f: Compression, p: seq<Byte>, hs: seq<Hash>, n: nat)
    requires Hashes(f, p, hs) && n < |hs|
    ensures Fold(f, INITIAL, p[..64 * n]) == hs[n]
  {
    if n > 0 {
      FoldsTo(f, p, hs, n - 1);
      var a, b := p[..64 * (n - 1)], p[64 * (n - 1)..64 * (n - 1) + 64];
      assert p[..64 * n] == a + b;
      FoldAppend(f, INITIAL, a, b);
      OneFold(f, hs[n - 1], b);
      assert hs[(n - 1) + 1] == f(hs[n - 1], b);
      hide Fold;
    }
  }

  lemma OneFold(f: Compression, h: Hash, b: Block)
    ensures Fold(f, h, b) == f(h, b)
  {
    assert b[..64] == b && b[64..] == [];
  }

  /** The hash values of the first n blocks. */
  function HashList(f: Compression, p: seq<Byte>, n: nat): (hs: seq<Hash>)
    requires 64 * n <= |p|
    ensures |hs| == n + 1
  {
    if n == 0 then [INITIAL]
    else
      var before := HashList(f, p, n - 1);
      before + [f(before[n - 1], p[64 * (n - 1)..64 * (n - 1) + 64])]
  }

  lemma {:induction false} HashListHashes(f: Compression, p: seq<Byte>, n: nat)
    requires 64 * n <= |p|
    ensures Hashes(f, p[..64 * n], HashList(f, p, n))
  {
    if n > 0 {
      HashListHashes(f, p, n - 1);
      var hs, before := HashList(f, p, n), HashList(f, p, n - 1);
      forall i | 0 <= i < n
        ensures hs[i + 1] == f(hs[i], p[64 * i..64 * i + 64]) && p[..64 * n][64 * i..64 * i + 64] == p[64 * i..64 * i + 64]
      {
        if i < n - 1 { assert p[..64 * (n - 1)][64 * i..64 * i + 64] == p[64 * i..64 * i + 64]; }
      }
    }
  }

  /** Every message has one digest, and it is the one the other laws are about. */
  lemma DigestIs(f: Compression, m: seq<Byte>, d: Hash)
    ensures IsDigest(f, m, d) <==> d == Digest(f, m)
  {
    hide Fold, Padding, Padded, HashList;
    var p := m + Padding(|m|);
    PaddingPads(m);
    var n := |p| / 64;
    var hs := HashList(f, p, n);
    assert p[..64 * n] == p;
    HashListHashes(f, p, n);
    FoldsTo(f, p, hs, n);
    if IsDigest(f, m, d) {
      var q, gs :| Padded(q, m) && Hashes(f, q, gs) && d == gs[|gs| - 1];
      PaddedOnce(p, q, m);
      FoldsTo(f, p, gs, |gs| - 1);
    }
  }

  // ---------------------------------------------------------------- HMAC

  function BitOf(x: nat, k: nat): nat { if k == 0 then x % 2 else BitOf(x / 2, k - 1) }

  lemma {:induction false} XorBit(a: nat, b: nat, n: nat, k: nat)
    requires k < n
    ensures BitOf(XorBits(a, b, n), k) == (BitOf(a, k) + BitOf(b, k)) % 2
  {
    LowestBit((a + b) % 2, XorBits(a / 2, b / 2, n - 1));
    if k > 0 {
      XorBit(a / 2, b / 2, n - 1, k - 1);
    } else {
      LowestBits(a, b);
    }
  }

  lemma LowestBit(d: nat, q: nat)
    requires d < 2
    ensures (d + 2 * q) % 2 == d && (d + 2 * q) / 2 == q
  {
  }

  lemma LowestBits(a: nat, b: nat)
    ensures (a + b) % 2 == (a % 2 + b % 2) % 2
  {
  }

  /** A block is the key, filled up with zeros, with these bits of every byte turned. */
  ghost predicate Turned(pad: Block, key: Key, bits: set<nat>) {
    forall i, k :: 0 <= i < 64 && 0 <= k < 8 ==> (BitOf(pad[i], k) != BitOf(if i < 20 then key[i] else 0, k) <==> k in bits)
  }

  lemma {:induction false} SameBits(a: nat, b: nat, n: nat)
    requires a < PowerOfTwo(n) && b < PowerOfTwo(n) && forall k :: 0 <= k < n ==> BitOf(a, k) == BitOf(b, k)
    ensures a == b
  {
    if n > 0 {
      assert BitOf(a, 0) == BitOf(b, 0);
      forall k | 0 <= k < n - 1
        ensures BitOf(a / 2, k) == BitOf(b / 2, k)
      {
        assert BitOf(a, k + 1) == BitOf(b, k + 1);
      }
      SameBits(a / 2, b / 2, n - 1);
    }
  }

  /** 0x36 is bits 1, 2, 4 and 5, and 0x5C is bits 2, 3, 4 and 6. */
  lemma PadBits(k: nat)
    requires k < 8
    ensures BitOf(0x36, k) == 1 <==> k in {1, 2, 4, 5}
    ensures BitOf(0x5C, k) == 1 <==> k in {2, 3, 4, 6}
  {
    assert BitOf(0x36, k) == if k < 2 then (if k == 0 then 0 else 1) else BitOf(0xD, k - 2);
    assert BitOf(0x5C, k) == if k < 2 then 0 else BitOf(0x17, k - 2);
  }

  /** The blocks hashed first are the key with the bits of 0x36 or 0x5C turned, and only they. */
  lemma KeyPadIs(key: Key, pad: Block)
    ensures Turned(pad, key, {1, 2, 4, 5}) <==> pad == KeyPad(key, 0x36)
    ensures Turned(pad, key, {2, 3, 4, 6}) <==> pad == KeyPad(key, 0x5C)
  {
    KeyPadTurns(key, pad, 0x36, {1, 2, 4, 5});
    KeyPadTurns(key, pad, 0x5C, {2, 3, 4, 6});
    forall k | 0 <= k < 8
      ensures BitOf(0x36, k) == 1 <==> k in {1, 2, 4, 5}
      ensures BitOf(0x5C, k) == 1 <==> k in {2, 3, 4, 6}
    {
      PadBits(k);
    }
  }

  lemma KeyPadTurns(key: Key, pad: Block, x: Byte, bits: set<nat>)
    ensures (forall k :: 0 <= k < 8 ==> (BitOf(x, k) == 1 <==> k in bits)) ==> (Turned(pad, key, bits) <==> pad == KeyPad(key, x))
  {
    if forall k :: 0 <= k < 8 ==> (BitOf(x, k) == 1 <==> k in bits) {
      forall i, k | 0 <= i < 64 && 0 <= k < 8
        ensures BitOf(KeyPad(key, x)[i], k) != BitOf(if i < 20 then key[i] else 0, k) <==> k in bits
      {
        TurnedBit(if i < 20 then key[i] else 0, x, k);
      }
      if Turned(pad, key, bits) {
        forall i | 0 <= i < 64
          ensures pad[i] == KeyPad(key, x)[i]
        {
          forall k | 0 <= k < 8
            ensures BitOf(pad[i], k) == BitOf(KeyPad(key, x)[i], k)
          {
            OneOfTwo(pad[i], k);
            TurnedBit(if i < 20 then key[i] else 0, x, k);
          }
          SameByte(pad[i], KeyPad(key, x)[i]);
        }
      }
    }
  }

  lemma {:induction false} OneOfTwo(x: nat, k: nat)
    ensures BitOf(x, k) == 0 || BitOf(x, k) == 1
  {
    if k > 0 { OneOfTwo(x / 2, k - 1); }
  }

  lemma TurnedBit(a: Byte, x: Byte, k: nat)
    requires k < 8
    ensures BitOf(XorByte(a, x), k) != BitOf(a, k) <==> BitOf(x, k) == 1
    ensures BitOf(XorByte(a, x), k) in {0, 1} && BitOf(a, k) in {0, 1}
  {
    XorBit(a, x, 8, k);
    OneOfTwo(a, k);
    OneOfTwo(x, k);
  }

  lemma SameByte(a: Byte, b: Byte)
    requires forall k :: 0 <= k < 8 ==> BitOf(a, k) == BitOf(b, k)
    ensures a == b
  {
    assert PowerOfTwo(4) == 16;
    assert PowerOfTwo(8) == 256;
    SameBits(a, b, 8);
  }

  /** The bytes of a digest: each word in four bytes, highest first. */
  ghost predicate Serialized(bytes: seq<Byte>, h: Hash) {
    |bytes| == 20 && forall j :: 0 <= j < 5 ==> ValueOf(bytes[4 * j..4 * j + 4]) == h[j]
  }

  lemma FiveWords(h: Hash, j: nat)
    requires j < 5
    ensures HashBytes(h)[4 * j..4 * j + 4] == Big32(h[j])
  {
    hide Big32;
    assert j in {0, 1, 2, 3, 4};
  }

  lemma SerializedIs(bytes: seq<Byte>, h: Hash)
    ensures Serialized(bytes, h) <==> bytes == HashBytes(h)
  {
    hide ValueOf, Big32;
    var s := HashBytes(h);
    forall j | 0 <= j < 5
      ensures s[4 * j..4 * j + 4] == Big32(h[j]) && ValueOf(Big32(h[j])) == h[j]
    {
      WordBytes(h[j]);
      FiveWords(h, j);
    }
    if Serialized(bytes, h) {
      forall j | 0 <= j < 5
        ensures bytes[4 * j..4 * j + 4] == s[4 * j..4 * j + 4]
      {
        SameValue(bytes[4 * j..4 * j + 4], s[4 * j..4 * j + 4]);
      }
      forall i | 0 <= i < 20
        ensures bytes[i] == s[i]
      {
        var j := i / 4;
        assert bytes[4 * j..4 * j + 4][i - 4 * j] == bytes[i] && s[4 * j..4 * j + 4][i - 4 * j] == s[i];
      }
    }
  }

  /** d is the HMAC of m under key by section 2 of RFC 2104. */
  ghost predicate IsHmac(f: Compression, key: Key, m: seq<Byte>, d: Hash) {
    exists ipad: Block, opad: Block, inner, bytes ::
      && Turned(ipad, key, {1, 2, 4, 5}) && IsDigest(f, ipad + m, inner)
      && Turned(opad, key, {2, 3, 4, 6}) && Serialized(bytes, inner) && IsDigest(f, opad + bytes, d)
  }

  /** Every message has one HMAC under a key, and it is the one the other laws are about. */
  lemma HmacIs(f: Compression, key: Key, m: seq<Byte>, d: Hash)
    ensures IsHmac(f, key, m, d) <==> d == Hmac(f, key, m)
  {
    hide Digest, IsDigest, Serialized, HashBytes, KeyPad, Turned;
    var ipad, opad := KeyPad(key, INNER), KeyPad(key, OUTER);
    var inner := Digest(f, ipad + m);
    var bytes := HashBytes(inner);
    KeyPadIs(key, ipad);
    KeyPadIs(key, opad);
    DigestIs(f, ipad + m, inner);
    SerializedIs(bytes, inner);
    DigestIs(f, opad + bytes, d);
    if IsHmac(f, key, m, d) {
      var i: Block, o: Block, h, b :| Turned(i, key, {1, 2, 4, 5}) && IsDigest(f, i + m, h)
        && Turned(o, key, {2, 3, 4, 6}) && Serialized(b, h) && IsDigest(f, o + b, d);
      KeyPadIs(key, i);
      KeyPadIs(key, o);
      DigestIs(f, i + m, h);
      SerializedIs(b, h);
    }
  }

  // ---------------------------------------------------------------- the answers of one call

  /** What a call answers, by the size of its input alone. */
  lemma AnswerIs(f: Compression, c: Context, input: seq<Byte>, command: Command, fails: bool)
    ensures Called(f, c, input, command, fails).ret
            == if |input| >= 65600 || (|input| >= 64 && |input| % 64 != 0 && command != FinalizeSha) then InvalidSize
               else if fails && |input| >= 64 then NoAccess
               else if command == ContributeSha && |input| < 64 then Invalid
               else Success
  {
    hide Fold, LastBlocks;
    var n := |input|;
    assert n / 64 >= 1025 <==> n >= 65600;
    assert n / 64 == 0 <==> n < 64;
  }
}
