/** Correcting NAND pages by the Hamming parity the flash controller computes. */
module NandEcc {

  const CHUNK := 512
  const CHUNKS := 4
  const ALL_ONES: bv32 := 0xFFFF_FFFF
  // The bits of an ECC word that carry parity.
  const USED_BITS: bv32 := 0xFF0F_FF0F

  type Chunk = s: seq<bv8> | |s| == 512 witness seq(512, _ => 0)

  datatype Status = EccOk | EccCorrected | EccUncorrectable

  // ---------------------------------------------------------------- the parity

  /** The address of bit b of byte x, each bit inverted where m has a one. */
  function Address(x: bv16, b: bv8, m: bv16): bv16 { ((x << 3) | (b as bv16)) ^ m }

  function IsSet(byte: bv8, b: bv8): bool
    requires b < 8
  {
    (byte >> b) & 1 == 1
  }

  function Xor(a: bv16, b: bv16): bv16 { a ^ b }

  function BitTerm(byte: bv8, x: bv16, b: bv8, m: bv16): bv16
    requires b < 8
  {
    if IsSet(byte, b) then Address(x, b, m) else 0
  }

  /** The exclusive or of the addresses of the ones among the first k bits of byte x. */
  function ByteParity(byte: bv8, x: bv16, k: bv8, m: bv16): bv16
    requires k <= 8
    decreases k
  {
    if k == 0 then 0 else Xor(ByteParity(byte, x, k - 1, m), BitTerm(byte, x, k - 1, m))
  }

  function Bit(on: bool, value: bv16): bv16 { if on then value else 0 }

  function NineBits(a: bool, b: bool, c: bool, d: bool, e: bool, f: bool, g: bool, h: bool, i: bool): bv16 {
    Bit(a, 1) | Bit(b, 2) | Bit(c, 4) | Bit(d, 8) | Bit(e, 16) | Bit(f, 32) | Bit(g, 64) | Bit(h, 128) | Bit(i, 256)
  }

  function Half(i: nat, k: nat): nat { if k == 0 then i else Half(i, k - 1) / 2 }

  predicate IsOdd(i: nat) { i % 2 == 1 }

  /** A byte number as a 16-bit word, and back. */
  function At(i: nat): bv16
    requires i < CHUNK
  {
    NineBits(IsOdd(Half(i, 0)), IsOdd(Half(i, 1)), IsOdd(Half(i, 2)), IsOdd(Half(i, 3)), IsOdd(Half(i, 4)),
             IsOdd(Half(i, 5)), IsOdd(Half(i, 6)), IsOdd(Half(i, 7)), IsOdd(Half(i, 8)))
  }

  function Digit(x: bv16, mask: bv16, value: nat): nat { if x & mask != 0 then value else 0 }

  function Index(x: bv16): (i: nat)
    ensures i < CHUNK
  {
    Digit(x, 1, 1) + Digit(x, 2, 2) + Digit(x, 4, 4) + Digit(x, 8, 8) + Digit(x, 16, 16) + Digit(x, 32, 32)
    + Digit(x, 64, 64) + Digit(x, 128, 128) + Digit(x, 256, 256)
  }

  /** The exclusive or of the addresses of the ones in the first n bytes. */
  function Parity(c: Chunk, n: nat, m: bv16): bv16
    requires n <= CHUNK
  {
    if n == 0 then 0 else Xor(Parity(c, n - 1, m), ByteParity(c[n - 1], At(n - 1), 8, m))
  }

  function OddParity(c: Chunk): bv16 { Parity(c, CHUNK, 0) }

  function EvenParity(c: Chunk): bv16 { Parity(c, CHUNK, 0xFFF) }

  function Pack(even: bv16, odd: bv16): bv32 {
    (((even & 0xFF) as bv32) << 24) | (((even & 0xF00) as bv32) << 8) | (((odd & 0xFF) as bv32) << 8) | (((odd >> 8) & 0xF) as bv32)
  }

  /** The ECC word of a chunk: four bytes, stored first to last. */
  function EccWord(c: Chunk): bv32 { Pack(EvenParity(c), OddParity(c)) }

  // ---------------------------------------------------------------- the decoder

  function EvenHalf(s: bv32): bv16 { ((s >> 24) as bv16) | (((s >> 8) & 0xF00) as bv16) }

  function OddHalf(s: bv32): bv16 { (((s << 8) & 0xF00) as bv16) | (((s >> 8) & 0xFF) as bv16) }

  function Flip(c: Chunk, i: nat, b: bv8): Chunk
    requires i < CHUNK && b < 8
  {
    c[i := c[i] ^ (1 << b)]
  }

  function HalvesXor(s: bv32): bv16 { Xor(EvenHalf(s), OddHalf(s)) }

  function ByteNumber(odd: bv16): bv16 { odd >> 3 }

  function BitNumber(odd: bv16): (b: bv8)
    ensures b < 8
  {
    (odd & 7) as bv8
  }

  predicate OneBit(s: bv32) { (s - 1) & s == 0 }

  function Xor32(a: bv32, b: bv32): bv32 { a ^ b }

  /** What becomes of one chunk, given the word stored for it and the syndrome. */
  function Repaired(c: Chunk, stored: bv32, s: bv32): (Chunk, Status) {
    if stored == ALL_ONES || s == 0 then (c, EccOk)
    else if OneBit(s) then (c, EccCorrected)
    else if HalvesXor(s) != 0xFFF then (c, EccUncorrectable)
    else (Flip(c, Index(ByteNumber(OddHalf(s))), BitNumber(OddHalf(s))), EccCorrected)
  }

  function Corrected(c: Chunk, stored: bv32, computed: bv32): (Chunk, Status) {
    Repaired(c, stored, Xor32(stored, computed))
  }

  /** Bit k of the odd half is bit k + 8 of the word, or bit k - 8 for the highest four; bit k of the
      even half is bit k + 24 or k + 8. */
  lemma HalvesLayout(s: bv32, k: bv16)
    requires k < 16
    ensures (OddHalf(s) >> k) & 1 == if k < 8 then ((s >> (k + 8)) & 1) as bv16 else if k < 12 then ((s >> (k - 8)) & 1) as bv16 else 0
    ensures (EvenHalf(s) >> k) & 1 == if k < 8 then ((s >> (k + 24)) & 1) as bv16 else if k < 12 then ((s >> (k + 8)) & 1) as bv16 else 0
  {
  }

  /** The lowest three bits of the odd half number the bit, the others the byte. */
  lemma OddNumbers(odd: bv16)
    ensures (ByteNumber(odd) << 3) | (BitNumber(odd) as bv16) == odd && BitNumber(odd) < 8
  {
  }

  /** Byte numbers in binary: each bit stands for its power of two. */
  lemma IndexPowers()
    ensures Index(0) == 0 && Index(1) == 1 && Index(2) == 2 && Index(4) == 4 && Index(8) == 8
    ensures Index(16) == 16 && Index(32) == 32 && Index(64) == 64 && Index(128) == 128 && Index(256) == 256
  {
  }

  lemma DigitAdds(x: bv16, y: bv16, mask: bv16, value: nat)
    requires x & y == 0 && mask & (mask - 1) == 0
    ensures Digit(x | y, mask, value) == Digit(x, mask, value) + Digit(y, mask, value)
  {
  }

  /** Numbers without a common bit add up. */
  lemma IndexAdds(x: bv16, y: bv16)
    requires x & y == 0
    ensures Index(x | y) == Index(x) + Index(y)
  {
    DigitAdds(x, y, 1, 1);
    DigitAdds(x, y, 2, 2);
    DigitAdds(x, y, 4, 4);
    DigitAdds(x, y, 8, 8);
    DigitAdds(x, y, 16, 16);
    DigitAdds(x, y, 32, 32);
    DigitAdds(x, y, 64, 64);
    DigitAdds(x, y, 128, 128);
    DigitAdds(x, y, 256, 256);
    hide Digit;
  }

  lemma FlipBit(byte: bv8, b: bv8, k: bv8)
    requires b < 8 && k < 8
    ensures IsSet(byte ^ (1 << b), k) == if k == b then !IsSet(byte, k) else IsSet(byte, k)
  {
  }

  lemma FlipTerm(byte: bv8, x: bv16, b: bv8, k: bv8, m: bv16)
    requires b < 8 && k < 8
    ensures BitTerm(byte ^ (1 << b), x, k, m) == if k == b then Xor(BitTerm(byte, x, k, m), Address(x, b, m)) else BitTerm(byte, x, k, m)
  {
    hide IsSet, Address;
    FlipBit(byte, b, k);
  }

  lemma XorShift(p: bv16, a: bv16, q: bv16)
    ensures Xor(Xor(p, a), q) == Xor(Xor(p, q), a) && Xor(p, Xor(q, a)) == Xor(Xor(p, q), a)
  {
    hide Xor;
    XorAssociates(p, q, a);
    XorAssociates(p, a, q);
    XorTurned(a, q);
  }

  lemma XorAssociates(p: bv16, a: bv16, q: bv16)
    ensures Xor(Xor(p, a), q) == Xor(p, Xor(a, q))
  {
  }

  lemma XorTurned(a: bv16, q: bv16)
    ensures Xor(a, q) == Xor(q, a)
  {
  }

  lemma {:induction false} FlipParityByte(byte: bv8, x: bv16, b: bv8, k: bv8, m: bv16)
    requires b < 8 && k <= 8
    ensures ByteParity(byte ^ (1 << b), x, k, m) == if b < k then Xor(ByteParity(byte, x, k, m), Address(x, b, m)) else ByteParity(byte, x, k, m)
    decreases k
  {
    hide BitTerm, Address, Xor;
    if k > 0 {
      FlipParityByte(byte, x, b, k - 1, m);
      FlipTerm(byte, x, b, k - 1, m);
      XorShift(ByteParity(byte, x, k - 1, m), Address(x, b, m), BitTerm(byte, x, k - 1, m));
    }
  }

  /** Flipping a bit changes the parity by its address. */
  lemma {:induction false} FlipParity(c: Chunk, n: nat, i: nat, b: bv8, m: bv16)
    requires n <= CHUNK && i < CHUNK && b < 8
    ensures Parity(Flip(c, i, b), n, m) == if i < n then Xor(Parity(c, n, m), Address(At(i), b, m)) else Parity(c, n, m)
    decreases n
  {
    hide ByteParity, Address, At, Xor;
    if n > 0 {
      FlipParity(c, n - 1, i, b, m);
      XorShift(Parity(c, n - 1, m), Address(At(i), b, m), ByteParity(c[n - 1], At(n - 1), 8, m));
      if i == n - 1 {
        FlipParityByte(c[i], At(i), b, 8, m);
        XorShift(Parity(c, n - 1, m), Address(At(i), b, m), ByteParity(c[i], At(i), 8, m));
      }
    }
  }

  // ---------------------------------------------------------------- words

  /** The word that changes when a parity does. */
  lemma PackXor(e: bv16, o: bv16, de: bv16, dd: bv16)
    ensures Pack(Xor(e, de), Xor(o, dd)) == Xor32(Pack(e, o), Pack(de, dd))
  {
  }

  /** The syndrome of one flipped bit. */
  function FlipWord(x: bv16, b: bv8): bv32 { Pack(Address(x, b, 0xFFF), Address(x, b, 0)) }

  lemma FlippedWord(c: Chunk, i: nat, b: bv8)
    requires i < CHUNK && b < 8
    ensures EccWord(Flip(c, i, b)) == Xor32(EccWord(c), FlipWord(At(i), b))
  {
    hide Parity, Flip, Address, At, Xor, Xor32, Pack;
    FlipParity(c, CHUNK, i, b, 0);
    FlipParity(c, CHUNK, i, b, 0xFFF);
    PackXor(EvenParity(c), OddParity(c), Address(At(i), b, 0xFFF), Address(At(i), b, 0));
  }

  /** The syndrome of a flipped bit is its address and the inverse of it. */
  lemma FlipSyndrome(x: bv16, b: bv8)
    requires x < 512 && b < 8
    ensures HalvesXor(FlipWord(x, b)) == 0xFFF
    ensures ByteNumber(OddHalf(FlipWord(x, b))) == x && BitNumber(OddHalf(FlipWord(x, b))) == b
  {
  }

  lemma TwoHalves(s: bv32)
    requires HalvesXor(s) == 0xFFF
    ensures s != 0 && !OneBit(s)
  {
  }

  lemma BitsOf(a: bool, b: bool, c: bool, d: bool, e: bool, f: bool, g: bool, h: bool, i: bool)
    ensures var x := NineBits(a, b, c, d, e, f, g, h, i);
            && x < 512
            && (x & 1 != 0 <==> a) && (x & 2 != 0 <==> b) && (x & 4 != 0 <==> c)
            && (x & 8 != 0 <==> d) && (x & 16 != 0 <==> e) && (x & 32 != 0 <==> f)
            && (x & 64 != 0 <==> g) && (x & 128 != 0 <==> h) && (x & 256 != 0 <==> i)
  {
  }

  function Weight(on: bool, value: nat): nat { if on then value else 0 }

  lemma IndexOfBits(a: bool, b: bool, c: bool, d: bool, e: bool, f: bool, g: bool, h: bool, i: bool)
    ensures NineBits(a, b, c, d, e, f, g, h, i) < 512
    ensures Index(NineBits(a, b, c, d, e, f, g, h, i)) ==
            Weight(a, 1) + Weight(b, 2) + Weight(c, 4) + Weight(d, 8) + Weight(e, 16)
            + Weight(f, 32) + Weight(g, 64) + Weight(h, 128) + Weight(i, 256)
  {
    hide NineBits;
    BitsOf(a, b, c, d, e, f, g, h, i);
  }

  function Power(k: nat): nat { if k == 0 then 1 else 2 * Power(k - 1) }

  /** The low k bits of a number, as a number. */
  function Weights(i: nat, k: nat): nat { if k == 0 then 0 else Weights(i, k - 1) + Weight(IsOdd(Half(i, k - 1)), Power(k - 1)) }

  lemma Halve(i: nat, k: nat)
    ensures Half(i, k) == 2 * Half(i, k + 1) + Weight(IsOdd(Half(i, k)), 1)
  {
  }

  lemma Scale(on: bool, n: nat)
    ensures Weight(on, n) == n * Weight(on, 1)
  {
  }

  lemma IndexOfAt(i: nat)
    requires i < CHUNK
    ensures At(i) < 512 && Index(At(i)) == i
  {
    hide NineBits, Index, Half, IsOdd, Weight;
    IndexOfBits(IsOdd(Half(i, 0)), IsOdd(Half(i, 1)), IsOdd(Half(i, 2)), IsOdd(Half(i, 3)), IsOdd(Half(i, 4)),
                IsOdd(Half(i, 5)), IsOdd(Half(i, 6)), IsOdd(Half(i, 7)), IsOdd(Half(i, 8)));
    EightHalves(i);
  }

  lemma EightHalves(i: nat)
    requires i < CHUNK
    ensures i == Weight(IsOdd(Half(i, 0)), 1) + Weight(IsOdd(Half(i, 1)), 2) + Weight(IsOdd(Half(i, 2)), 4)
                 + Weight(IsOdd(Half(i, 3)), 8) + Weight(IsOdd(Half(i, 4)), 16) + Weight(IsOdd(Half(i, 5)), 32)
                 + Weight(IsOdd(Half(i, 6)), 64) + Weight(IsOdd(Half(i, 7)), 128) + Weight(IsOdd(Half(i, 8)), 256)
  {
    hide Half, Weight, IsOdd, Power, Weights;
    Halves(i, 9);
    Powers();
    WeightAt(i, 0); WeightAt(i, 1); WeightAt(i, 2); WeightAt(i, 3); WeightAt(i, 4);
    WeightAt(i, 5); WeightAt(i, 6); WeightAt(i, 7); WeightAt(i, 8);
    NoWeights(i);
  }

  lemma WeightAt(i: nat, k: nat)
    ensures Weights(i, k + 1) == Weights(i, k) + Weight(IsOdd(Half(i, k)), Power(k))
  {
  }

  lemma NoWeights(i: nat)
    ensures Weights(i, 0) == 0
  {
  }

  lemma Powers()
    ensures Power(0) == 1 && Power(1) == 2 && Power(2) == 4 && Power(3) == 8 && Power(4) == 16
    ensures Power(5) == 32 && Power(6) == 64 && Power(7) == 128 && Power(8) == 256 && Power(9) == 512
  {
    assert Power(3) == 8;
    assert Power(6) == 64;
  }

  lemma {:induction false} Halves(i: nat, k: nat)
    ensures i == Weights(i, k) + Power(k) * Half(i, k)
    decreases k
  {
    hide Weight;
    if k > 0 {
      Halves(i, k - 1);
      Halve(i, k - 1);
      Scale(IsOdd(Half(i, k - 1)), Power(k - 1));
      Distribute(Power(k - 1), Half(i, k), Weight(IsOdd(Half(i, k - 1)), 1));
    }
  }

  lemma Distribute(p: nat, h: nat, w: nat)
    ensures p * (2 * h + w) == 2 * p * h + p * w
  {
  }

  lemma FlipTwice(c: Chunk, i: nat, b: bv8)
    requires i < CHUNK && b < 8
    ensures Flip(Flip(c, i, b), i, b) == c
  {
    var byte := c[i];
    assert (byte ^ (1 << b)) ^ (1 << b) == byte;
  }

  lemma Cancel(w: bv32, pad: bv32, d: bv32)
    ensures Xor32(Xor32(w, pad), Xor32(Xor32(w, d), pad)) == d
  {
    hide Xor32;
    XorSwap(w, d, pad);
    CancelStored(Xor32(w, pad), d);
  }

  lemma XorSwap(w: bv32, d: bv32, pad: bv32)
    ensures Xor32(Xor32(w, d), pad) == Xor32(Xor32(w, pad), d)
  {
    var l, r := w ^ d, w ^ pad;
    assert Xor32(l, pad) == l ^ pad && Xor32(r, d) == r ^ d;
    SameBits(w, d, pad, l, r);
  }

  lemma SameBits(w: bv32, d: bv32, pad: bv32, l: bv32, r: bv32)
    requires l == w ^ d && r == w ^ pad
    ensures l ^ pad == r ^ d
  {
  }

  lemma CancelStored(t: bv32, d: bv32)
    ensures Xor32(Xor32(t, d), t) == d == Xor32(t, Xor32(t, d))
  {
  }

  // ---------------------------------------------------------------- what the decoder does

  /** What is stored for a chunk: its word, and whatever constant the controller leaves in. */
  function Stored(c: Chunk, pad: bv32): bv32 { Xor32(EccWord(c), pad) }

  lemma SyndromeRepairs(c: Chunk, stored: bv32, x: bv16, b: bv8)
    requires x < 512 && b < 8 && stored != ALL_ONES
    ensures Repaired(c, stored, FlipWord(x, b)) == (Flip(c, Index(x), b), EccCorrected)
  {
    hide FlipWord, Address, Index, Flip, OneBit, HalvesXor, OddHalf, BitNumber, ByteNumber;
    FlipSyndrome(x, b);
    TwoHalves(FlipWord(x, b));
  }

  /** One flipped data bit is found and flipped back. */
  lemma DataBitRestored(c: Chunk, i: nat, b: bv8, pad: bv32)
    requires i < CHUNK && b < 8 && Stored(c, pad) != ALL_ONES
    ensures Corrected(Flip(c, i, b), Stored(c, pad), Stored(Flip(c, i, b), pad)) == (c, EccCorrected)
  {
    hide EccWord, FlipWord, At, Index, Flip, Repaired, Xor32;
    FlippedWord(c, i, b);
    Cancel(EccWord(c), pad, FlipWord(At(i), b));
    IndexOfAt(i);
    SyndromeRepairs(Flip(c, i, b), Stored(c, pad), At(i), b);
    FlipTwice(c, i, b);
  }

  function EccBit(k: bv8): bv32
    requires k < 32
  {
    1 << k
  }

  lemma OneBitAt(k: bv8)
    requires k < 32
    ensures EccBit(k) != 0 && OneBit(EccBit(k))
  {
  }

  /** One flipped bit of the stored word leaves the data alone. */
  lemma EccBitHarmless(c: Chunk, k: bv8, pad: bv32)
    requires k < 32 && Xor32(Stored(c, pad), EccBit(k)) != ALL_ONES
    ensures Corrected(c, Xor32(Stored(c, pad), EccBit(k)), Stored(c, pad)) == (c, EccCorrected)
  {
    hide EccWord, OneBit, EccBit, Xor32, EvenHalf, OddHalf;
    CancelStored(Stored(c, pad), EccBit(k));
    OneBitAt(k);
  }

  lemma TwoFlips(x: bv16, b: bv8, y: bv16, d: bv8)
    requires x < 512 && y < 512 && b < 8 && d < 8 && !(x == y && b == d)
    ensures var s := Xor32(FlipWord(x, b), FlipWord(y, d)); s != 0 && !OneBit(s) && HalvesXor(s) != 0xFFF
  {
    hide Address, Pack, Xor32, OneBit, HalvesXor, Xor;
    DifferentAddresses(x, b, y, d);
    PackXor(Address(x, b, 0xFFF), Address(x, b, 0), Address(y, d, 0xFFF), Address(y, d, 0));
    EqualHalves(Xor(Address(x, b, 0), Address(y, d, 0)));
  }

  lemma DifferentAddresses(x: bv16, b: bv8, y: bv16, d: bv8)
    requires x < 512 && y < 512 && b < 8 && d < 8 && !(x == y && b == d)
    ensures var a := Xor(Address(x, b, 0), Address(y, d, 0));
            0 != a < 0x1000 && a == Xor(Address(x, b, 0xFFF), Address(y, d, 0xFFF))
  {
  }

  lemma EqualHalves(a: bv16)
    requires a != 0 && a < 0x1000
    ensures var s := Pack(a, a); s != 0 && !OneBit(s) && HalvesXor(s) == 0
  {
  }

  lemma AtDistinct(i: nat, j: nat)
    requires i < CHUNK && j < CHUNK && i != j
    ensures At(i) != At(j)
  {
    hide At;
    IndexOfAt(i);
    IndexOfAt(j);
  }

  lemma CancelTwo(w: bv32, pad: bv32, d: bv32, e: bv32)
    ensures Xor32(Xor32(w, pad), Xor32(Xor32(Xor32(w, d), e), pad)) == Xor32(d, e)
  {
    hide Xor32;
    XorAssoc(w, d, e);
    Cancel(w, pad, Xor32(d, e));
  }

  lemma XorAssoc(w: bv32, d: bv32, e: bv32)
    ensures Xor32(Xor32(w, d), e) == Xor32(w, Xor32(d, e))
  {
    var l, r := w ^ d, d ^ e;
    assert Xor32(l, e) == l ^ e && Xor32(w, r) == w ^ r;
    SameAssoc(w, d, e, l, r);
  }

  lemma SameAssoc(w: bv32, d: bv32, e: bv32, l: bv32, r: bv32)
    requires l == w ^ d && r == d ^ e
    ensures l ^ e == w ^ r
  {
  }

  /** Two flipped data bits are reported and nothing is changed. */
  lemma TwoDataBits(c: Chunk, i: nat, b: bv8, j: nat, d: bv8, pad: bv32)
    requires i < CHUNK && j < CHUNK && b < 8 && d < 8 && !(i == j && b == d) && Stored(c, pad) != ALL_ONES
    ensures var r := Flip(Flip(c, i, b), j, d);
            Corrected(r, Stored(c, pad), Stored(r, pad)) == (r, EccUncorrectable)
  {
    hide EccWord, FlipWord, At, Flip, Xor32, OneBit, HalvesXor;
    FlippedWord(c, i, b);
    FlippedWord(Flip(c, i, b), j, d);
    CancelTwo(EccWord(c), pad, FlipWord(At(i), b), FlipWord(At(j), d));
    IndexOfAt(i);
    IndexOfAt(j);
    if i != j { AtDistinct(i, j); }
    TwoFlips(At(i), b, At(j), d);
  }

  lemma TwoEcc(k: bv8, l: bv8)
    requires k < 32 && l < 32 && k != l
    ensures var s := Xor32(EccBit(k), EccBit(l)); s != 0 && !OneBit(s) && HalvesXor(s) != 0xFFF
  {
  }

  /** Two flipped bits of the stored word are reported and the data left alone. */
  lemma TwoEccBits(c: Chunk, k: bv8, l: bv8, pad: bv32)
    requires k < 32 && l < 32 && k != l && Xor32(Xor32(Stored(c, pad), EccBit(k)), EccBit(l)) != ALL_ONES
    ensures Corrected(c, Xor32(Xor32(Stored(c, pad), EccBit(k)), EccBit(l)), Stored(c, pad)) == (c, EccUncorrectable)
  {
    hide Stored, OneBit, EccBit, Xor32, HalvesXor;
    XorAssoc(Stored(c, pad), EccBit(k), EccBit(l));
    CancelStored(Stored(c, pad), Xor32(EccBit(k), EccBit(l)));
    TwoEcc(k, l);
  }

  lemma OddLinear(s: bv32, t: bv32)
    ensures OddHalf(Xor32(s, t)) == Xor(OddHalf(s), OddHalf(t))
  {
  }

  lemma EvenLinear(s: bv32, t: bv32)
    ensures EvenHalf(Xor32(s, t)) == Xor(EvenHalf(s), EvenHalf(t))
  {
  }

  lemma XorFour(a: bv16, b: bv16, c: bv16, d: bv16)
    ensures Xor(Xor(a, b), Xor(c, d)) == Xor(Xor(a, c), Xor(b, d))
  {
    hide Xor;
    XorShift(Xor(a, b), d, c);
    XorShift(a, b, c);
    XorShift(Xor(a, c), d, b);
  }

  lemma HalvesLinear(s: bv32, t: bv32)
    ensures HalvesXor(Xor32(s, t)) == Xor(HalvesXor(s), HalvesXor(t))
    ensures OddHalf(Xor32(s, t)) == Xor(OddHalf(s), OddHalf(t))
  {
    hide OddHalf, EvenHalf, Xor, Xor32;
    OddLinear(s, t);
    EvenLinear(s, t);
    XorFour(EvenHalf(s), EvenHalf(t), OddHalf(s), OddHalf(t));
  }

  predicate TwoOnes(h: bv16) { h != 0 && (h - 1) & h != 0 }

  lemma TwoOnesStay(s: bv32)
    requires TwoOnes(HalvesXor(s))
    ensures s != 0 && !OneBit(s)
  {
  }

  lemma EccBitHalves(k: bv8)
    requires k < 32
    ensures var h := Xor(HalvesXor(EccBit(k)), 0xFFF);
            && TwoOnes(h)
            && if EccBit(k) & USED_BITS != 0 then h != 0xFFF else h == 0xFFF && OddHalf(EccBit(k)) == 0
  {
  }

  lemma XorZero(a: bv16)
    ensures Xor(0, a) == a
  {
  }

  lemma DataAndEcc(x: bv16, b: bv8, k: bv8)
    requires x < 512 && b < 8 && k < 32
    ensures var s := Xor32(EccBit(k), FlipWord(x, b));
            && s != 0 && !OneBit(s)
            && if EccBit(k) & USED_BITS != 0 then HalvesXor(s) != 0xFFF
               else HalvesXor(s) == 0xFFF && OddHalf(s) == OddHalf(FlipWord(x, b))
  {
    hide Xor32, Xor, FlipWord, EccBit, OneBit, HalvesXor, OddHalf, TwoOnes;
    FlipSyndrome(x, b);
    HalvesLinear(EccBit(k), FlipWord(x, b));
    EccBitHalves(k);
    TwoOnesStay(Xor32(EccBit(k), FlipWord(x, b)));
    XorZero(OddHalf(FlipWord(x, b)));
  }

  lemma CancelMixed(w: bv32, pad: bv32, k: bv32, d: bv32)
    ensures Xor32(Xor32(Xor32(w, pad), k), Xor32(Xor32(w, d), pad)) == Xor32(k, d)
  {
    hide Xor32;
    XorSwap(w, d, pad);
    XorAssoc(Xor32(w, pad), k, Xor32(Xor32(w, pad), d));
    XorSwap(Xor32(w, pad), k, Xor32(Xor32(w, pad), d));
    CancelStored(Xor32(w, pad), d);
    XorCommutes(k, d);
  }

  lemma XorCommutes(a: bv32, b: bv32)
    ensures Xor32(a, b) == Xor32(b, a)
  {
  }

  /** A flipped data bit and a flipped bit of the stored word are reported, unless that bit
      carries no parity: then the data bit is restored. */
  lemma DataAndEccBit(c: Chunk, i: nat, b: bv8, k: bv8, pad: bv32)
    requires i < CHUNK && b < 8 && k < 32 && Xor32(Stored(c, pad), EccBit(k)) != ALL_ONES
    ensures var r := Flip(c, i, b);
            Corrected(r, Xor32(Stored(c, pad), EccBit(k)), Stored(r, pad)) ==
            if EccBit(k) & USED_BITS != 0 then (r, EccUncorrectable) else (c, EccCorrected)
  {
    hide EccWord, FlipWord, At, Flip, Xor32, OneBit, HalvesXor, EccBit, OddHalf, ByteNumber, BitNumber, Index;
    FlippedWord(c, i, b);
    CancelMixed(EccWord(c), pad, EccBit(k), FlipWord(At(i), b));
    IndexOfAt(i);
    DataAndEcc(At(i), b, k);
    FlipSyndrome(At(i), b);
    FlipTwice(c, i, b);
  }

  /** Without errors nothing happens, and neither if the stored word is all ones. */
  lemma NothingToDo(c: Chunk, r: Chunk, pad: bv32)
    ensures Corrected(c, Stored(c, pad), Stored(c, pad)) == (c, EccOk)
    ensures Corrected(r, ALL_ONES, Stored(r, pad)) == (r, EccOk)
  {
    hide EccWord;
  }

  // ---------------------------------------------------------------- a page

  datatype PageStatus = PageOk | PageCorrected | PageUncorrectable

  function ChunkAt(data: seq<bv8>, i: nat): Chunk
    requires (i + 1) * CHUNK <= |data|
  {
    data[i * CHUNK..(i + 1) * CHUNK]
  }

  /** Correct one chunk of a page in place. */
  method CorrectChunk(data: array<bv8>, i: nat, stored: bv32, computed: bv32) returns (status: Status)
    requires data.Length == CHUNKS * CHUNK && i < CHUNKS
    modifies data
    ensures (ChunkAt(data[..], i), status) == Corrected(ChunkAt(old(data[..]), i), stored, computed)
    ensures forall j :: 0 <= j < CHUNKS && j != i ==> ChunkAt(data[..], j) == ChunkAt(old(data[..]), j)
  {
    hide OneBit, HalvesXor, OddHalf, Index, BitNumber, ByteNumber, Xor32;
    ghost var was := data[..];
    var dp := i * CHUNK;
    var syndrome := Xor32(stored, computed);
    if stored == ALL_ONES || syndrome == 0 { return EccOk; }
    if OneBit(syndrome) { return EccCorrected; }
    if HalvesXor(syndrome) != 0xFFF { return EccUncorrectable; }
    var odd := OddHalf(syndrome);
    var o := dp + Index(ByteNumber(odd));
    data[o] := data[o] ^ (1 << BitNumber(odd));
    OneByte(was, data[..], i, Index(ByteNumber(odd)), BitNumber(odd));
    return EccCorrected;
  }

  /** Correct the four chunks of a page in place. */
  method NandCorrect(data: array<bv8>, stored: seq<bv32>, computed: seq<bv32>) returns (ret: PageStatus, ghost rs: seq<Status>)
    requires data.Length == CHUNKS * CHUNK && |stored| == |computed| == CHUNKS
    modifies data
    ensures |rs| == 4
    ensures ret == if exists i :: 0 <= i < 4 && rs[i] == EccUncorrectable then PageUncorrectable
                   else if exists i :: 0 <= i < 4 && rs[i] == EccCorrected then PageCorrected
                   else PageOk
    ensures forall i :: 0 <= i < CHUNKS ==>
              (ChunkAt(data[..], i), rs[i]) == Corrected(ChunkAt(old(data[..]), i), stored[i], computed[i])
  {
    hide Corrected;
    var uncorrectable, corrected := 0, 0;
    rs := [];
    ghost var was := data[..];
    for i := 0 to CHUNKS
      invariant |rs| == i && 0 <= uncorrectable && 0 <= corrected
      invariant uncorrectable > 0 <==> EccUncorrectable in rs
      invariant corrected > 0 <==> EccCorrected in rs
      invariant forall k :: 0 <= k < i ==>
                  (ChunkAt(data[..], k), rs[k]) == Corrected(ChunkAt(was, k), stored[k], computed[k])
      invariant forall k :: i <= k < CHUNKS ==> ChunkAt(data[..], k) == ChunkAt(was, k)
    {
      var status := CorrectChunk(data, i, stored[i], computed[i]);
      if status.EccUncorrectable? { uncorrectable := uncorrectable + 1; }
      if status.EccCorrected? { corrected := corrected + 1; }
      rs := rs + [status];
    }
    ret := if uncorrectable > 0 then PageUncorrectable else if corrected > 0 then PageCorrected else PageOk;
  }

  lemma OneByte(was: seq<bv8>, now: seq<bv8>, i: nat, k: nat, b: bv8)
    requires |was| == CHUNKS * CHUNK && i < CHUNKS && k < CHUNK && b < 8
    requires now == was[i * CHUNK + k := was[i * CHUNK + k] ^ (1 << b)]
    ensures ChunkAt(now, i) == Flip(ChunkAt(was, i), k, b)
    ensures forall j :: 0 <= j < CHUNKS && j != i ==> ChunkAt(now, j) == ChunkAt(was, j)
  {
  }
}
