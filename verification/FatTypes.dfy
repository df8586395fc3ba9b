/** Bytes, sectors and the fixed geometry of a mounted FAT volume. */
module FatTypes {

  type Byte = x: int | 0 <= x < 256

  const SECTOR_SIZE := 512

  type Sector = s: seq<Byte> | |s| == 512 witness seq(512, _ => 0)

  /** s with the given bytes put at position i. */
  function Overwrite(s: seq<Byte>, i: nat, bytes: seq<Byte>): (r: seq<Byte>)
    requires i + |bytes| <= |s|
    ensures |r| == |s|
    ensures forall j :: 0 <= j < |s| ==> r[j] == if i <= j < i + |bytes| then bytes[j - i] else s[j]
  {
    s[..i] + bytes + s[i + |bytes|..]
  }

  const DWORD_LIMIT := 0x1_0000_0000

  /** The i-th whole sector of a buffer. */
  function Chunk(buf: seq<Byte>, i: nat): Sector
    requires (i + 1) * SECTOR_SIZE <= |buf|
  {
    buf[i * SECTOR_SIZE..(i + 1) * SECTOR_SIZE]
  }

  type Dword = x: int | 0 <= x < 0x1_0000_0000

  // What `free_clust` holds when the number of free clusters is unknown.
  const FREE_UNKNOWN := 0xFFFF_FFFF

  datatype FatType = Fat12 | Fat16 | Fat32

  datatype FResult = FrOk | FrIntErr | FrDenied | FrInvalidObject | FrNoFile

  /** The fields of the volume object that mounting sets once. */
  datatype Geometry = Geometry(
    fsType: FatType,
    csize: nat,      // sectors per cluster
    nFats: nat,      // number of FAT copies
    sectsFat: nat,   // sectors per FAT
    maxClust: nat,   // one more than the last cluster number
    fatbase: nat,    // first sector of the FAT
    database: nat,   // first sector of the data area
    fsiSector: nat,  // the FSInfo sector
    sectors: nat)    // sectors of the whole medium
  {
    // One past the first FAT: the code takes every sector below for a FAT sector.
    function FatEnd(): nat { fatbase + sectsFat }

    // One past the last FAT copy.
    function CopiesEnd(): nat { CopyAt(fatbase, nFats) }

    // The sector holding the k-th copy of FAT sector s.
    function CopyAt(s: nat, k: nat): nat { s + k * sectsFat }

    // One past the last sector of the data area.
    function DataEnd(): (r: nat)
      requires 2 <= maxClust
      ensures database <= r
    {
      assert 0 <= (maxClust - 2) * csize;
      database + (maxClust - 2) * csize
    }

    // The width of one entry, as the number of values it can hold.
    function EntryRange(): nat {
      match fsType
      case Fat12 => 0x1000
      case Fat16 => 0x1_0000
      case Fat32 => 0x1000_0000
    }

    // The position, in the FAT as a byte string, at which the entry of c starts,
    // and the number of bytes it touches.
    function EntryOffset(c: nat): nat {
      match fsType
      case Fat12 => c * 3 / 2
      case Fat16 => c * 2
      case Fat32 => c * 4
    }

    function EntrySpan(): nat {
      match fsType
      case Fat12 => 2
      case Fat16 => 2
      case Fat32 => 4
    }

    // Where sector n of a file lies: the position of its cluster in the chain, and
    // the sector in that cluster.
    function ClusterOf(n: nat): nat
      requires 1 <= csize
    {
      n / csize
    }

    function SectorOf(n: nat): nat
      requires 1 <= csize
    {
      n % csize
    }

    // The number of sectors of a chain of k clusters.
    function SectorsIn(k: nat): nat { k * csize }

    // The bytes of a cluster.
    function ClusterBytes(): nat { csize * SECTOR_SIZE }

    /** A medium laid out as the FAT specification demands. */
    ghost predicate Valid() {
      && 1 <= csize <= 128
      && 1 <= nFats
      && 1 <= sectsFat
      && 2 <= maxClust
      && (match fsType
          case Fat12 => maxClust < 0xFF7
          case Fat16 => maxClust < 0xFFF7
          case Fat32 => maxClust < 0xFFF_FFF7)
      && 1 <= fatbase
      && (forall c: nat {:trigger EntryOffset(c)} :: c < maxClust ==> EntryOffset(c) + EntrySpan() <= sectsFat * SECTOR_SIZE)
      && CopiesEnd() <= database
      && DataEnd() <= sectors < DWORD_LIMIT
      && (fsType == Fat32 ==> 1 <= fsiSector < fatbase)
    }
  }

  /** x & ~m, bit by bit. */
  function Masked(x: nat, m: nat): nat
    decreases x
  {
    if x == 0 then 0 else (if m % 2 == 1 then 0 else x % 2) + 2 * Masked(x / 2, m / 2)
  }

  /** x & ~(n - 1), which the code takes for x rounded down to a multiple of n. */
  function ClearBelow(x: nat, n: nat): nat { Masked(x, if n == 0 then 0 else n - 1) }

  ghost predicate IsPowerOfTwo(n: nat)
    decreases n
  {
    n == 1 || (n % 2 == 0 && n > 0 && IsPowerOfTwo(n / 2))
  }

  /** Clearing the bits below a power of two rounds down to a multiple of it. */
  lemma {:induction false} ClearBelowRounds(x: nat, n: nat, q: nat, r: nat)
    requires IsPowerOfTwo(n) && r < n && x == q * n + r
    ensures ClearBelow(x, n) == q * n
    decreases n
  {
    if n > 1 {
      var h := n / 2;
      assert x == 2 * (q * h) + r;
      ClearBelowRounds(x / 2, h, q, r / 2);
      MaskedHalves(x, h);
    } else {
      MaskedNothing(x);
    }
  }

  lemma {:induction false} MaskedWithin(x: nat, m: nat)
    ensures Masked(x, m) <= x
    decreases x
  {
    if x > 0 { MaskedWithin(x / 2, m / 2); }
  }

  lemma MaskedHalves(x: nat, h: nat)
    requires h > 0
    ensures Masked(x, 2 * h - 1) == 2 * Masked(x / 2, h - 1)
  {
    assert (2 * h - 1) / 2 == h - 1 && (2 * h - 1) % 2 == 1;
  }

  lemma {:induction false} MaskedNothing(x: nat)
    ensures Masked(x, 0) == x
    decreases x
  {
    if x > 0 { MaskedNothing(x / 2); }
  }

  lemma {:induction false} MaskedAll(x: nat)
    ensures Masked(x, x) == 0
    decreases x
  {
    if x > 0 { MaskedAll(x / 2); }
  }

  function RoundedDown(x: nat, n: nat): nat
    requires n > 0
  {
    x / n * n
  }

  /** Whether masking x rounds it down to a multiple of n. */
  predicate RoundsDown(x: nat, n: nat)
    requires n > 0
  {
    ClearBelow(x, n) == RoundedDown(x, n)
  }

  lemma RoundedParts(x: nat, n: nat)
    requires n > 0
    ensures x == RoundedDown(x, n) + x % n
  {
    assert n * (x / n) == x / n * n;
  }

  /** It rounds down for every number exactly if n is a power of two. */
  lemma ClearBelowExactly(n: nat)
    requires n > 0
    ensures (forall x: nat :: RoundsDown(x, n)) <==> IsPowerOfTwo(n)
  {
    if IsPowerOfTwo(n) {
      forall x: nat ensures RoundsDown(x, n) {
        hide Masked, IsPowerOfTwo;
        RoundedParts(x, n);
        ClearBelowRounds(x, n, x / n, x % n);
      }
    } else {
      hide Masked, IsPowerOfTwo;
      NotRounded(n);
    }
  }

  /** Otherwise it fails for n itself. */
  lemma NotRounded(n: nat)
    requires n > 0 && !IsPowerOfTwo(n)
    ensures RoundedDown(n, n) == n && !RoundsDown(n, n)
  {
    hide Masked, IsPowerOfTwo;
    NoPowerOfTwo(n);
  }

  lemma {:induction false} NoPowerOfTwo(n: nat)
    requires n > 0 && !IsPowerOfTwo(n)
    ensures Masked(n, n - 1) != n
    decreases n
  {
    var h := n / 2;
    if n % 2 == 0 {
      NoPowerOfTwo(h);
      MaskedHalves(n, h);
    } else {
      MaskedAll(h);
      assert (n - 1) / 2 == h && (n - 1) % 2 == 0;
    }
  }

  lemma PowerHalved(n: nat)
    requires n > 0
    ensures IsPowerOfTwo(2 * n) <==> IsPowerOfTwo(n)
  {
  }

  /** Masking a byte position for a cluster masks its sector. */
  lemma MaskedSectors(x: nat, n: nat)
    requires n > 0
    ensures ClearBelow(x, n * SECTOR_SIZE) == ClearBelow(x / SECTOR_SIZE, n) * SECTOR_SIZE
    ensures IsPowerOfTwo(n * SECTOR_SIZE) <==> IsPowerOfTwo(n)
  {
    hide Masked, IsPowerOfTwo;
    MaskedEighths(x, 64 * n);
    MaskedEighths(x / 8, 8 * n);
    MaskedEighths(x / 64, n);
    assert x / 8 / 8 == x / 64 && x / 64 / 8 == x / SECTOR_SIZE;
  }

  lemma MaskedEighths(x: nat, n: nat)
    requires n > 0
    ensures ClearBelow(x, 8 * n) == 8 * ClearBelow(x / 8, n)
    ensures IsPowerOfTwo(8 * n) <==> IsPowerOfTwo(n)
  {
    hide Masked, IsPowerOfTwo;
    MaskedHalves(x, 4 * n);
    MaskedHalves(x / 2, 2 * n);
    MaskedHalves(x / 4, n);
    PowerHalved(n);
    PowerHalved(2 * n);
    PowerHalved(4 * n);
  }
}
