/** The FAT as a table of packed 12-, 16- or 28-bit entries. */
module FatTable {
  import opened Arithmetic
  import opened FatTypes
  import opened SectorWindow

  /** The first FAT as one string of bytes. */
  ghost function FatBytes(g: Geometry, v: seq<Sector>): (r: seq<Byte>)
    requires g.Valid() && |v| == g.sectors
    ensures |r| == g.sectsFat * SECTOR_SIZE
  {
    FatInside(g);
    seq(g.sectsFat * SECTOR_SIZE, o requires 0 <= o < g.sectsFat * SECTOR_SIZE =>
      v[g.fatbase + o / SECTOR_SIZE][o % SECTOR_SIZE])
  }

  lemma FatInside(g: Geometry)
    requires g.Valid()
    ensures g.FatEnd() <= g.CopiesEnd() <= g.database <= g.sectors
  {
    CopiesInside(g, g.fatbase, g.nFats - 1);
    assert g.CopyAt(g.fatbase, 1) == g.FatEnd();
    if g.nFats > 1 { Spread(1, g.nFats, g.sectsFat); }
    hide Geometry.DataEnd;
  }

  lemma FatByteAt(g: Geometry, v: seq<Sector>, o: nat)
    requires g.Valid() && |v| == g.sectors && o < g.sectsFat * SECTOR_SIZE
    ensures g.fatbase <= g.fatbase + o / SECTOR_SIZE < g.FatEnd() <= g.sectors
    ensures FatBytes(g, v)[o] == v[g.fatbase + o / SECTOR_SIZE][o % SECTOR_SIZE]
  {
    FatInside(g);
  }

  /** Where get_cluster and put_cluster look for an entry: the 16-bit arithmetic on
      byte positions loses nothing. */
  lemma EntryPlace12(c: nat)
    requires c < 0xFF7
    ensures ((c % 0x1_0000) * 3 / 2) % 0x1_0000 == c * 3 / 2
  {
  }

  lemma EntryPlace16(c: nat)
    ensures c / (SECTOR_SIZE / 2) == (c * 2) / SECTOR_SIZE
    ensures ((c % 0x1_0000) * 2) % SECTOR_SIZE == (c * 2) % SECTOR_SIZE <= SECTOR_SIZE - 2
  {
    var h, m := c / 0x1_0000, c % 0x1_0000;
    var l, r := m / 256, m % 256;
    Quotient(c, 256, h * 256 + l, r);
    Quotient(c * 2, SECTOR_SIZE, h * 256 + l, r * 2);
    Quotient(m * 2, SECTOR_SIZE, l, r * 2);
  }

  lemma EntryPlace32(c: nat)
    ensures c / (SECTOR_SIZE / 4) == (c * 4) / SECTOR_SIZE
    ensures ((c % 0x1_0000) * 4) % SECTOR_SIZE == (c * 4) % SECTOR_SIZE <= SECTOR_SIZE - 4
  {
    var h, m := c / 0x1_0000, c % 0x1_0000;
    var l, r := m / 128, m % 128;
    Quotient(c, 128, h * 512 + l, r);
    Quotient(c * 4, SECTOR_SIZE, h * 512 + l, r * 4);
    Quotient(m * 4, SECTOR_SIZE, l, r * 4);
  }

  /** An entry that lies in one sector, read from that sector. */
  lemma EntryInSector(g: Geometry, v: seq<Sector>, c: nat, s: nat, p: nat)
    requires g.Valid() && |v| == g.sectors && c < g.maxClust && !g.fsType.Fat12?
    requires var o := g.EntryOffset(c);
             s == g.fatbase + o / SECTOR_SIZE && p == o % SECTOR_SIZE && p + g.EntrySpan() <= SECTOR_SIZE
    ensures g.fatbase <= s < g.FatEnd() <= g.sectors
    ensures EntryOf(g, FatBytes(g, v), c) ==
            DecodeEntry(g.fsType, c, v[s][p], v[s][p + 1],
                        if g.fsType.Fat32? then v[s][p + 2] else 0, if g.fsType.Fat32? then v[s][p + 3] else 0)
  {
    hide DecodeEntry, FatBytes;
    var o := g.EntryOffset(c);
    FatByteAt(g, v, o);
    NextByte(o, 1);
    FatByteAt(g, v, o + 1);
    if g.fsType.Fat32? {
      NextByte(o, 2);
      NextByte(o, 3);
      FatByteAt(g, v, o + 2);
      FatByteAt(g, v, o + 3);
    }
  }

  lemma NextByte(o: nat, i: nat)
    requires o % SECTOR_SIZE + i < SECTOR_SIZE
    ensures (o + i) / SECTOR_SIZE == o / SECTOR_SIZE && (o + i) % SECTOR_SIZE == o % SECTOR_SIZE + i
  {
    Quotient(o + i, SECTOR_SIZE, o / SECTOR_SIZE, o % SECTOR_SIZE + i);
  }

  /** What get_cluster decodes for cluster c. */
  function DecodeEntry(t: FatType, c: nat, b0: Byte, b1: Byte, b2: Byte, b3: Byte): nat {
    match t
    case Fat12 => if c % 2 == 1 then (b0 + 0x100 * b1) / 16 else (b0 + 0x100 * b1) % 0x1000
    case Fat16 => b0 + 0x100 * b1
    case Fat32 => (b0 + 0x100 * b1 + 0x1_0000 * b2 + 0x100_0000 * b3) % 0x1000_0000
  }

  ghost function EntryOf(g: Geometry, bytes: seq<Byte>, c: nat): nat
    requires g.Valid() && |bytes| == g.sectsFat * SECTOR_SIZE && c < g.maxClust
  {
    var o := g.EntryOffset(c);
    DecodeEntry(g.fsType, c, bytes[o], bytes[o + 1],
                if g.fsType.Fat32? then bytes[o + 2] else 0,
                if g.fsType.Fat32? then bytes[o + 3] else 0)
  }

  /** The byte put_cluster leaves at position i of the entry of c, over was. */
  function EntryByte(t: FatType, c: nat, val: nat, i: nat, was: Byte): Byte
    requires i < 4
  {
    match t
    case Fat12 =>
      if i == 0 then (if c % 2 == 1 then was % 16 + (val % 16) * 16 else val % 0x100)
      else (if c % 2 == 1 then (val / 16) % 0x100 else (was / 16) * 16 + (val / 0x100) % 16)
    case Fat16 => if i == 0 then val % 0x100 else (val / 0x100) % 0x100
    case Fat32 =>
      if i == 0 then val % 0x100 else if i == 1 then (val / 0x100) % 0x100
      else if i == 2 then (val / 0x1_0000) % 0x100 else (val / 0x100_0000) % 0x100
  }

  /** The FAT bytes after the entry of c was set to val. */
  ghost function StoreEntry(g: Geometry, bytes: seq<Byte>, c: nat, val: nat): (r: seq<Byte>)
    requires g.Valid() && |bytes| == g.sectsFat * SECTOR_SIZE && c < g.maxClust
    ensures |r| == |bytes|
  {
    var o := g.EntryOffset(c);
    Overwrite(bytes, o, seq<Byte>(g.EntrySpan(), i requires 0 <= i < g.EntrySpan() =>
      EntryByte(g.fsType, c, val, i, bytes[o + i])))
  }

  lemma StoreIsOverwrite(g: Geometry, bytes: seq<Byte>, c: nat, val: nat, entry: seq<Byte>)
    requires g.Valid() && |bytes| == g.sectsFat * SECTOR_SIZE && c < g.maxClust && |entry| == g.EntrySpan()
    requires forall i :: 0 <= i < |entry| ==> entry[i] == EntryByte(g.fsType, c, val, i, bytes[g.EntryOffset(c) + i])
    ensures StoreEntry(g, bytes, c, val) == Overwrite(bytes, g.EntryOffset(c), entry)
  {
    hide EntryByte, Geometry.EntryOffset, Overwrite, Geometry.Valid;
  }

  /** An entry of whole bytes keeps nothing of what was there. */
  lemma StoreWhole(g: Geometry, bytes: seq<Byte>, c: nat, val: nat, entry: seq<Byte>)
    requires g.Valid() && |bytes| == g.sectsFat * SECTOR_SIZE && c < g.maxClust && |entry| == g.EntrySpan() && !g.fsType.Fat12?
    requires forall i :: 0 <= i < |entry| ==> entry[i] == EntryByte(g.fsType, c, val, i, 0)
    ensures StoreEntry(g, bytes, c, val) == Overwrite(bytes, g.EntryOffset(c), entry)
  {
    hide StoreEntry;
    StoreIsOverwrite(g, bytes, c, val, entry);
  }

  /** Reading an entry back gives the value cut to the entry width. */
  lemma StoreLoad(g: Geometry, bytes: seq<Byte>, c: nat, val: nat)
    requires g.Valid() && |bytes| == g.sectsFat * SECTOR_SIZE && c < g.maxClust && val < DWORD_LIMIT
    ensures EntryOf(g, StoreEntry(g, bytes, c, val), c) == val % g.EntryRange()
  {
    var o := g.EntryOffset(c);
    var stored := StoreEntry(g, bytes, c, val);
    assert stored[o] == EntryByte(g.fsType, c, val, 0, bytes[o]);
    assert stored[o + 1] == EntryByte(g.fsType, c, val, 1, bytes[o + 1]);
    match g.fsType
    case Fat12 => Nibbles(bytes[o], bytes[o + 1], val);
    case Fat16 => LittleEndian(val);
    case Fat32 => LittleEndian(val);
  }

  lemma Nibbles(b0: Byte, b1: Byte, val: nat)
    ensures (b0 % 16 + (val % 16) * 16 + 0x100 * ((val / 16) % 0x100)) / 16 == val % 0x1000
    ensures (val % 0x100 + 0x100 * ((b1 / 16) * 16 + (val / 0x100) % 16)) % 0x1000 == val % 0x1000
  {
    NibbleSplit(val);
    var lo, mid, hi := val % 16, (val / 16) % 16, (val / 0x100) % 16;
    assert b0 % 16 + lo * 16 + 0x100 * (mid + 16 * hi) == b0 % 16 + 16 * (lo + 16 * mid + 0x100 * hi);
    assert lo + 16 * mid + 0x100 * ((b1 / 16) * 16 + hi) == (lo + 16 * mid + 0x100 * hi) + 0x1000 * (b1 / 16);
  }

  lemma NibbleSplit(val: nat)
    ensures val % 0x100 == val % 16 + 16 * ((val / 16) % 16)
    ensures (val / 16) % 0x100 == (val / 16) % 16 + 16 * ((val / 0x100) % 16)
    ensures val % 0x1000 == val % 16 + 16 * ((val / 16) % 16) + 0x100 * ((val / 0x100) % 16)
  {
    ByteSplit(val);
    ByteSplit(val / 16);
    assert (val / 16) / 16 == val / 0x100;
    var q := val / 0x100;
    assert val == 0x100 * q + val % 0x100;
    assert q == 16 * (q / 16) + q % 16;
  }

  lemma ByteSplit(val: nat)
    ensures val % 0x100 == val % 16 + 16 * ((val / 16) % 16)
  {
    var q := val / 16;
    Quotient(val, 0x100, q / 16, 16 * (q % 16) + val % 16);
  }

  lemma LittleEndian(val: nat)
    ensures val % 0x100 + 0x100 * ((val / 0x100) % 0x100) == val % 0x1_0000
    ensures val < DWORD_LIMIT ==>
              val % 0x100 + 0x100 * ((val / 0x100) % 0x100) + 0x1_0000 * ((val / 0x1_0000) % 0x100)
              + 0x100_0000 * ((val / 0x100_0000) % 0x100) == val
  {
    LowTwo(val);
    if val < DWORD_LIMIT {
      LowThree(val);
      var a, b := val / 0x100, val / 0x1_0000;
      LowByte(val);
      LowByte(a);
      LowByte(b);
      TopByte(val, a, b, val / 0x100_0000, val % 0x100, a % 0x100, b % 0x100);
    }
  }

  lemma LowTwo(val: nat)
    ensures val % 0x1_0000 == val % 0x100 + 0x100 * ((val / 0x100) % 0x100) && val / 0x1_0000 == val / 0x100 / 0x100
  {
    var a := val / 0x100;
    Quotient(val, 0x1_0000, a / 0x100, 0x100 * (a % 0x100) + val % 0x100);
  }

  lemma LowThree(val: nat)
    ensures val / 0x100_0000 == val / 0x1_0000 / 0x100
  {
    var b := val / 0x1_0000;
    Quotient(val, 0x100_0000, b / 0x100, 0x1_0000 * (b % 0x100) + val % 0x1_0000);
  }

  lemma LowByte(x: nat)
    ensures x == 0x100 * (x / 0x100) + x % 0x100
  {
  }

  lemma TopByte(val: nat, a: nat, b: nat, c: nat, r: nat, s: nat, t: nat)
    requires val < DWORD_LIMIT && val == 0x100 * a + r && a == 0x100 * b + s && b == 0x100 * c + t
    ensures c % 0x100 == c && val == r + 0x100 * s + 0x1_0000 * t + 0x100_0000 * c
  {
    assert c < 0x100;
  }

  /** Setting one entry leaves every other entry alone, also those sharing a byte with it. */
  lemma StoreOther(g: Geometry, bytes: seq<Byte>, c: nat, val: nat, d: nat)
    requires g.Valid() && |bytes| == g.sectsFat * SECTOR_SIZE && c < g.maxClust && d < g.maxClust && c != d
    ensures EntryOf(g, StoreEntry(g, bytes, c, val), d) == EntryOf(g, bytes, d)
  {
    hide EntryOf, StoreEntry, Geometry.EntryOffset, Geometry.Valid;
    if g.fsType.Fat12? && c % 2 == 0 && d == c + 1 {
      StoreNext(g, bytes, c, val);
    } else if g.fsType.Fat12? && c % 2 == 1 && d == c - 1 {
      StorePrevious(g, bytes, d, val);
    } else {
      Apart(g, c, d);
      StoreApart(g, bytes, c, val, d);
    }
  }

  lemma StoreApart(g: Geometry, bytes: seq<Byte>, c: nat, val: nat, d: nat)
    requires g.Valid() && |bytes| == g.sectsFat * SECTOR_SIZE && c < g.maxClust && d < g.maxClust
    requires var o, p := g.EntryOffset(c), g.EntryOffset(d); o + g.EntrySpan() <= p || p + g.EntrySpan() <= o
    ensures EntryOf(g, StoreEntry(g, bytes, c, val), d) == EntryOf(g, bytes, d)
  {
    hide EntryByte, DecodeEntry, Geometry.EntryOffset;
  }

  lemma StoreNext(g: Geometry, bytes: seq<Byte>, c: nat, val: nat)
    requires g.Valid() && |bytes| == g.sectsFat * SECTOR_SIZE && c + 1 < g.maxClust
    requires g.fsType.Fat12? && c % 2 == 0
    ensures EntryOf(g, StoreEntry(g, bytes, c, val), c + 1) == EntryOf(g, bytes, c + 1)
  {
    var o := g.EntryOffset(c);
    var stored := StoreEntry(g, bytes, c, val);
    Neighbour12(c);
    var p := g.EntryOffset(c + 1);
    var shared, high := bytes[p], bytes[p + 1];
    assert stored[p] == EntryByte(Fat12, c, val, 1, shared) && stored[p + 1] == high;
    SharedByte(shared, high, val);
  }

  lemma Neighbour12(c: nat)
    requires c % 2 == 0
    ensures (c + 1) * 3 / 2 == c * 3 / 2 + 1 && (c + 1) % 2 == 1
  {
  }

  lemma StorePrevious(g: Geometry, bytes: seq<Byte>, c: nat, val: nat)
    requires g.Valid() && |bytes| == g.sectsFat * SECTOR_SIZE && c + 1 < g.maxClust
    requires g.fsType.Fat12? && c % 2 == 0
    ensures EntryOf(g, StoreEntry(g, bytes, c + 1, val), c) == EntryOf(g, bytes, c)
  {
    var o := g.EntryOffset(c + 1);
    var stored := StoreEntry(g, bytes, c + 1, val);
    Neighbour12(c);
    var p := g.EntryOffset(c);
    var low, shared := bytes[p], bytes[p + 1];
    assert stored[o] == EntryByte(Fat12, c + 1, val, 0, shared) && stored[p] == low;
    SharedByte'(low, shared, val);
  }

  lemma Apart(g: Geometry, c: nat, d: nat)
    requires c != d
    requires !(g.fsType.Fat12? && c % 2 == 0 && d == c + 1) && !(g.fsType.Fat12? && c % 2 == 1 && d == c - 1)
    ensures var o, p := g.EntryOffset(c), g.EntryOffset(d); o + g.EntrySpan() <= p || p + g.EntrySpan() <= o
  {
    if g.fsType.Fat12? {
      var m, n := c / 2, d / 2;
      assert c * 3 / 2 == 3 * m + c % 2 && d * 3 / 2 == 3 * n + d % 2;
    }
  }

  lemma SharedByte(shared: Byte, high: Byte, val: nat)
    ensures ((shared / 16) * 16 + (val / 0x100) % 16 + 0x100 * high) / 16 == (shared + 0x100 * high) / 16
  {
  }

  lemma SharedByte'(low: Byte, shared: Byte, val: nat)
    ensures (low + 0x100 * (shared % 16 + (val % 16) * 16)) % 0x1000 == (low + 0x100 * shared) % 0x1000
  {
  }

  /** The table: entry c of the volume seen as v. */
  ghost function Fat(g: Geometry, v: seq<Sector>): (r: seq<nat>)
    requires g.Valid() && |v| == g.sectors
    ensures |r| == g.maxClust
  {
    seq(g.maxClust, c requires 0 <= c < g.maxClust => EntryOf(g, FatBytes(g, v), c))
  }

  /** Writing a FAT sector through the window replaces that sector's bytes in the FAT. */
  lemma PatchFatBytes(g: Geometry, v: seq<Sector>, s: nat, w: Sector)
    requires g.Valid() && |v| == g.sectors && g.fatbase <= s < g.FatEnd() && Writable(g, s)
    ensures forall o :: 0 <= o < g.sectsFat * SECTOR_SIZE ==>
              FatBytes(g, Patch(g, v, s, w))[o] ==
              if o / SECTOR_SIZE == s - g.fatbase then w[o % SECTOR_SIZE] else FatBytes(g, v)[o]
  {
    FatInside(g);
    PatchSelf(g, v, s, w);
    PatchFrame(g, v, s, w);
  }

  lemma SameFat(g: Geometry, v: seq<Sector>, v': seq<Sector>)
    requires g.Valid() && |v| == |v'| == g.sectors
    requires forall t :: g.fatbase <= t < g.FatEnd() ==> (FatInside(g); v[t] == v'[t])
    ensures Fat(g, v) == Fat(g, v')
  {
    FatInside(g);
    assert FatBytes(g, v) == FatBytes(g, v');
  }

  /** v' differs from v in the FAT and its copies at most, and keeps the copies equal. */
  ghost predicate OnlyFat(g: Geometry, v: seq<Sector>, v': seq<Sector>)
    requires g.Valid() && |v| == |v'| == g.sectors
  {
    && (forall t {:trigger v[t]} {:trigger v'[t]} :: 0 <= t < g.sectors && (t < g.fatbase || g.CopiesEnd() <= t) ==> v'[t] == v[t])
    && (Mirrored(g, v) ==> Mirrored(g, v'))
  }

  lemma OnlyFatNothing(g: Geometry, v: seq<Sector>)
    requires g.Valid() && |v| == g.sectors
    ensures OnlyFat(g, v, v)
  {
  }

  lemma OnlyFatTwice(g: Geometry, v: seq<Sector>, v': seq<Sector>, v'': seq<Sector>)
    requires g.Valid() && |v| == |v'| == |v''| == g.sectors
    requires OnlyFat(g, v, v') && OnlyFat(g, v', v'')
    ensures OnlyFat(g, v, v'')
  {
  }

  /** Bytes of the FAT, all in one sector, written through the window. */
  lemma PutFatBytes(g: Geometry, v: seq<Sector>, o: nat, bytes: seq<Byte>)
    requires g.Valid() && |v| == g.sectors
    requires o < g.sectsFat * SECTOR_SIZE && o % SECTOR_SIZE + |bytes| <= SECTOR_SIZE
    ensures var s := g.fatbase + o / SECTOR_SIZE;
            && g.fatbase <= s < g.FatEnd() && Writable(g, s)
            && o + |bytes| <= g.sectsFat * SECTOR_SIZE
            && var v' := Patch(g, v, s, Overwrite(v[s], o % SECTOR_SIZE, bytes));
            && FatBytes(g, v') == Overwrite(FatBytes(g, v), o, bytes)
            && OnlyFat(g, v, v')
  {
    FatInside(g);
    var s := g.fatbase + o / SECTOR_SIZE;
    var w := Overwrite(v[s], o % SECTOR_SIZE, bytes);
    PatchFatBytes(g, v, s, w);
    PatchFrame(g, v, s, w);
    if Mirrored(g, v) { PatchMirrors(g, v, s, w); }
    assert FatBytes(g, Patch(g, v, s, w)) == Overwrite(FatBytes(g, v), o, bytes) by {
      PlacedInSector(g, v, o, bytes);
    }
  }

  lemma PlacedInSector(g: Geometry, v: seq<Sector>, o: nat, bytes: seq<Byte>)
    requires g.Valid() && |v| == g.sectors
    requires o < g.sectsFat * SECTOR_SIZE && o % SECTOR_SIZE + |bytes| <= SECTOR_SIZE
    ensures o + |bytes| <= g.sectsFat * SECTOR_SIZE
    ensures forall k :: 0 <= k < g.sectsFat * SECTOR_SIZE ==>
              (o <= k < o + |bytes| <==>
               k / SECTOR_SIZE == o / SECTOR_SIZE && o % SECTOR_SIZE <= k % SECTOR_SIZE < o % SECTOR_SIZE + |bytes|)
  {
  }

  /** Setting an entry in the bytes sets that entry of the table, cut to its width. */
  lemma StoreTable(g: Geometry, v: seq<Sector>, v': seq<Sector>, c: nat, val: nat)
    requires g.Valid() && |v| == |v'| == g.sectors && c < g.maxClust && val < DWORD_LIMIT
    requires FatBytes(g, v') == StoreEntry(g, FatBytes(g, v), c, val)
    ensures Fat(g, v') == Fat(g, v)[c := val % g.EntryRange()]
  {
    StoreLoad(g, FatBytes(g, v), c, val);
    forall d | 0 <= d < g.maxClust && d != c
      ensures Fat(g, v')[d] == Fat(g, v)[d]
    {
      StoreOther(g, FatBytes(g, v), c, val, d);
    }
  }
}
