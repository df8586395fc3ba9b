/** What the volume looks like on the medium, byte by byte: the places and the byte order that the FAT
    specification lays down, and what the words of the other modules come to there. */
module FatLayout {
  import opened Arithmetic
  import opened FatTypes
  import opened SectorWindow
  import opened FatTable
  import opened ClusterChains
  import opened FileBytes
  import opened FatVolume
  import opened FatFile
  import opened FatDirectory
  import FatSession

  /** The number whose bytes are bs, lowest first. */
  function LittleEndianValue(bs: seq<Byte>): nat {
    if bs == [] then 0 else bs[0] + 0x100 * LittleEndianValue(bs[1..])
  }

  lemma LowTwo(bs: seq<Byte>, i: nat)
    requires i + 2 <= |bs|
    ensures LittleEndianValue(bs[i..i + 2]) == bs[i] as int + 0x100 * bs[i + 1] as int
  {
    var w := bs[i..i + 2];
    assert w[1..][1..] == [] && LittleEndianValue(w[1..]) == bs[i + 1] as int + 0x100 * LittleEndianValue([]);
  }

  lemma LowFour(bs: seq<Byte>, i: nat)
    requires i + 4 <= |bs|
    ensures LittleEndianValue(bs[i..i + 4]) == bs[i] as int + 0x100 * bs[i + 1] as int + 0x1_0000 * bs[i + 2] as int + 0x100_0000 * bs[i + 3] as int
  {
    var w := bs[i..i + 4];
    var w1, w2, w3 := w[1..], w[2..], w[3..];
    assert w1[1..] == w2 && w2[1..] == w3 && w3[1..] == [];
    assert LittleEndianValue(w3) == bs[i + 3] + 0x100 * LittleEndianValue([]);
    assert LittleEndianValue(w2) == bs[i + 2] + 0x100 * LittleEndianValue(w3);
    assert LittleEndianValue(w1) == bs[i + 1] + 0x100 * LittleEndianValue(w2);
  }

  // ---------------------------------------------------------------- the medium and the table

  /** The copies of a sector, by their distance. */
  lemma CopyDistance(g: Geometry, s: nat, t: nat, n: nat)
    requires 1 <= g.sectsFat && 1 <= n
    ensures IsCopy(g, s, t, n - 1) <==> s < t && (t - s) % g.sectsFat == 0 && (t - s) / g.sectsFat < n
  {
    var d, k := t - s, g.sectsFat;
    if IsCopy(g, s, t, n - 1) {
      var j: nat :| 1 <= j <= n - 1 && t == g.CopyAt(s, j);
      Quotient(d, k, j, 0);
      Spread(0, j, k);
    } else if s < t && d % k == 0 {
      assert d == d / k * k by { assert d == k * (d / k); }
      assert t == g.CopyAt(s, d / k);
    }
  }

  /** The view: a dirty window stands for its sector and, in the first FAT, for that sector of every copy. */
  lemma ViewSector(fs: Volume, t: nat)
    requires fs.Shape() && t < fs.g.sectors
    ensures 1 <= fs.g.sectsFat
    ensures var s, k := fs.winsect, fs.g.sectsFat;
            fs.View()[t]
            == if fs.wflag && (t == s || (s < fs.g.fatbase + k && s < t && (t - s) % k == 0 && (t - s) / k < fs.g.nFats))
               then fs.win[..] else fs.disk[t]
  {
    hide Patch, IsCopy, Geometry.DataEnd, Geometry.CopyAt;
    if fs.wflag {
      PatchAt(fs.g, fs.disk, fs.winsect, fs.win[..], t);
      CopyDistance(fs.g, fs.winsect, t, fs.g.nFats);
    }
  }

  /** An entry of the table: 12 bits at bit 12 * c of the FAT, or 16 at 16 * c, or the low 28 of 32 at 32 * c. */
  lemma TableEntry(g: Geometry, v: seq<Sector>, c: nat)
    requires g.Valid() && |v| == g.sectors && c < g.maxClust
    ensures var fat := FatBytes(g, v);
            match g.fsType
            case Fat12 => 12 * c / 8 + 2 <= |fat| &&
              Fat(g, v)[c] == LittleEndianValue(fat[12 * c / 8..12 * c / 8 + 2]) / (if 12 * c % 8 == 0 then 1 else 16) % 0x1000
            case Fat16 => 2 * c + 2 <= |fat| && Fat(g, v)[c] == LittleEndianValue(fat[2 * c..2 * c + 2])
            case Fat32 => 4 * c + 4 <= |fat| && Fat(g, v)[c] == LittleEndianValue(fat[4 * c..4 * c + 4]) % 0x1000_0000
  {
    var fat := FatBytes(g, v);
    var o := g.EntryOffset(c);
    assert o + g.EntrySpan() <= |fat|;
    assert Fat(g, v)[c] == EntryOf(g, fat, c);
    hide FatBytes, LittleEndianValue, Fat, Geometry.Valid, DecodeEntry;
    match g.fsType
    case Fat12 => LowTwo(fat, o); BitPlace(c); Decoded12(c, fat[o], fat[o + 1]);
    case Fat16 => LowTwo(fat, o); Decoded(c, fat[o], fat[o + 1], 0, 0);
    case Fat32 => LowFour(fat, o); Decoded(c, fat[o], fat[o + 1], fat[o + 2], fat[o + 3]);
  }

  lemma Decoded(c: nat, b0: Byte, b1: Byte, b2: Byte, b3: Byte)
    ensures DecodeEntry(Fat16, c, b0, b1, b2, b3) == b0 as int + 0x100 * b1 as int
    ensures DecodeEntry(Fat32, c, b0, b1, b2, b3) == (b0 as int + 0x100 * b1 as int + 0x1_0000 * b2 as int + 0x100_0000 * b3 as int) % 0x1000_0000
  {
  }

  lemma Decoded12(c: nat, b0: Byte, b1: Byte)
    ensures DecodeEntry(Fat12, c, b0, b1, 0, 0) == (b0 as int + 0x100 * b1 as int) / (if c % 2 == 0 then 1 else 16) % 0x1000
  {
  }

  lemma BitPlace(c: nat)
    ensures 12 * c / 8 == c * 3 / 2 && (12 * c % 8 == 0 <==> c % 2 == 0)
  {
  }

  lemma {:induction false} FreeBelowIs(t: seq<nat>, k: nat)
    requires k <= |t|
    ensures FreeBelow(t, k) == |set c | 2 <= c < k && t[c] == 0|
    decreases k
  {
    var all := set c | 2 <= c < k && t[c] == 0;
    if k > 2 {
      FreeBelowIs(t, k - 1);
      var below := set c | 2 <= c < k - 1 && t[c] == 0;
      assert all == below + if t[k - 1] == 0 then {k - 1} else {};
    } else {
      assert all == {};
    }
  }

  /** The free clusters are those with a zero entry. */
  lemma FreeCountIs(t: seq<nat>)
    ensures FreeCount(t) == |set c | 2 <= c < |t| && t[c] == 0|
    ensures FreeCount(t) == 0 <==> forall c :: 2 <= c < |t| ==> t[c] != 0
    ensures NoFree(t) <==> FreeCount(t) == 0
    ensures NoOnes(t) <==> forall c :: 2 <= c < |t| ==> t[c] != 1
  {
    FreeBelowIs(t, |t|);
    assert NoOnes(t) ==> forall c :: 2 <= c < |t| ==> InRange(t, c) && t[c] != 1;
    var free := set c | 2 <= c < |t| && t[c] == 0;
    if FreeCount(t) == 0 {
      forall c | 2 <= c < |t| ensures t[c] != 0 { assert c !in free; }
    } else {
      assert free != {};
    }
  }

  /** The cluster a search from scl finds: free, and no free one between, going round behind the last. */
  lemma FirstFreeIs(t: seq<nat>, scl: nat, r: nat)
    requires FirstFree(t, scl, r)
    ensures 2 <= r < |t| && t[r] == 0
    ensures forall k :: 2 <= k < |t| && (if scl < r then scl < k < r else scl < k || k < r) ==> t[k] != 0
  {
  }

  /** A chain's end is marked by ones in all bits of the entry. */
  lemma EndMarkIs(fs: Volume)
    requires fs.g.Valid()
    ensures fs.EndMark() == match fs.g.fsType case Fat12 => 0xFFF case Fat16 => 0xFFFF case Fat32 => 0xFFF_FFFF
  {
  }

  // ---------------------------------------------------------------- files and directories

  lemma ChunkIs(buf: seq<Byte>, i: nat, k: nat)
    requires (i + 1) * SECTOR_SIZE <= |buf| && k < 512
    ensures Chunk(buf, i)[k] == buf[512 * i + k]
  {
  }

  /** A file, byte by byte: byte i of sector j of the k-th cluster of its chain, cluster 2 being at the
      start of the data area. */
  lemma FileByte(f: File, o: nat, k: nat, j: nat, i: nat)
    requires f.Valid() && o < f.fsize && o == (k * f.fs.g.csize + j) * 512 + i && j < f.fs.g.csize && i < 512
    ensures k < |f.chain| && 2 <= f.chain[k]
    ensures var s := f.fs.g.database + (f.chain[k] - 2) * f.fs.g.csize + j;
            0 <= s < f.fs.g.sectors && f.Bytes()[o] == f.fs.View()[s][i]
  {
    hide Volume.View, Volume.Shape, Volume.Coherent, Fat, IsChain, Geometry.ClusterOf, Geometry.SectorOf, Geometry.SectorsIn, Geometry.Valid;
    var g, n := f.fs.g, k * f.fs.g.csize + j;
    Join(g, n, k, j);
    Quotient(n * 512 + i, 512, n, i);
    FileSectorInside(g, f.chain, n);
    SectorAt(g, f.fs.View(), f.chain, n);
    LinkInRange(g, f.chain, k);
  }

  /** When a read of n bytes goes past bytes that only the window has: the window is dirty and differs from
      its sector, and that is one of those fetched first, whole sectors from the position on, up to the end
      of its cluster, and none at the start of a later cluster. */
  lemma StaleIs(f: File, n: nat, q: nat, r: nat)
    requires f.Valid() && n <= f.fsize - f.fptr && r < f.fs.g.csize && f.fptr / 512 == q * f.fs.g.csize + r
    ensures n >= 512 && f.fptr % 512 == 0 ==> q < |f.chain| && 2 <= f.chain[q]
    ensures f.Stale(n)
            <==> f.fs.wflag && f.fs.win[..] != f.fs.disk[f.fs.winsect] && f.fptr % 512 == 0 && n >= 512 && (f.fptr == 0 || r != 0)
                 && var s := f.fs.g.database + (f.chain[q] - 2) * f.fs.g.csize + r;
                    s <= f.fs.winsect < s + if r + n / 512 > f.fs.g.csize then f.fs.g.csize - r else n / 512
  {
    hide Volume.View, Volume.Shape, Volume.Coherent, Fat, IsChain, Geometry.SectorsIn, Geometry.ClusterOf, Geometry.SectorOf, Geometry.Valid;
    var g, m := f.fs.g, f.fptr / 512;
    Join(g, m, q, r);
    if n >= 512 && f.fptr % 512 == 0 {
      InChain(g, m, |f.chain|);
      LinkInRange(g, f.chain, q);
    }
  }

  /** When a file can take no more: no entry of the table is zero, and the position is behind its last cluster. */
  lemma FullIs(f: File)
    requires f.fs.Shape()
    ensures f.Full() <==> (forall c :: 2 <= c < |f.fs.Table()| ==> f.fs.Table()[c] != 0) && f.fptr == |f.chain| * f.fs.g.csize * 512
  {
    hide FreeCount;
    FreeCountIs(f.fs.Table());
  }

  /** The clusters and sectors a directory entry lies in. */
  lemma SeatIs(d: Directory)
    requires d.Valid()
    ensures d.dir == d.index % 16 * 32
    ensures d.sclust == 0 ==> d.sect == d.rootBase + d.index / 16
    ensures d.sclust != 0 ==>
              var n, csize := d.index / 16, d.fs.g.csize;
              && n / csize < |d.chain| && d.clust == d.chain[n / csize] && 2 <= d.clust
              && d.sect == d.fs.g.database + (d.clust - 2) * csize + n % csize
  {
    hide Volume.View, Volume.Shape, Volume.Coherent, Fat, IsChain;
    if d.sclust != 0 { LinkInRange(d.fs.g, d.chain, d.index / 16 / d.fs.g.csize); }
  }

  /** The first cluster of a directory entry is at 26 with its high half at 20, the size at 28. */
  lemma EntryLayout(w: seq<Byte>, ptr: nat)
    requires ptr + 32 <= |w|
    ensures EntryCluster(w, ptr) == LittleEndianValue(w[ptr + 26..ptr + 28]) + 0x1_0000 * LittleEndianValue(w[ptr + 20..ptr + 22])
    ensures EntrySize(w, ptr) == LittleEndianValue(w[ptr + 28..ptr + 32])
  {
    hide LittleEndianValue;
    LowTwo(w, ptr + 26);
    LowTwo(w, ptr + 20);
    LowFour(w, ptr + 28);
  }

  lemma LowDword(s: seq<Byte>, i: nat)
    requires i + 4 <= |s|
    ensures LoadDword(s, i) == LittleEndianValue(s[i..i + 4])
  {
    LowFour(s, i);
  }

  /** The entry of a file written: attributes at 11, the time at 22, and first cluster and size. */
  lemma NewEntryLayout(e: seq<Byte>, org: Dword, size: Dword, time: Dword)
    requires |e| == 32
    ensures var r := NewEntry(e, org, size, time);
            && r[..11] == e[..11] && r[12..20] == e[12..20]
            && r[11] / 32 % 2 == 1 && r[11] % 32 == e[11] % 32 && r[11] / 64 == e[11] / 64
            && LittleEndianValue(r[20..22]) == org / 0x1_0000 && LittleEndianValue(r[26..28]) == org % 0x1_0000
            && LittleEndianValue(r[22..26]) == time && LittleEndianValue(r[28..32]) == size
  {
    hide LittleEndianValue, Archived, LoadDword;
    var r := NewEntry(e, org, size, time);
    ArchivedBits(e[11]);
    assert r[22..26] == Dword4(time) && r[28..32] == Dword4(size);
    DwordRoundTrip(r, 22, time);
    DwordRoundTrip(r, 28, size);
    LowDword(r, 22);
    LowDword(r, 28);
    LowTwo(r, 20);
    LowTwo(r, 26);
    Halves(org);
    assert r[20] == Dword4(org)[2] && r[21] == Dword4(org)[3] && r[26] == Dword4(org)[0] && r[27] == Dword4(org)[1];
  }

  lemma Halves(x: Dword)
    ensures Dword4(x)[0] as int + 0x100 * Dword4(x)[1] as int == x % 0x1_0000 && Dword4(x)[2] as int + 0x100 * Dword4(x)[3] as int == x / 0x1_0000
  {
    FatTable.LowTwo(x);
    FatTable.LowThree(x);
    LowByte(x / 0x1_0000);
  }

  /** The FSInfo sector: two signatures, the counters at 488 and 492, and the mark at its end. */
  lemma InfoLayout(free: Dword, last: Dword)
    ensures var s := InfoSector(free, last);
            && LittleEndianValue(s[0..4]) == 0x4161_5252 && LittleEndianValue(s[484..488]) == 0x6141_7272
            && LittleEndianValue(s[488..492]) == free && LittleEndianValue(s[492..496]) == last
            && LittleEndianValue(s[510..512]) == 0xAA55
            && forall i :: 4 <= i < 510 && !(484 <= i < 496) ==> s[i] == 0
  {
    hide LittleEndianValue, LoadDword;
    var s := InfoSector(free, last);
    assert s[0..4] == Dword4(LEAD_SIGNATURE) && s[484..488] == Dword4(STRUCT_SIGNATURE);
    assert s[488..492] == Dword4(free) && s[492..496] == Dword4(last);
    DwordRoundTrip(s, 0, LEAD_SIGNATURE);
    DwordRoundTrip(s, 484, STRUCT_SIGNATURE);
    DwordRoundTrip(s, 488, free);
    DwordRoundTrip(s, 492, last);
    LowDword(s, 0);
    LowDword(s, 484);
    LowDword(s, 488);
    LowDword(s, 492);
    LowTwo(s, 510);
  }

  /** What mounting takes from it. */
  lemma InfoRead(s: Sector)
    ensures var right := LittleEndianValue(s[510..512]) == 0xAA55 && LittleEndianValue(s[0..4]) == 0x4161_5252
                         && LittleEndianValue(s[484..488]) == 0x6141_7272;
            && (ReadInfo(s).Counters? <==> right)
            && (right ==> ReadInfo(s).free == LittleEndianValue(s[488..492]) && ReadInfo(s).last == LittleEndianValue(s[492..496]))
  {
    hide LittleEndianValue, LoadDword;
    LowTwo(s, 510);
    LowDword(s, 0);
    LowDword(s, 484);
    LowDword(s, 488);
    LowDword(s, 492);
  }

  // ---------------------------------------------------------------- what is kept

  /** The copies agree: sector s of the FAT is the same in each. */
  lemma MirroredIs(g: Geometry, d: seq<Sector>, s: nat, k: nat)
    requires g.Valid() && |d| == g.sectors && s < g.sectsFat && k < g.nFats
    ensures Mirrored(g, d) ==> g.fatbase + s + k * g.sectsFat < |d| && d[g.fatbase + s + k * g.sectsFat] == d[g.fatbase + s]
  {
    if Mirrored(g, d) { assert g.CopyAt(g.fatbase + s, k) == g.fatbase + s + k * g.sectsFat; }
  }

  /** Outside a chain nothing changes: reserved and directory sectors, and the entry and the sectors of
      every other cluster in use. */
  lemma OthersKeptIs(g: Geometry, v: seq<Sector>, v': seq<Sector>, ch: seq<nat>, t: nat, c: nat, j: nat)
    requires g.Valid() && |v| == |v'| == g.sectors && OthersKept(g, v, v', ch) && t < g.sectors && j < g.csize
    ensures t < g.fatbase || g.fatbase + g.nFats * g.sectsFat <= t < g.database ==> v'[t] == v[t]
    ensures 2 <= c < g.maxClust && Fat(g, v)[c] != 0 && c !in ch ==>
              var s := g.database + (c - 2) * g.csize + j;
              Fat(g, v')[c] == Fat(g, v)[c] && 0 <= s < g.sectors && v'[s] == v[s]
  {
    hide Fat, Mirrored, Geometry.Valid;
    if 2 <= c < g.maxClust && Fat(g, v)[c] != 0 && c !in ch {
      assert ClusterKept(g, v, v', c);
      DataSectorInside(g, c, j);
    }
  }

  /** Every other file, apart from the chain and from the directory sector s, keeps its links and bytes. */
  lemma FilesKeptIs(g: Geometry, v: seq<Sector>, v': seq<Sector>, ch: seq<nat>, s: nat, other: seq<nat>, k: nat, j: nat)
    requires g.Valid() && |v| == |v'| == g.sectors && FatSession.FilesKept(g, v, v', ch, s)
    requires IsChain(Fat(g, v), other) && (forall c :: c in other ==> c !in ch) && k < |other| && j < g.csize
    requires forall c :: c in other ==> s < g.database + (c - 2) * g.csize || g.database + (c - 1) * g.csize <= s
    ensures 2 <= other[k] < g.maxClust
    ensures k + 1 < |other| ==> Fat(g, v')[other[k]] == Fat(g, v)[other[k]] == other[k + 1]
    ensures var t := g.database + (other[k] - 2) * g.csize + j; 0 <= t < g.sectors && v'[t] == v[t]
  {
    hide Fat, IsChain, Geometry.Valid, FatSession.SameFile;
    assert FatSession.SameFile(g, v, v', other);
    SameFileIs(g, v, v', other, k, j);
  }

  lemma SameFileIs(g: Geometry, v: seq<Sector>, v': seq<Sector>, ch: seq<nat>, k: nat, j: nat)
    requires g.Valid() && |v| == |v'| == g.sectors && FatSession.SameFile(g, v, v', ch) && k < |ch| && j < g.csize
    ensures 2 <= ch[k] < g.maxClust
    ensures k + 1 < |ch| ==> Fat(g, v')[ch[k]] == Fat(g, v)[ch[k]] == ch[k + 1]
    ensures var t := g.database + (ch[k] - 2) * g.csize + j; 0 <= t < g.sectors && v'[t] == v[t]
  {
    hide Fat, IsChain, Geometry.Valid, Clusters, Sectors;
    LinkInRange(g, ch, k);
    Link(Fat(g, v), ch, k);
    Link(Fat(g, v'), ch, k);
    FileSectorOf(g, v, ch, k, j);
    FileSectorOf(g, v', ch, k, j);
  }

  /** Sector j of the k-th cluster of a chain. */
  lemma FileSectorOf(g: Geometry, v: seq<Sector>, ch: seq<nat>, k: nat, j: nat)
    requires g.Valid() && |v| == g.sectors && Clusters(g, ch) && k < |ch| && j < g.csize
    ensures 2 <= ch[k] < g.maxClust && k * g.csize + j < |Sectors(g, v, ch)|
    ensures var t := g.database + (ch[k] - 2) * g.csize + j; 0 <= t < g.sectors && Sectors(g, v, ch)[k * g.csize + j] == v[t]
  {
    hide Geometry.Valid, Geometry.ClusterOf, Geometry.SectorOf, Geometry.SectorsIn, Sectors;
    var n := k * g.csize + j;
    LinkInRange(g, ch, k);
    Join(g, n, k, j);
    InChain(g, n, |ch|);
    SectorAt(g, v, ch, n);
  }

  lemma ZerosIs(i: nat)
    requires i < 512
    ensures Zeros()[i] == 0
  {
  }

  /** A chain: clusters of the table, each linked to the next, the last to none. */
  lemma ChainIs(t: seq<nat>, ch: seq<nat>)
    ensures IsChain(t, ch)
            <==> |ch| > 0 && (forall i :: 0 <= i < |ch| ==> 2 <= ch[i] < |t|) && t[ch[|ch| - 1]] >= |t|
                 && forall i :: 0 <= i < |ch| - 1 ==> t[ch[i]] == ch[i + 1]
  {
    if IsChain(t, ch) {
      forall i | 0 <= i < |ch| - 1 ensures t[ch[i]] == ch[i + 1] { Link(t, ch, i); }
    }
  }
}
