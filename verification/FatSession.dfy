/** What a sequence of calls on files does: write, synchronise, seek and read back. */
module FatSession {
  import opened Arithmetic
  import opened FatTypes
  import opened SectorWindow
  import opened FatTable
  import opened ClusterChains
  import opened FileBytes
  import opened FatVolume
  import opened FatFile

  /** Sector s belongs to the root directory or to a cluster in use outside ch. */
  ghost predicate Apart(g: Geometry, v: seq<Sector>, ch: seq<nat>, s: nat)
    requires g.Valid() && |v| == g.sectors
  {
    && g.CopiesEnd() <= s < g.sectors
    && (s < g.database ||
        exists c, j :: InRange(Fat(g, v), c) && Fat(g, v)[c] != 0 && c !in ch && 0 <= j < g.csize && s == DataSector(g, c, j))
  }

  lemma ApartKept(g: Geometry, v: seq<Sector>, v': seq<Sector>, ch: seq<nat>, ch': seq<nat>, s: nat)
    requires g.Valid() && |v| == |v'| == g.sectors
    requires Apart(g, v, ch, s) && OthersKept(g, v, v', ch) && Grown(Fat(g, v), ch, ch')
    ensures Apart(g, v', ch', s)
  {
    if s >= g.database {
      var c, j :| InRange(Fat(g, v), c) && Fat(g, v)[c] != 0 && c !in ch && 0 <= j < g.csize && s == DataSector(g, c, j);
      KeptEntry(g, v, v', ch, c);
      GrownFrom(Fat(g, v), ch, ch', c);
    }
  }

  lemma GrownFrom(t: seq<nat>, ch: seq<nat>, ch': seq<nat>, c: nat)
    requires Grown(t, ch, ch')
    ensures c in ch' ==> c in ch || (InRange(t, c) && t[c] == 0)
  {
    if c in ch' {
      var k := Position(ch', c);
      if k < |ch| { assert ch[k] == c; }
    }
  }

  lemma ApartFromSectors(g: Geometry, v: seq<Sector>, ch: seq<nat>, s: nat, n: nat)
    requires g.Valid() && |v| == g.sectors && Apart(g, v, ch, s) && Clusters(g, ch) && n < g.SectorsIn(|ch|)
    ensures g.ClusterOf(n) < |ch| && FileSector(g, ch, n) != s
  {
    hide Geometry.ClusterOf, Geometry.SectorOf, Geometry.SectorsIn;
    FileSectorInside(g, ch, n);
    Split(g, n);
    if s >= g.database {
      var c, j :| InRange(Fat(g, v), c) && Fat(g, v)[c] != 0 && c !in ch && 0 <= j < g.csize && s == DataSector(g, c, j);
      var d := ch[g.ClusterOf(n)];
      assert d in ch;
      if FileSector(g, ch, n) == s {
        DataSectorDistinct(g, c, j, d, g.SectorOf(n));
      }
    }
  }

  /** Changing a sector apart from the file, and reserved sectors, leaves the file alone. */
  lemma ApartChange(g: Geometry, v: seq<Sector>, v': seq<Sector>, ch: seq<nat>, s: nat)
    requires g.Valid() && |v| == |v'| == g.sectors && Apart(g, v, ch, s) && Clusters(g, ch)
    requires forall t :: g.fatbase <= t < g.sectors && t != s ==> v'[t] == v[t]
    ensures Sectors(g, v', ch) == Sectors(g, v, ch)
  {
    hide Geometry.ClusterOf, Geometry.SectorOf, Geometry.SectorsIn;
    forall n | 0 <= n < g.SectorsIn(|ch|)
      ensures Sectors(g, v', ch)[n] == Sectors(g, v, ch)[n]
    {
      FileSectorInside(g, ch, n);
      ApartFromSectors(g, v, ch, s, n);
    }
  }

  lemma ApartInside(g: Geometry, v: seq<Sector>, ch: seq<nat>, s: nat)
    requires g.Valid() && |v| == g.sectors && Apart(g, v, ch, s)
    ensures g.CopiesEnd() <= s < g.sectors
  {
  }

  // ---------------------------------------------------------------- other files

  /** Sector s belongs to a cluster of ch. */
  ghost predicate HasSector(g: Geometry, ch: seq<nat>, s: nat) {
    exists c, j :: c in ch && 2 <= c && 0 <= j < g.csize && s == DataSector(g, c, j)
  }

  /** The file on a chain is what it was: its links, and every byte. */
  ghost predicate SameFile(g: Geometry, v: seq<Sector>, v': seq<Sector>, ch: seq<nat>)
    requires g.Valid() && |v| == |v'| == g.sectors
  {
    IsChain(Fat(g, v), ch) && IsChain(Fat(g, v'), ch) && Clusters(g, ch) && Sectors(g, v', ch) == Sectors(g, v, ch)
  }

  /** Every file on a chain apart from ch and from sector s is what it was. */
  ghost predicate FilesKept(g: Geometry, v: seq<Sector>, v': seq<Sector>, ch: seq<nat>, s: nat)
    requires g.Valid() && |v| == |v'| == g.sectors
  {
    forall other: seq<nat> :: IsChain(Fat(g, v), other) && !Meet(ch, other) && !HasSector(g, other, s) ==> SameFile(g, v, v', other)
  }

  /** A change outside the chain ch, and then of sector s and the reserved sectors. */
  lemma KeptThenOne(g: Geometry, v: seq<Sector>, v1: seq<Sector>, v': seq<Sector>, ch: seq<nat>, s: nat)
    requires g.Valid() && |v| == |v1| == |v'| == g.sectors && OthersKept(g, v, v1, ch) && Fat(g, v') == Fat(g, v1)
    requires forall t :: g.fatbase <= t < g.sectors && t != s ==> v'[t] == v1[t]
    ensures FilesKept(g, v, v', ch, s)
  {
    hide Fat, Sectors, OthersKept, IsChain, Meet, HasSector, Geometry.Valid;
    forall other: seq<nat> | IsChain(Fat(g, v), other) && !Meet(ch, other) && !HasSector(g, other, s)
      ensures SameFile(g, v, v', other)
    {
      OtherFileKept(g, v, v1, ch, other);
      SectorChange(g, v1, v', other, s);
    }
  }

  lemma SectorChange(g: Geometry, v: seq<Sector>, v': seq<Sector>, ch: seq<nat>, s: nat)
    requires g.Valid() && |v| == |v'| == g.sectors && Clusters(g, ch) && !HasSector(g, ch, s)
    requires forall t :: g.fatbase <= t < g.sectors && t != s ==> v'[t] == v[t]
    ensures Sectors(g, v', ch) == Sectors(g, v, ch)
  {
    hide Geometry.ClusterOf, Geometry.SectorOf, Geometry.SectorsIn;
    forall n | 0 <= n < g.SectorsIn(|ch|)
      ensures Sectors(g, v', ch)[n] == Sectors(g, v, ch)[n]
    {
      FileSectorInside(g, ch, n);
      Split(g, n);
      assert ch[g.ClusterOf(n)] in ch;
    }
  }

  // ---------------------------------------------------------------- sessions

  /** A write followed by a synchronisation leaves the window clean. The write fails only on a table
      with an entry of 1. */
  method WriteSync(f: File, d: seq<Byte>, time: Dword) returns (res: FResult, bw: nat)
    requires f.Valid() && f.Usable() && f.canWrite && |d| < DWORD_LIMIT
    requires f.dirPtr + ENTRY_SIZE <= SECTOR_SIZE && Apart(f.fs.g, f.fs.View(), f.chain, f.dirSect)
    modifies f, f.fs, f.fs.win
    ensures f.fs.Valid() && f.canRead == old(f.canRead) && f.canWrite
    ensures res == FrOk || (res == FrIntErr && !NoOnes(old(f.fs.Table())) && OthersKept(f.fs.g, old(f.fs.View()), f.fs.View(), old(f.chain)))
    ensures res.FrOk? ==> f.Valid() && f.Usable() && !f.fs.wflag
    ensures res.FrOk? ==> bw == old(f.Taken(|d|)) && bw <= |d|
    ensures res.FrOk? ==> f.Bytes() == Splice(old(f.Bytes()), old(f.fptr), d[..bw])
    ensures res.FrOk? ==> f.fptr == old(f.fptr) + bw && f.fsize >= f.fptr
    ensures res.FrOk? && old(f.fsize) + |d| >= 0x1_0000_0000 ==> bw == 0
    ensures res.FrOk? && old(f.fsize) + |d| < 0x1_0000_0000 && bw < |d| ==>
              FreeCount(f.fs.Table()) == 0 && old(f.fptr) + bw == f.fs.g.SectorsIn(|f.chain|) * SECTOR_SIZE
    ensures res.FrOk? ==> f.fsize == if old(f.fptr) + bw > old(f.fsize) then old(f.fptr) + bw else old(f.fsize)
    ensures res.FrOk? ==> f.dirPtr == old(f.dirPtr) && f.dirSect == old(f.dirSect) < f.fs.g.sectors
    ensures res.FrOk? ==> EntrySize(f.fs.View()[f.dirSect], f.dirPtr) == f.fsize
    ensures res.FrOk? ==> EntryCluster(f.fs.View()[f.dirSect], f.dirPtr) == f.orgClust
    ensures res.FrOk? ==> FilesKept(f.fs.g, old(f.fs.View()), f.fs.View(), old(f.chain), f.dirSect)
  {
    hide FreeCount, EntrySize, NewEntry;
    hide Patch, OnlyFat, Mirrored, Fat, Sectors, Content, OthersKept, FilesKept, IsChain, Grown, Apart, Volume.View, Volume.Shape, Volume.Coherent;
    hide Geometry.CopyAt, Geometry.DataEnd, Geometry.ClusterOf, Geometry.SectorOf, Geometry.SectorsIn, Clusters, File.Placed, NoOnes, Splice;
    ghost var g, v, ch: seq<nat> := f.fs.g, f.fs.View(), f.chain;
    res, bw := f.Write(d);
    if res != FrOk { return; }
    ApartKept(g, v, f.fs.View(), ch, f.chain, f.dirSect);
    ApartInside(g, f.fs.View(), f.chain, f.dirSect);
    ghost var v1, b := f.fs.View(), f.Bytes();
    OrgInRange(g, f.fs.Table(), f.orgClust, f.chain);
    res := f.SyncFile(time);
    ApartChange(g, v1, f.fs.View(), f.chain, f.dirSect);
    assert f.Bytes() == b;
    KeptThenOne(g, v, v1, f.fs.View(), ch, f.dirSect);
  }

  /** A write, a synchronisation, a seek back and a read: the read returns what was written. */
  method WriteSyncRead(f: File, d: seq<Byte>, time: Dword) returns (res: FResult, bw: nat, data: seq<Byte>)
    requires f.Valid() && f.Usable() && f.canRead && f.canWrite && |d| < DWORD_LIMIT
    requires ShortcutRight(f.fs.g, f.fptr + f.Taken(|d|), f.fptr)
    requires f.dirPtr + ENTRY_SIZE <= SECTOR_SIZE && Apart(f.fs.g, f.fs.View(), f.chain, f.dirSect)
    modifies f, f.fs, f.fs.win
    ensures f.fs.Valid()
    ensures res == FrOk || (res == FrIntErr && !NoOnes(old(f.fs.Table())) && OthersKept(f.fs.g, old(f.fs.View()), f.fs.View(), old(f.chain)))
    ensures res.FrOk? ==> f.Valid() && bw == old(f.Taken(|d|)) && bw <= |d|
    ensures res.FrOk? ==> data == d[..bw]
    ensures res.FrOk? ==> f.Bytes() == Splice(old(f.Bytes()), old(f.fptr), d[..bw])
    ensures res.FrOk? ==> f.fptr == old(f.fptr) + bw
    ensures res.FrOk? && old(f.fsize) + |d| >= 0x1_0000_0000 ==> bw == 0
    ensures res.FrOk? && old(f.fsize) + |d| < 0x1_0000_0000 && bw < |d| ==>
              FreeCount(f.fs.Table()) == 0 && old(f.fptr) + bw == f.fs.g.SectorsIn(|f.chain|) * SECTOR_SIZE
    ensures res.FrOk? ==> f.fsize == if old(f.fptr) + bw > old(f.fsize) then old(f.fptr) + bw else old(f.fsize)
    ensures res.FrOk? ==> f.dirPtr == old(f.dirPtr) && f.dirSect == old(f.dirSect) < f.fs.g.sectors
    ensures res.FrOk? ==> EntrySize(f.fs.View()[f.dirSect], f.dirPtr) == f.fsize
    ensures res.FrOk? ==> EntryCluster(f.fs.View()[f.dirSect], f.dirPtr) == f.orgClust
    ensures res.FrOk? ==> FilesKept(f.fs.g, old(f.fs.View()), f.fs.View(), old(f.chain), f.dirSect)
  {
    hide Patch, OnlyFat, Mirrored, Fat, Sectors, Content, OthersKept, FilesKept, IsChain, Grown, Apart, Volume.View, Volume.Shape, Volume.Coherent;
    hide Geometry.CopyAt, Geometry.DataEnd, Geometry.ClusterOf, Geometry.SectorOf, Geometry.SectorsIn, Clusters, File.Placed, NoOnes, ShortcutRight;
    var p := f.fptr;
    data := [];
    res, bw := WriteSync(f, d, time);
    if res != FrOk { return; }
    f.RoomBound();
    res := f.Seek(p);
    res, data := f.Read(bw);
  }

  /** Opening the directory entry of a file that was synchronised gives the same file. */
  method SyncReopen(f: File, time: Dword, read: bool, write: bool) returns (f': File)
    requires f.Valid() && f.Usable() && f.written
    requires f.dirPtr + ENTRY_SIZE <= SECTOR_SIZE && Apart(f.fs.g, f.fs.View(), f.chain, f.dirSect)
    modifies f`written, f.fs`disk, f.fs`winsect, f.fs`wflag, f.fs`fsiFlag, f.fs.win
    ensures f.Valid() && f.Bytes() == old(f.Bytes())
    ensures fresh(f') && f'.fs == f.fs && f'.Valid() && f'.fptr == 0 && f'.Usable()
    ensures f'.Bytes() == old(f.Bytes())
  {
    hide DataSector, EntryCluster, EntrySize, NewEntry, InfoSector, Volume.CountRight;
    hide Patch, OnlyFat, Mirrored, Fat, Sectors, Content, OthersKept, IsChain, Grown, Apart, Volume.View, Volume.Shape, Volume.Coherent;
    hide Geometry.CopyAt, Geometry.DataEnd, Geometry.ClusterOf, Geometry.SectorOf, Geometry.SectorsIn, Clusters, File.Placed;
    ghost var g, v := f.fs.g, f.fs.View();
    ApartInside(g, v, f.chain, f.dirSect);
    FatInside(g);
    OrgInRange(g, f.fs.Table(), f.orgClust, f.chain);
    var _ := f.SyncFile(time);
    ApartChange(g, v, f.fs.View(), f.chain, f.dirSect);
    f.fs.MoveWindow(f.dirSect);
    f' := new File.Open(f.fs, f.dirPtr, read, write, false, f.chain);
  }

  /** Mounting the medium of a volume that was synchronised, and opening the directory entry there,
      gives the same file; the counters, if they were recorded, are those of the volume. */
  method SyncRemount(f: File, time: Dword, mountId: nat, lastKnown: Dword) returns (fs': Volume, f': File)
    requires f.Valid() && f.Usable() && f.written
    requires f.dirPtr + ENTRY_SIZE <= SECTOR_SIZE && Apart(f.fs.g, f.fs.View(), f.chain, f.dirSect)
    modifies f`written, f.fs`disk, f.fs`winsect, f.fs`wflag, f.fs`fsiFlag, f.fs.win
    ensures fresh(fs') && fs'.Valid() && fs'.g == f.fs.g && fs'.disk == f.fs.disk && fs'.View() == fs'.disk
    ensures f.fs.Valid() && f.fs.View() == f.fs.disk
    ensures fresh(f') && f'.fs == fs' && f'.Valid() && f'.fptr == 0 && f'.Usable()
    ensures f'.Bytes() == old(f.Bytes())
    ensures f.fs.g.fsType.Fat32? && old(f.fs.fsiFlag) ==> fs'.freeClust == f.fs.freeClust && fs'.lastClust == f.fs.lastClust
  {
    hide FreeCount, EntryCluster, EntrySize, NewEntry;
    hide Patch, OnlyFat, Mirrored, Fat, Sectors, Content, OthersKept, IsChain, Grown, Apart, InfoSector, ReadInfo;
    hide Volume.View, Volume.Shape, Volume.Coherent;
    hide Geometry.CopyAt, Geometry.DataEnd, Geometry.ClusterOf, Geometry.SectorOf, Geometry.SectorsIn, Clusters, File.Placed;
    ghost var g, v := f.fs.g, f.fs.View();
    ApartInside(g, v, f.chain, f.dirSect);
    FatInside(g);
    OrgInRange(g, f.fs.Table(), f.orgClust, f.chain);
    var _ := f.SyncFile(time);
    ApartChange(g, v, f.fs.View(), f.chain, f.dirSect);
    var counters := if f.fs.g.fsType.Fat32? then ReadInfo(f.fs.disk[f.fs.g.fsiSector]) else Unreadable;
    InfoRoundTrip(f.fs.freeClust, f.fs.lastClust);
    fs' := new Volume(f.fs.g, mountId, f.fs.disk,
                      if counters.Counters? then counters.last else lastKnown, if counters.Counters? then counters.free else FREE_UNKNOWN);
    fs'.MoveWindow(f.dirSect);
    f' := new File.Open(fs', f.dirPtr, true, true, false, f.chain);
  }

  /** The sector of its cluster that holds byte x of the file. */
  function SectorOfByte(g: Geometry, x: nat): nat
    requires 1 <= g.csize
  {
    (x % (g.csize * SECTOR_SIZE)) / SECTOR_SIZE
  }

  /** The file pointer determines the position. */
  lemma PositionFormula(f: File)
    requires f.Valid() && f.fptr > 0
    ensures ClusterAt(f.fs.g, f.fptr - 1) < |f.chain|
    ensures f.currClust == f.chain[ClusterAt(f.fs.g, f.fptr - 1)]
    ensures f.csect == SectorOfByte(f.fs.g, f.fptr - 1) + 1
    ensures f.fptr % SECTOR_SIZE != 0 ==>
              2 <= f.currClust && f.dsect == DataSector(f.fs.g, f.currClust, SectorOfByte(f.fs.g, f.fptr))
              && ClusterAt(f.fs.g, f.fptr) == ClusterAt(f.fs.g, f.fptr - 1)
  {
    hide Geometry.ClusterOf, Geometry.SectorOf, Geometry.SectorsIn, Volume.View, Volume.Shape, Volume.Coherent, Fat, IsChain, Clusters;
    hide ClusterAt, SectorOfByte;
    BytePosition(f.fs.g, f.fptr - 1);
    BytePosition(f.fs.g, f.fptr);
    LinkInRange(f.fs.g, f.chain, f.fs.g.ClusterOf((f.fptr - 1) / SECTOR_SIZE));
    if f.fptr % SECTOR_SIZE != 0 {
      Quotient(f.fptr - 1, SECTOR_SIZE, f.fptr / SECTOR_SIZE, f.fptr % SECTOR_SIZE - 1);
    }
  }

  lemma BytePosition(g: Geometry, x: nat)
    requires g.Valid()
    ensures ClusterAt(g, x) == g.ClusterOf(x / SECTOR_SIZE) && SectorOfByte(g, x) == g.SectorOf(x / SECTOR_SIZE)
  {
    hide Geometry.ClusterOf, Geometry.SectorOf;
    var m := x / SECTOR_SIZE;
    Split(g, m);
    ByteQuotient(g, x, g.ClusterOf(m), g.SectorOf(m), x % SECTOR_SIZE);
  }

  lemma ByteQuotient(g: Geometry, x: nat, q: nat, r: nat, k: nat)
    requires g.Valid() && r < g.csize && k < SECTOR_SIZE && x == (q * g.csize + r) * SECTOR_SIZE + k
    ensures x / (g.csize * SECTOR_SIZE) == q && (x % (g.csize * SECTOR_SIZE)) / SECTOR_SIZE == r
  {
    assert (q * g.csize) * SECTOR_SIZE == q * (g.csize * SECTOR_SIZE);
    Quotient(x, g.csize * SECTOR_SIZE, q, r * SECTOR_SIZE + k);
    Quotient(r * SECTOR_SIZE + k, SECTOR_SIZE, r, k);
  }

  /** However a position was reached, by the shortcut from the current cluster, by walking
      from the first, by reading or by writing, the file stands the same. */
  lemma SamePosition(f: File, f': File)
    requires f.Valid() && f'.Valid() && f.fs == f'.fs && f.orgClust == f'.orgClust && f.fptr == f'.fptr
    ensures f.chain == f'.chain
    ensures f.csect == f'.csect
    ensures f.fptr > 0 ==> f.currClust == f'.currClust
    ensures f.fptr % SECTOR_SIZE != 0 ==> f.dsect == f'.dsect
  {
    hide Volume.View, Volume.Shape, Volume.Coherent, Fat, IsChain, Geometry.ClusterOf, Geometry.SectorOf, Geometry.SectorsIn;
    if f.orgClust != 0 { ChainUnique(f.fs.Table(), f.chain, f'.chain); }
  }

  const SMALL: Geometry := Geometry(Fat16, 1, 1, 1, 3, 1, 3, 0, 4)

  /** A reserved sector, one FAT sector that ends the chain of cluster 2, one directory
      sector with a file of 512 bytes on cluster 2, and that cluster. */
  function SmallMedium(): (r: seq<Sector>)
    ensures |r| == 4
  {
    [Zeros(), Overwrite(Zeros(), 4, [0xFF, 0xFF]), Overwrite(Zeros(), 26, [2, 0, 0, 2]), Zeros()]
  }

  lemma SmallValid()
    ensures SMALL.Valid() && SMALL.FatEnd() == 2 && SMALL.CopiesEnd() == 2
  {
    assert SMALL.DataEnd() == 4;
    assert SMALL.CopiesEnd() == 2;
  }

  lemma SmallChain()
    requires SMALL.Valid()
    ensures FileChain(SMALL, Fat(SMALL, SmallMedium()), 2, [2]) && NoOnes(Fat(SMALL, SmallMedium()))
  {
    var v := SmallMedium();
    hide Geometry.Valid;
    assert SMALL.EntryOffset(2) == 4;
    FatByteAt(SMALL, v, 4);
    FatByteAt(SMALL, v, 5);
    assert v[1][4] == 0xFF && v[1][5] == 0xFF;
    assert Fat(SMALL, v)[2] == EntryOf(SMALL, FatBytes(SMALL, v), 2) == 0xFFFF;
  }

  lemma SmallEntry()
    ensures EntryCluster(SmallMedium()[2], 0) == 2 && EntrySize(SmallMedium()[2], 0) == SECTOR_SIZE
    ensures SmallMedium()[3][0] == 0
  {
  }

  lemma OneSector(g: Geometry)
    requires g.csize == 1 && g.database == 3
    ensures g.SectorsIn(1) == 1 && g.ClusterOf(0) == 0 && g.SectorOf(0) == 0
    ensures DataSector(g, 2, 0) == 3 && FileSector(g, [2], 0) == 3
  {
  }

  /** A file of one sector, sector 3, opened. */
  method OpenSmall(g: Geometry, v: seq<Sector>) returns (f: File)
    requires g.Valid() && g.CopiesEnd() <= 3 && g.FatEnd() <= 3 && g.csize == 1 && g.database == 3 && |v| == g.sectors == 4
    requires FileChain(g, Fat(g, v), 2, [2]) && EntryCluster(v[2], 0) == 2 && EntrySize(v[2], 0) == SECTOR_SIZE
    ensures fresh(f) && fresh(f.fs) && fresh(f.fs.win) && f.fs.g == g
    ensures f.Valid() && f.Usable() && f.canRead && f.canWrite && f.chain == [2] && f.fptr == 0 && f.fsize == SECTOR_SIZE
    ensures !f.fs.wflag && f.fs.disk == v && f.fs.Table() == Fat(g, v)
  {
    hide Patch, Fat, Sectors, Content, IsChain;
    hide Geometry.ClusterOf, Geometry.SectorOf, Geometry.SectorsIn, Geometry.CopyAt, Geometry.DataEnd;
    OneSector(g);
    var fs := new Volume(g, 7, v, 0, FREE_UNKNOWN);
    fs.MoveWindow(2);
    f := new File.Open(fs, 0, true, true, false, [2]);
  }

  /** A byte written to the start of the file, and the pointer put back. */
  method WriteFirst(f: File)
    requires f.Valid() && f.Usable() && f.canRead && f.canWrite && f.chain == [2] && f.fptr == 0 && f.fsize == SECTOR_SIZE
    requires f.fs.g.csize == 1 && f.fs.g.database == 3 && !f.fs.wflag && NoOnes(f.fs.Table())
    modifies f, f.fs, f.fs.win
    ensures f.Valid() && f.Usable() && f.canRead && f.chain == [2] && f.fptr == 0 && f.fsize == SECTOR_SIZE
    ensures f.fs.wflag && f.fs.winsect == 3 && f.fs.disk == old(f.fs.disk) && f.Bytes()[0] == 1
  {
    hide Patch, Fat, Sectors, Content, IsChain, Volume.View, Volume.Shape, Volume.Coherent, OthersKept;
    hide Geometry.ClusterOf, Geometry.SectorOf, Geometry.SectorsIn, Geometry.CopyAt, Geometry.DataEnd;
    OneSector(f.fs.g);
    f.RoomBound();
    var res, bw := f.Write([1]);
    res := f.Seek(0);
  }

  method ReadWaiting(f: File) returns (data: seq<Byte>, ghost content: seq<Byte>)
    requires f.Valid() && f.Usable() && f.canRead && f.chain == [2] && f.fptr == 0 && f.fsize == SECTOR_SIZE
    requires f.fs.g.csize == 1 && f.fs.g.database == 3 && f.fs.g.CopiesEnd() <= 3 < f.fs.g.sectors
    requires f.fs.wflag && f.fs.winsect == 3 && f.Bytes()[0] != f.fs.disk[3][0]
    modifies f, f.fs, f.fs.win
    ensures |data| == |content| == SECTOR_SIZE && content == old(f.Bytes()) && data != content
  {
    hide Patch, Fat, IsChain, Volume.View, Volume.Shape, Volume.Coherent;
    hide Geometry.ClusterOf, Geometry.SectorOf, Geometry.SectorsIn, Geometry.CopyAt, Geometry.DataEnd;
    OneSector(f.fs.g);
    content := f.Bytes();
    f.fs.ViewAt(3);
    assert content[0] == f.fs.win[0];
    var res;
    res, data := f.Read(SECTOR_SIZE);
  }

  /** A file is opened, one byte written, the pointer put back, and the whole sector read: what comes
      back is not the file, whose first byte still waits in the window. */
  method StaleReadExample() returns (data: seq<Byte>, ghost content: seq<Byte>)
    ensures |data| == |content| == SECTOR_SIZE && content[0] == 1 && data != content
  {
    hide Patch, Fat, Sectors, Content, IsChain, Volume.View, Volume.Shape, Volume.Coherent, Geometry.Valid, SmallMedium, Zeros;
    hide Geometry.ClusterOf, Geometry.SectorOf, Geometry.SectorsIn, Geometry.CopyAt, Geometry.DataEnd;
    SmallValid();
    SmallChain();
    SmallEntry();
    var f := OpenSmall(SMALL, SmallMedium());
    WriteFirst(f);
    data, content := ReadWaiting(f);
  }
}
