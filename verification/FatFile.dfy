/** Open files: reading, writing and seeking through the window and past it. */
module FatFile {
  import opened Arithmetic
  import opened FatTypes
  import opened SectorWindow
  import opened FatTable
  import opened ClusterChains
  import opened FileBytes
  import opened FatVolume

  const NO_SECTOR := 255

  const ENTRY_SIZE := 32
  const DIR_ATTR := 11
  const DIR_CLUSTER_HI := 20
  const DIR_WRITE_TIME := 22
  const DIR_CLUSTER_LO := 26
  const DIR_FILE_SIZE := 28

  /** The first cluster and the size a directory entry at ptr records. */
  function EntryCluster(w: seq<Byte>, ptr: nat): nat
    requires ptr + ENTRY_SIZE <= |w|
  {
    var l0: int, l1: int := w[ptr + DIR_CLUSTER_LO], w[ptr + DIR_CLUSTER_LO + 1];
    var h0: int, h1: int := w[ptr + DIR_CLUSTER_HI], w[ptr + DIR_CLUSTER_HI + 1];
    l0 + 0x100 * l1 + 0x1_0000 * (h0 + 0x100 * h1)
  }

  function EntrySize(w: seq<Byte>, ptr: nat): nat
    requires ptr + ENTRY_SIZE <= |w|
  {
    LoadDword(w, ptr + DIR_FILE_SIZE)
  }

  class File {
    const fs: Volume
    var id: nat
    var canRead: bool
    var canWrite: bool
    var written: bool
    var aborted: bool
    var csect: nat
    var fptr: nat
    var fsize: nat
    var orgClust: nat
    var currClust: nat
    var dsect: nat
    var dirSect: nat
    var dirPtr: nat
    // The clusters of the file, as the table links them.
    ghost var chain: seq<nat>

    /** The last steps of opening a file: the directory entry in the window at ptr names
        its first cluster and its size. */
    constructor Open(volume: Volume, ptr: nat, read: bool, write: bool, changed: bool, ghost ch: seq<nat>)
      requires volume.Valid() && ptr + ENTRY_SIZE <= SECTOR_SIZE
      requires FileChain(volume.g, volume.Table(), EntryCluster(volume.win[..], ptr), ch)
      requires EntrySize(volume.win[..], ptr) <= volume.g.SectorsIn(|ch|) * SECTOR_SIZE
      ensures fs == volume && id == volume.id && Valid() && chain == ch && fptr == 0
      ensures orgClust == EntryCluster(volume.win[..], ptr) && fsize == EntrySize(volume.win[..], ptr)
      ensures canRead == read && canWrite == write && written == changed && !aborted
      ensures dirSect == volume.winsect && dirPtr == ptr
    {
      fs, id := volume, volume.id;
      dirSect, dirPtr := volume.winsect, ptr;
      canRead, canWrite, written, aborted := read, write, changed, false;
      orgClust := EntryCluster(volume.win[..], ptr);
      fsize := EntrySize(volume.win[..], ptr);
      fptr, csect := 0, NO_SECTOR;
      dsect, currClust := 0, 0;
      chain := ch;
    }

    ghost predicate Chained()
      reads this`orgClust, this`chain, fs, fs.win
      requires fs.Shape()
    {
      FileChain(fs.g, fs.Table(), orgClust, chain)
    }

    /** Where the file pointer stands: cluster and sector of the last byte before it, and
        inside a sector the number of that sector on the medium. */
    ghost predicate Placed()
      reads this`csect, this`fptr, this`currClust, this`dsect, this`chain
      requires fs.g.Valid() && Clusters(fs.g, chain)
    {
      var g := fs.g;
      && fptr <= g.SectorsIn(|chain|) * SECTOR_SIZE
      && (fptr == 0 ==> csect == NO_SECTOR)
      && (fptr > 0 ==> At((fptr - 1) / SECTOR_SIZE, 1))
      && (fptr % SECTOR_SIZE != 0 ==> dsect == SectorOnMedium(fptr / SECTOR_SIZE))
    }

    /** The current cluster holds sector n of the file, and csect is its place in the cluster plus d. */
    ghost predicate At(n: nat, d: nat)
      reads this`csect, this`currClust, this`chain
      requires fs.g.Valid()
    {
      && fs.g.ClusterOf(n) < |chain|
      && currClust == chain[fs.g.ClusterOf(n)]
      && csect == fs.g.SectorOf(n) + d
    }

    ghost function SectorOnMedium(n: nat): nat
      reads this`chain
      requires fs.g.Valid() && Clusters(fs.g, chain)
    {
      if fs.g.ClusterOf(n) < |chain| then FileSector(fs.g, chain, n) else 0
    }

    /** What every operation keeps, except that only at rest fptr <= fsize. */
    ghost predicate Going()
      reads this, fs, fs.win
    {
      && fs.Valid()
      && Chained()
      && Placed()
      && fsize <= fs.g.SectorsIn(|chain|) * SECTOR_SIZE
      && fsize < DWORD_LIMIT
    }

    ghost predicate Valid()
      reads this, fs, fs.win
    {
      Going() && fptr <= fsize
    }

    /** The bytes of the file up to size. */
    ghost function BytesTo(size: nat): seq<Byte>
      reads this`chain, fs, fs.win
      requires fs.Shape() && Clusters(fs.g, chain) && size <= fs.g.SectorsIn(|chain|) * SECTOR_SIZE
    {
      Content(Sectors(fs.g, fs.View(), chain), size)
    }

    /** The file, as a string of bytes. */
    ghost function Bytes(): (b: seq<Byte>)
      reads this, fs, fs.win
      requires Valid()
      ensures |b| == fsize
    {
      BytesTo(fsize)
    }

    /** The clusters the file has or can get. */
    ghost function Capacity(): nat
      reads this`chain, fs, fs.win
      requires fs.Valid()
    {
      |chain| + FreeCount(fs.Table())
    }

    // ---------------------------------------------------------------- writing

    /** How far the file reaches while it is written. */
    ghost function Reach(): nat
      reads this`fptr, this`fsize
    {
      if fptr < fsize then fsize else fptr
    }

    /** On a cluster boundary inside the file the current cluster links to the cluster of
        the next sector, or ends the chain. */
    lemma BoundaryCluster() returns (atEnd: bool)
      requires Going() && fptr > 0 && fptr % SECTOR_SIZE == 0 && csect >= fs.g.csize
      ensures InRange(fs.Table(), currClust) && fs.Table()[currClust] >= 2
      ensures var n := fptr / SECTOR_SIZE;
              && fs.g.SectorOf(n) == 0
              && if atEnd
                 then chain != [] && fs.g.ClusterOf(n) == |chain| && currClust == chain[|chain| - 1] && fs.Table()[currClust] >= fs.g.maxClust
                      && fptr == fs.g.SectorsIn(|chain|) * SECTOR_SIZE
                 else fs.g.ClusterOf(n) < |chain| && fs.Table()[currClust] == chain[fs.g.ClusterOf(n)] < fs.g.maxClust
    {
      hide Patch, Fat, Volume.View, Volume.Shape, Volume.Coherent;
      hide Geometry.CopyAt, Geometry.DataEnd, Geometry.ClusterOf, Geometry.SectorOf;
      var m := (fptr - 1) / SECTOR_SIZE;
      NextSector(fs.g, m);
      Split(fs.g, m);
      atEnd := fs.g.ClusterOf(m) + 1 == |chain|;
      assert InRange(fs.Table(), chain[fs.g.ClusterOf(m)]);
      Link(fs.Table(), chain, fs.g.ClusterOf(m));
    }

    /** On a cluster boundary: follow the chain, or stretch it. */
    method NextForWrite() returns (res: FResult, full: bool)
      requires Going() && fptr % SECTOR_SIZE == 0 && csect >= fs.g.csize
      modifies this`orgClust, this`currClust, this`csect, this`chain, this`aborted
      modifies fs`disk, fs`winsect, fs`wflag, fs`fsiFlag, fs`freeClust, fs`lastClust, fs.win
      ensures fs.Valid() && OthersKept(fs.g, old(fs.View()), fs.View(), old(chain))
      ensures res == FrOk || (res == FrIntErr && !NoOnes(old(fs.Table())))
      ensures res.FrIntErr? ==> aborted
      ensures res.FrOk? ==> Chained() && Grown(old(fs.Table()), old(chain), chain) && Capacity() == old(Capacity())
      ensures res.FrOk? ==> Sectors(fs.g, old(fs.View()), old(chain)) <= Sectors(fs.g, fs.View(), chain)
      ensures res.FrOk? && !full ==> At(fptr / SECTOR_SIZE, 0)
      ensures res.FrOk? && full ==>
                && chain == old(chain) && fs.View() == old(fs.View()) && currClust == old(currClust) && csect == old(csect)
                && orgClust == old(orgClust)
                && FreeCount(fs.Table()) == 0 && fptr == fs.g.SectorsIn(|chain|) * SECTOR_SIZE
      ensures res.FrOk? ==> aborted == old(aborted)
      ensures old(fs.CountRight()) ==> fs.CountRight()
      ensures res.FrOk? && fptr < fs.g.SectorsIn(old(|chain|)) * SECTOR_SIZE && !old(fs.wflag) ==>
                !full && chain == old(chain) && !fs.wflag && fs.disk == old(fs.disk)
    {
      hide FileSector, File.Placed, NoOnes;
      hide Patch, OnlyFat, Mirrored, Fat, Sectors, OthersKept, IsChain, Volume.View, Volume.Shape, Volume.Coherent;
      hide Geometry.CopyAt, Geometry.DataEnd, Geometry.ClusterOf, Geometry.SectorOf, Geometry.SectorsIn, Step;
      ghost var g, v, t, ch: seq<nat> := fs.g, fs.View(), fs.Table(), chain;
      OthersKeptNothing(g, v, ch);
      ghost var atEnd := fptr == 0 && orgClust == 0;
      Join(g, 0, 0, 0);
      NoSectors(g);
      if fptr > 0 {
        atEnd := BoundaryCluster();
      }
      var clst: nat;
      full := false;
      if fptr == 0 {
        clst := orgClust;
        if clst == 0 {
          clst := fs.CreateChain(0);
          orgClust := clst;
        }
      } else {
        clst := fs.CreateChain(currClust);
      }
      if clst == 0 {
        FreeBelowBound(t, |t|);
        return FrOk, true;
      }
      if clst == 1 {
        aborted := true;
        return FrIntErr, false;
      }
      if atEnd {
        GrowFile(g, v, fs.View(), old(orgClust), ch, clst, fs.EndMark());
        chain := chain + [clst];
      }
      currClust := clst;
      csect := 0;
      return FrOk, false;
    }

    /** On a sector boundary, with the sector to come in the current cluster. */
    ghost predicate Ready()
      reads this, fs, fs.win
    {
      && fs.Valid()
      && Chained()
      && fptr % SECTOR_SIZE == 0
      && At(fptr / SECTOR_SIZE, 0)
      && fsize <= fs.g.SectorsIn(|chain|) * SECTOR_SIZE
      && fsize < DWORD_LIMIT
    }

    lemma InsideCluster()
      requires Going() && fptr % SECTOR_SIZE == 0 && csect < fs.g.csize
      ensures Ready()
    {
      hide Volume.View, Volume.Shape, Volume.Coherent, IsChain, Fat, Geometry.ClusterOf, Geometry.SectorOf, Geometry.SectorsIn, Clusters;
      NextSector(fs.g, (fptr - 1) / SECTOR_SIZE);
    }

    /** Where the sector to come is on the medium. */
    lemma ReadySector()
      requires Ready()
      ensures var n := fptr / SECTOR_SIZE;
              && n < fs.g.SectorsIn(|chain|)
              && fptr < fs.g.SectorsIn(|chain|) * SECTOR_SIZE
              && csect == fs.g.SectorOf(n) < fs.g.csize
              && fs.Clust2Sect(currClust) + csect == SectorOnMedium(n) == FileSector(fs.g, chain, n)
              && fs.g.CopiesEnd() <= SectorOnMedium(n) < fs.g.sectors
              && fs.Clust2Sect(currClust) != 0
    {
      hide Volume.View, Volume.Shape, Volume.Coherent, IsChain, Fat, Geometry.ClusterOf, Geometry.SectorOf;
      hide Geometry.SectorsIn, Geometry.CopyAt, Geometry.DataEnd;
      var n := fptr / SECTOR_SIZE;
      Split(fs.g, n);
      InChain(fs.g, n, |chain|);
      FileSectorInside(fs.g, chain, n);
      DataAfterFat(fs.g);
      ClusterStart();
    }

    lemma ClusterStart()
      requires fs.g.Valid() && 2 <= currClust < fs.g.maxClust
      ensures fs.Clust2Sect(currClust) == DataSector(fs.g, currClust, 0) && fs.Clust2Sect(currClust) != 0
    {
      hide Geometry.CopyAt, Geometry.DataEnd;
      DataSectorInside(fs.g, currClust, 0);
      ClusterNumber();
    }

    lemma ClusterNumber()
      requires fs.g.Valid() && 2 <= currClust < fs.g.maxClust
      ensures (currClust + DWORD_LIMIT - 2) % DWORD_LIMIT == currClust - 2
    {
    }

    /** Whole sectors that go to the medium past the window. */
    method WriteDirect(d: seq<Byte>) returns (wcnt: nat)
      requires Ready() && |d| >= SECTOR_SIZE
      modifies this`csect, this`fptr, fs`disk, fs`wflag, fs.win
      ensures 1 <= wcnt <= |d| && fptr == old(fptr) + wcnt && Going()
      ensures BytesTo(Reach()) == Splice(old(BytesTo(Reach())), old(fptr), d[..wcnt])
      ensures fs.Table() == old(fs.Table()) && OthersKept(fs.g, old(fs.View()), fs.View(), chain)
    {
      hide Patch, OnlyFat, Mirrored, Fat, Sectors, Content, OthersKept, IsChain, Volume.View, Volume.Shape, Volume.Coherent;
      hide Geometry.CopyAt, Geometry.DataEnd, Geometry.ClusterOf, Geometry.SectorOf, Geometry.SectorsIn, Clusters, Placed;
      ReadySector();
      ghost var n, size := fptr / SECTOR_SIZE, Reach();
      var sect := fs.Clust2Sect(currClust);
      sect := sect + csect;
      var cc := |d| / SECTOR_SIZE;
      if csect + cc > fs.g.csize { cc := fs.g.csize - csect; }
      wcnt := SECTOR_SIZE * cc;
      StoreRun(d, sect, cc, n, size);
      RunSector(fs.g, chain, n, cc - 1);
      csect := csect + cc;
      fptr := fptr + wcnt;
      RunEnd(n + cc - 1);
    }

    /** The transfer of a run of sectors, as the file sees it. */
    method StoreRun(d: seq<Byte>, sect: nat, cc: nat, ghost n: nat, ghost size: nat)
      requires fs.Valid() && Clusters(fs.g, chain) && 1 <= cc && cc * SECTOR_SIZE <= |d|
      requires n < fs.g.SectorsIn(|chain|) && fs.g.SectorOf(n) + cc <= fs.g.csize && sect == SectorOnMedium(n)
      requires n * SECTOR_SIZE <= size <= fs.g.SectorsIn(|chain|) * SECTOR_SIZE
      modifies fs`disk, fs`wflag, fs.win
      ensures fs.Valid() && n + cc <= fs.g.SectorsIn(|chain|)
      ensures fs.Table() == old(fs.Table()) && OthersKept(fs.g, old(fs.View()), fs.View(), chain)
      ensures var p := n * SECTOR_SIZE + cc * SECTOR_SIZE;
              BytesTo(if p < size then size else p) == Splice(old(BytesTo(size)), n * SECTOR_SIZE, d[..cc * SECTOR_SIZE])
    {
      hide Chunk, Splice;
      hide Patch, OnlyFat, Mirrored, Fat, Sectors, Content, OthersKept, Volume.View, Volume.Shape, Volume.Coherent;
      hide Geometry.CopyAt, Geometry.DataEnd, Geometry.ClusterOf, Geometry.SectorOf, Geometry.SectorsIn, Clusters;
      ghost var g, v, ch: seq<nat> := fs.g, fs.View(), chain;
      FileSectorInside(g, ch, n);
      DataAfterFat(g);
      RunInside(g, ch, n, cc);
      fs.DiskWrite(d, sect, cc);
      SectorsRun(g, v, fs.View(), ch, n, cc, sect);
      DataChangeKeeps(g, v, fs.View(), ch, g.ClusterOf(n), g.SectorOf(n), cc);
      PutRun(Sectors(g, v, ch), Sectors(g, fs.View(), ch), n, cc, size, d);
    }

    /** Where the file pointer stands after whole sectors. */
    lemma RunEnd(n: nat)
      requires fs.g.Valid() && Clusters(fs.g, chain) && fptr == (n + 1) * SECTOR_SIZE
      requires n < fs.g.SectorsIn(|chain|) && At(n, 1)
      ensures Placed() && fptr > 0
    {
      hide Geometry.ClusterOf, Geometry.SectorOf, Geometry.SectorsIn, Clusters;
      Quotient(fptr - 1, SECTOR_SIZE, n, SECTOR_SIZE - 1);
      Quotient(fptr, SECTOR_SIZE, n + 1, 0);
    }

    /** The sector that holds the file pointer is in the window, or is to come there. */
    ghost predicate Mid()
      reads this, fs, fs.win
    {
      && fs.Shape()
      && Chained()
      && fsize <= fs.g.SectorsIn(|chain|) * SECTOR_SIZE && fsize < DWORD_LIMIT
      && fptr / SECTOR_SIZE < fs.g.SectorsIn(|chain|)
      && At(fptr / SECTOR_SIZE, 1)
      && dsect == SectorOnMedium(fptr / SECTOR_SIZE)
      && (fs.Coherent() || (fptr % SECTOR_SIZE == 0 && fptr >= fsize && fs.winsect == dsect))
    }

    /** Bytes of one sector, written through the window. */
    method WritePartial(d: seq<Byte>) returns (wcnt: nat)
      requires Mid() && d != []
      modifies this`fptr, fs`disk, fs`winsect, fs`wflag, fs.win
      ensures 1 <= wcnt <= |d| && fptr == old(fptr) + wcnt && Going()
      ensures BytesTo(Reach()) == Splice(old(BytesTo(Reach())), old(fptr), d[..wcnt])
      ensures fs.Table() == old(fs.Table()) && OthersKept(fs.g, old(fs.View()), fs.View(), chain)
      ensures wcnt == |d| || wcnt == SECTOR_SIZE - old(fptr) % SECTOR_SIZE < |d|
      ensures fs.wflag && fs.winsect == dsect && (!old(fs.wflag) ==> fs.disk == old(fs.disk))
    {
      hide Patch, OnlyFat, Mirrored, Fat, Sectors, Content, OthersKept, IsChain, Volume.View, Volume.Shape, Volume.Coherent;
      hide Geometry.CopyAt, Geometry.DataEnd, Geometry.ClusterOf, Geometry.SectorOf, Geometry.SectorsIn, Clusters, Placed;
      ghost var n := fptr / SECTOR_SIZE;
      var k := fptr % SECTOR_SIZE;
      wcnt := SECTOR_SIZE - k;
      if wcnt > |d| { wcnt := |d|; }
      StorePart(d[..wcnt], n, k, Reach());
      fptr := fptr + wcnt;
      PartEnd(n, k + wcnt);
    }

    /** The transfer of part of a sector, as the file sees it. */
    method StorePart(d: seq<Byte>, ghost n: nat, k: nat, ghost size: nat)
      requires fs.Shape() && Clusters(fs.g, chain)
      requires n < fs.g.SectorsIn(|chain|) && dsect == SectorOnMedium(n)
      requires k + |d| <= SECTOR_SIZE && n * SECTOR_SIZE + k <= size <= fs.g.SectorsIn(|chain|) * SECTOR_SIZE
      requires fs.Coherent() || (k == 0 && n * SECTOR_SIZE == size && fs.winsect == dsect)
      modifies fs`disk, fs`winsect, fs`wflag, fs.win
      ensures fs.Valid() && fs.winsect == dsect
      ensures fs.wflag && (!old(fs.wflag) ==> fs.disk == old(fs.disk))
      ensures fs.Table() == old(fs.Table()) && OthersKept(fs.g, old(fs.View()), fs.View(), chain)
      ensures var p := n * SECTOR_SIZE + k;
              BytesTo(if p + |d| < size then size else p + |d|) == Splice(old(BytesTo(size)), p, d)
    {
      hide Patch, OnlyFat, Mirrored, Fat, Content, OthersKept, Volume.View, Volume.Coherent;
      hide Geometry.CopyAt, Geometry.DataEnd, Geometry.ClusterOf, Geometry.SectorOf, Geometry.SectorsIn, Clusters, Splice;
      ghost var g, v, ch: seq<nat> := fs.g, fs.View(), chain;
      FileSectorInside(g, ch, n);
      DataAfterFat(g);
      Split(g, n);
      fs.MoveWindow(dsect);
      fs.StoreInWindow(k, d);
      ghost var w := fs.win[..];
      PatchData(g, v, dsect, w);
      SectorsPut(g, v, ch, n, w);
      DataChangeKeeps(g, v, fs.View(), ch, g.ClusterOf(n), g.SectorOf(n), 1);
      PutSector(Sectors(g, v, ch), n, w, size, k, d);
    }

    /** Where the file pointer stands after bytes of sector n. */
    lemma PartEnd(n: nat, k: nat)
      requires fs.g.Valid() && Clusters(fs.g, chain) && fptr == n * SECTOR_SIZE + k && 1 <= k <= SECTOR_SIZE
      requires n < fs.g.SectorsIn(|chain|) && At(n, 1) && dsect == SectorOnMedium(n)
      ensures Placed() && fptr > 0
    {
      hide Geometry.ClusterOf, Geometry.SectorOf, Geometry.SectorsIn, Clusters;
      Quotient(fptr - 1, SECTOR_SIZE, n, k - 1);
      if k < SECTOR_SIZE {
        Quotient(fptr, SECTOR_SIZE, n, k);
      } else {
        Quotient(fptr, SECTOR_SIZE, n + 1, 0);
      }
    }

    lemma ReachBound()
      requires Going()
      ensures Reach() <= fs.g.SectorsIn(|chain|) * SECTOR_SIZE
    {
    }

    lemma MidSector()
      requires Going() && fptr % SECTOR_SIZE != 0
      ensures Mid()
    {
      hide Volume.View, Volume.Shape, Volume.Coherent, IsChain, Fat, Geometry.ClusterOf, Geometry.SectorOf, Geometry.SectorsIn;
      var n := fptr / SECTOR_SIZE;
      Quotient(fptr - 1, SECTOR_SIZE, n, fptr % SECTOR_SIZE - 1);
      InChain(fs.g, n, |chain|);
    }

    /** On a sector boundary: find the sector to come, and write a window back that shows
        the sector left behind. */
    method Arrive() returns (res: FResult, full: bool)
      requires Going() && fptr % SECTOR_SIZE == 0
      modifies this`orgClust, this`currClust, this`csect, this`chain, this`aborted
      modifies fs`disk, fs`winsect, fs`wflag, fs`fsiFlag, fs`freeClust, fs`lastClust, fs.win
      ensures fs.Valid() && OthersKept(fs.g, old(fs.View()), fs.View(), old(chain))
      ensures res == FrOk || (res == FrIntErr && !NoOnes(old(fs.Table())))
      ensures res.FrIntErr? ==> aborted
      ensures res.FrOk? ==> Grown(old(fs.Table()), old(chain), chain) && Capacity() == old(Capacity()) && aborted == old(aborted)
      ensures res.FrOk? ==> Reach() <= fs.g.SectorsIn(|chain|) * SECTOR_SIZE && Clusters(fs.g, chain)
                            && BytesTo(Reach()) == old(BytesTo(Reach()))
      ensures res.FrOk? && !full ==> Ready()
      ensures res.FrOk? && full ==> Going() && FreeCount(fs.Table()) == 0 && fptr == fs.g.SectorsIn(|chain|) * SECTOR_SIZE
      ensures old(fs.CountRight()) ==> fs.CountRight()
      ensures res.FrOk? && fptr < fs.g.SectorsIn(old(|chain|)) * SECTOR_SIZE && !old(fs.wflag) ==>
                !full && chain == old(chain) && !fs.wflag && fs.disk == old(fs.disk)
    {
      hide Patch, OnlyFat, Mirrored, Fat, Sectors, Content, OthersKept, IsChain, Volume.View, Volume.Shape, Volume.Coherent;
      hide Geometry.CopyAt, Geometry.DataEnd, Geometry.ClusterOf, Geometry.SectorOf, Geometry.SectorsIn, Clusters, Placed;
      ghost var g, v := fs.g, fs.View();
      OthersKeptNothing(g, v, chain);
      FatInside(g);
      ReachBound();
      full := false;
      if csect >= fs.g.csize {
        res, full := NextForWrite();
        if res != FrOk { return; }
        ContentPrefix(Sectors(g, v, old(chain)), Sectors(g, fs.View(), chain), Reach());
        if full {
          return;
        }
      } else {
        InsideCluster();
      }
      if fs.winsect == dsect {
        fs.MoveWindow(0);
      }
      res := FrOk;
    }

    /** n bytes from the file pointer on are inside the file and before the end of a sector. */
    ghost predicate InOneSector(n: nat)
      reads this`fptr, this`fsize
    {
      1 <= n && fptr % SECTOR_SIZE + n < SECTOR_SIZE && fptr + n <= fsize
    }

    /** The current sector waits in the window, and the medium is as it was. */
    ghost predicate Waits(medium: seq<Sector>)
      reads this`dsect, fs`disk, fs`wflag, fs`winsect
    {
      fs.wflag && fs.winsect == dsect && fs.disk == medium
    }

    /** One round of the loop of f_write. */
    method WriteStep(d: seq<Byte>) returns (res: FResult, wcnt: nat)
      requires Going() && d != []
      modifies this`orgClust, this`currClust, this`csect, this`chain, this`aborted, this`fptr, this`dsect
      modifies fs`disk, fs`winsect, fs`wflag, fs`fsiFlag, fs`freeClust, fs`lastClust, fs.win
      ensures fs.Valid() && OthersKept(fs.g, old(fs.View()), fs.View(), old(chain))
      ensures res == FrOk || (res == FrIntErr && !NoOnes(old(fs.Table())))
      ensures res.FrIntErr? ==> aborted
      ensures res.FrOk? ==> Going() && wcnt <= |d| && fptr == old(fptr) + wcnt
      ensures res.FrOk? ==> Grown(old(fs.Table()), old(chain), chain) && Capacity() == old(Capacity())
      ensures res.FrOk? ==> BytesTo(Reach()) == Splice(old(BytesTo(Reach())), old(fptr), d[..wcnt])
      ensures res.FrOk? && wcnt == 0 ==> FreeCount(fs.Table()) == 0 && fptr == fs.g.SectorsIn(|chain|) * SECTOR_SIZE
      ensures res.FrOk? ==> aborted == old(aborted)
      ensures old(fs.CountRight()) ==> fs.CountRight()
      ensures res.FrOk? && old(InOneSector(|d|)) && !old(fs.wflag) ==>
                wcnt == |d| && chain == old(chain) && Waits(old(fs.disk))
    {
      hide Patch, OnlyFat, Mirrored, Fat, Sectors, Content, OthersKept, IsChain, Volume.View, Volume.Shape, Volume.Coherent;
      hide Geometry.CopyAt, Geometry.DataEnd, Geometry.ClusterOf, Geometry.SectorOf, Geometry.SectorsIn, Clusters, Placed, Splice;
      ghost var g, v := fs.g, fs.View();
      OthersKeptNothing(g, v, chain);
      ReachBound();
      if fptr % SECTOR_SIZE == 0 {
        var full;
        res, full := Arrive();
        if res != FrOk || full { return res, 0; }
        ghost var v1 := fs.View();
        if |d| >= SECTOR_SIZE {
          wcnt := WriteDirect(d);
          OthersKeptTwice(g, v, v1, fs.View(), old(chain), chain);
          return FrOk, wcnt;
        }
        StartSector();
      } else {
        MidSector();
      }
      ghost var v2 := fs.View();
      wcnt := WritePartial(d);
      OthersKeptTwice(g, v, v2, fs.View(), old(chain), chain);
      return FrOk, wcnt;
    }

    /** The sector to come becomes the file's current sector; at the growing edge it is not
        read first. */
    method StartSector()
      requires Ready()
      modifies this`dsect, this`csect, fs`disk, fs`winsect, fs`wflag, fs.win
      ensures Mid() && fs.View() == old(fs.View())
      ensures !old(fs.wflag) ==> !fs.wflag && fs.disk == old(fs.disk)
    {
      hide Patch, Fat, IsChain, Volume.View, Volume.Shape, Volume.Coherent;
      hide Geometry.CopyAt, Geometry.DataEnd, Geometry.ClusterOf, Geometry.SectorOf, Geometry.SectorsIn, Clusters;
      ReadySector();
      var sect := fs.Clust2Sect(currClust);
      sect := sect + csect;
      if fptr >= fsize {
        fs.MoveWindow(0);
        fs.Retarget(sect);
      }
      dsect := sect;
      csect := csect + 1;
    }

    /** The bytes the file can come to hold before the volume is full. */
    ghost function Room(): nat
      reads this`chain, fs, fs.win
      requires fs.Valid()
    {
      fs.g.SectorsIn(Capacity()) * SECTOR_SIZE
    }

    /** No cluster is free, and the file pointer stands behind the last of the file. */
    ghost predicate Full()
      reads this`fptr, this`chain, fs, fs.win
      requires fs.Shape()
    {
      FreeCount(fs.Table()) == 0 && fptr == fs.g.SectorsIn(|chain|) * SECTOR_SIZE
    }

    ghost predicate Usable()
      reads this`id, this`aborted
    {
      id == fs.id && !aborted
    }

    /** How much of a write of n bytes is taken. */
    ghost function Taken(n: nat): nat
      reads this, fs, fs.win
      requires Valid()
    {
      if fsize + n >= DWORD_LIMIT || fptr > Room() then 0
      else if n <= Room() - fptr then n
      else Room() - fptr
    }

    /** Write a string of bytes at the file pointer. */
    method Write(wbuff: seq<Byte>) returns (res: FResult, bw: nat)
      requires fs.Valid() && |wbuff| < DWORD_LIMIT
      requires Usable() ==> Valid()
      modifies this`orgClust, this`currClust, this`csect, this`chain, this`aborted, this`fptr, this`dsect, this`fsize, this`written
      modifies fs`disk, fs`winsect, fs`wflag, fs`fsiFlag, fs`freeClust, fs`lastClust, fs.win
      ensures fs.Valid()
      ensures id != fs.id ==> res == FrInvalidObject
      ensures id == fs.id && old(aborted) ==> res == FrIntErr
      ensures old(Usable()) && !canWrite ==> res == FrDenied
      ensures !(old(Usable()) && canWrite) ==> bw == 0 && unchanged(this, fs, fs.win)
      ensures old(Usable()) && canWrite ==>
                && (res == FrOk || (res == FrIntErr && !NoOnes(old(fs.Table()))))
                && (res.FrIntErr? ==> aborted)
                && OthersKept(fs.g, old(fs.View()), fs.View(), old(chain))
      ensures old(Usable()) && res.FrOk? ==>
                && Usable() && Valid() && written
                && bw == old(Taken(|wbuff|)) && fptr == old(fptr) + bw && bw <= |wbuff|
                && Bytes() == Splice(old(Bytes()), old(fptr), wbuff[..bw])
                && Grown(old(fs.Table()), old(chain), chain) && Capacity() == old(Capacity())
      ensures old(Usable()) && res.FrOk? ==>
                && (old(fsize) + |wbuff| >= 0x1_0000_0000 ==> bw == 0)
                && (old(fsize) + |wbuff| < 0x1_0000_0000 && bw < |wbuff| ==> Full())
                && fsize == if old(fptr) + bw > old(fsize) then old(fptr) + bw else old(fsize)
      ensures old(Usable()) && res.FrOk? && old(InOneSector(|wbuff|)) && old(fsize) + |wbuff| < DWORD_LIMIT && !old(fs.wflag) ==>
                bw == |wbuff| && chain == old(chain) && Waits(old(fs.disk))
      ensures old(fs.CountRight()) ==> fs.CountRight()
    {
      hide Patch, OnlyFat, Mirrored, Fat, Sectors, Content, OthersKept, IsChain, Grown, Volume.View, Volume.Shape, Volume.Coherent;
      hide Geometry.CopyAt, Geometry.DataEnd, Geometry.ClusterOf, Geometry.SectorOf, Geometry.SectorsIn, Clusters, Placed, Splice, DataSector;
      bw := 0;
      if id != fs.id { return FrInvalidObject, 0; }
      if aborted { return FrIntErr, 0; }
      if !canWrite { return FrDenied, 0; }
      res, bw := WriteInFile(wbuff);
    }

    /** Writing to a file that is open for it. */
    method WriteInFile(wbuff: seq<Byte>) returns (res: FResult, bw: nat)
      requires Valid() && Usable() && |wbuff| < DWORD_LIMIT
      modifies this`orgClust, this`currClust, this`csect, this`chain, this`aborted, this`fptr, this`dsect, this`fsize, this`written
      modifies fs`disk, fs`winsect, fs`wflag, fs`fsiFlag, fs`freeClust, fs`lastClust, fs.win
      ensures fs.Valid() && OthersKept(fs.g, old(fs.View()), fs.View(), old(chain))
      ensures res == FrOk || (res == FrIntErr && !NoOnes(old(fs.Table())))
      ensures res.FrIntErr? ==> aborted
      ensures res.FrOk? ==> Usable() && Valid() && written
      ensures res.FrOk? ==> bw == old(Taken(|wbuff|)) && fptr == old(fptr) + bw && bw <= |wbuff|
      ensures res.FrOk? ==> Bytes() == Splice(old(Bytes()), old(fptr), wbuff[..bw])
      ensures res.FrOk? ==> Grown(old(fs.Table()), old(chain), chain) && Capacity() == old(Capacity())
      ensures res.FrOk? && old(fsize) + |wbuff| >= 0x1_0000_0000 ==> bw == 0
      ensures res.FrOk? && old(fsize) + |wbuff| < 0x1_0000_0000 && bw < |wbuff| ==> Full()
      ensures res.FrOk? ==> fsize == if old(fptr) + bw > old(fsize) then old(fptr) + bw else old(fsize)
      ensures res.FrOk? && old(InOneSector(|wbuff|)) && old(fsize) + |wbuff| < DWORD_LIMIT && !old(fs.wflag) ==>
                bw == |wbuff| && chain == old(chain) && Waits(old(fs.disk))
      ensures old(fs.CountRight()) ==> fs.CountRight()
    {
      hide Patch, OnlyFat, Mirrored, Fat, Sectors, Content, OthersKept, IsChain, Grown, Volume.View, Volume.Shape, Volume.Coherent;
      hide Geometry.CopyAt, Geometry.DataEnd, Geometry.ClusterOf, Geometry.SectorOf, Geometry.SectorsIn, Clusters, Placed, Splice, DataSector;
      var btw := |wbuff|;
      if (fsize + btw) % DWORD_LIMIT < fsize { btw := 0; }
      RoomBound();
      res, bw := WriteLoop(wbuff[..btw]);
      if res != FrOk { return; }
      RoomBound();
      if fptr > fsize { fsize := fptr; }
      written := true;
      assert wbuff[..btw][..bw] == wbuff[..bw];
    }

    /** The loop of f_write: it stops when all is written or no cluster is left. */
    method WriteLoop(wbuff: seq<Byte>) returns (res: FResult, bw: nat)
      requires Valid() && fsize + |wbuff| < DWORD_LIMIT
      modifies this`orgClust, this`currClust, this`csect, this`chain, this`aborted, this`fptr, this`dsect
      modifies fs`disk, fs`winsect, fs`wflag, fs`fsiFlag, fs`freeClust, fs`lastClust, fs.win
      ensures fs.Valid() && OthersKept(fs.g, old(fs.View()), fs.View(), old(chain))
      ensures res == FrOk || (res == FrIntErr && !NoOnes(old(fs.Table())))
      ensures res.FrIntErr? ==> aborted
      ensures res.FrOk? ==>
                && Going() && aborted == old(aborted)
                && bw <= |wbuff| && fptr == old(fptr) + bw
                && (bw < |wbuff| ==> FreeCount(fs.Table()) == 0 && fptr == fs.g.SectorsIn(|chain|) * SECTOR_SIZE)
                && BytesTo(Reach()) == Splice(old(Bytes()), old(fptr), wbuff[..bw])
                && Grown(old(fs.Table()), old(chain), chain) && Capacity() == old(Capacity())
      ensures old(fs.CountRight()) ==> fs.CountRight()
      ensures res.FrOk? && old(InOneSector(|wbuff|)) && !old(fs.wflag) ==>
                bw == |wbuff| && chain == old(chain) && Waits(old(fs.disk))
    {
      hide Patch, OnlyFat, Mirrored, Fat, Sectors, Content, OthersKept, IsChain, Grown, Volume.View, Volume.Shape, Volume.Coherent;
      hide Geometry.CopyAt, Geometry.DataEnd, Geometry.ClusterOf, Geometry.SectorOf, Geometry.SectorsIn, Clusters, Placed, Splice;
      bw := 0;
      ghost var g, v, t, ch: seq<nat>, b, p := fs.g, fs.View(), fs.Table(), chain, Bytes(), fptr;
      OthersKeptNothing(g, v, ch);
      GrownNothing(t, ch);
      SpliceNothing(b, p, wbuff);
      var btw := |wbuff|;
      while btw > 0
        invariant Going() && aborted == old(aborted) && fptr == p + bw && 0 <= btw && bw + btw == |wbuff|
        invariant Capacity() == old(Capacity())
        invariant Reach() <= g.SectorsIn(|chain|) * SECTOR_SIZE
        invariant BytesTo(Reach()) == Splice(b, p, wbuff[..bw])
        invariant Grown(t, ch, chain) && OthersKept(g, v, fs.View(), ch)
        invariant old(fs.CountRight()) ==> fs.CountRight()
        invariant old(InOneSector(|wbuff|)) && !old(fs.wflag) ==>
                    chain == ch && if bw == 0 then fsize == old(fsize) && !fs.wflag && fs.disk == old(fs.disk) else bw == |wbuff| && Waits(old(fs.disk))
      {
        ghost var v1, ch1: seq<nat> := fs.View(), chain;
        var wcnt;
        res, wcnt := WriteStep(wbuff[bw..]);
        OthersKeptTwice(g, v, v1, fs.View(), ch, ch1);
        KeptNoOnes(g, v, v1, ch);
        if res != FrOk { return res, bw; }
        GrownTwice(g, v, v1, ch, ch1, chain);
        ReachBound();
        SpliceNext(b, p, wbuff, bw, wcnt);
        if wcnt == 0 { break; }
        bw := bw + wcnt;
        btw := btw - wcnt;
      }
      return FrOk, bw;
    }

    lemma SpliceNothing(b: seq<Byte>, p: nat, d: seq<Byte>)
      requires p <= |b|
      ensures Splice(b, p, d[..0]) == b
    {
    }

    lemma SpliceNext(b: seq<Byte>, p: nat, d: seq<Byte>, bw: nat, wcnt: nat)
      requires p <= |b| && bw + wcnt <= |d|
      ensures p + bw <= |Splice(b, p, d[..bw])|
      ensures Splice(Splice(b, p, d[..bw]), p + bw, d[bw..][..wcnt]) == Splice(b, p, d[..bw + wcnt])
    {
      SpliceSplice(b, p, d[..bw], d[bw..][..wcnt]);
      assert d[..bw] + d[bw..][..wcnt] == d[..bw + wcnt];
    }

    lemma RoomBound()
      requires Going()
      ensures fptr <= fs.g.SectorsIn(|chain|) * SECTOR_SIZE <= Room()
      ensures FreeCount(fs.Table()) == 0 ==> Room() == fs.g.SectorsIn(|chain|) * SECTOR_SIZE
    {
      if FreeCount(fs.Table()) > 0 { Spread(|chain|, Capacity(), fs.g.csize); }
    }

    // ---------------------------------------------------------------- seeking

    /** While f_lseek walks: fptr is the start of the i-th cluster of the file, the current one. */
    ghost predicate Walking(i: nat)
      reads this, fs, fs.win
    {
      && fs.Valid()
      && Chained()
      && i < |chain|
      && currClust == chain[i]
      && fptr == fs.g.SectorsIn(i) * SECTOR_SIZE
      && fsize <= fs.g.SectorsIn(|chain|) * SECTOR_SIZE && fsize < DWORD_LIMIT
    }

    /** The step of the walk to the next cluster: in write mode it stretches the chain. */
    method WalkOn(ghost i: nat) returns (res: FResult, clst: nat)
      requires Walking(i) && (canWrite || i + 1 < |chain|)
      modifies this`currClust, this`chain, this`aborted, this`fptr
      modifies fs`disk, fs`winsect, fs`wflag, fs`fsiFlag, fs`freeClust, fs`lastClust, fs.win
      ensures fs.Valid() && OthersKept(fs.g, old(fs.View()), fs.View(), old(chain))
      ensures res == FrOk || (res == FrIntErr && !NoOnes(old(fs.Table())))
      ensures res.FrIntErr? ==> aborted
      ensures res.FrOk? ==> Grown(old(fs.Table()), old(chain), chain) && Capacity() == old(Capacity()) && aborted == old(aborted)
      ensures res.FrOk? ==> Chained() && Sectors(fs.g, old(fs.View()), old(chain)) <= Sectors(fs.g, fs.View(), chain)
      ensures res.FrOk? && clst != 0 ==> Walking(i + 1) && clst == currClust
      ensures res.FrOk? && clst == 0 ==> Walking(i) && i + 1 == |chain| && FreeCount(fs.Table()) == 0
      ensures res.FrOk? && !canWrite ==> chain == old(chain)
      ensures old(fs.CountRight()) ==> fs.CountRight()
      ensures i + 1 < old(|chain|) ==>
                res.FrOk? && fs.View() == old(fs.View()) && chain == old(chain)
                && (!old(fs.wflag) ==> !fs.wflag && fs.disk == old(fs.disk))
    {
      hide Patch, OnlyFat, Mirrored, Fat, Sectors, OthersKept, IsChain, Volume.View, Volume.Shape, Volume.Coherent;
      hide Geometry.CopyAt, Geometry.DataEnd, Geometry.ClusterOf, Geometry.SectorOf, Geometry.SectorsIn, Step;
      ghost var g, v, t, ch: seq<nat> := fs.g, fs.View(), fs.Table(), chain;
      OthersKeptNothing(g, v, ch);
      Link(t, ch, i);
      FreeBelowBound(t, |t|);
      MoreSectors(g, i);
      var bcs := fs.g.ClusterBytes();
      if canWrite {
        clst := fs.CreateChain(currClust);
        if clst == 0 { return FrOk, 0; }
      } else {
        clst := fs.GetCluster(currClust);
      }
      if clst <= 1 || clst >= fs.g.maxClust {
        aborted := true;
        return FrIntErr, clst;
      }
      if i + 1 == |ch| {
        GrowFile(g, v, fs.View(), orgClust, ch, clst, fs.EndMark());
        chain := chain + [clst];
        MoreSectors(g, |ch|);
      }
      currClust := clst;
      fptr := fptr + bcs;
      return FrOk, clst;
    }

    /** The walk of f_lseek from the i-th cluster to the cluster of position fptr + rest. */
    method Walk(rest: nat, ghost i: nat) returns (res: FResult, ofs: nat, ghost j: nat)
      requires Walking(i) && 1 <= rest
      requires canWrite || fptr + rest <= fs.g.SectorsIn(|chain|) * SECTOR_SIZE
      modifies this`currClust, this`chain, this`aborted, this`fptr
      modifies fs`disk, fs`winsect, fs`wflag, fs`fsiFlag, fs`freeClust, fs`lastClust, fs.win
      ensures fs.Valid() && OthersKept(fs.g, old(fs.View()), fs.View(), old(chain))
      ensures res == FrOk || (res == FrIntErr && !NoOnes(old(fs.Table())))
      ensures res.FrIntErr? ==> aborted
      ensures res.FrOk? ==> Grown(old(fs.Table()), old(chain), chain) && Capacity() == old(Capacity()) && aborted == old(aborted)
      ensures res.FrOk? ==> Walking(j) && Sectors(fs.g, old(fs.View()), old(chain)) <= Sectors(fs.g, fs.View(), chain)
      ensures res.FrOk? ==> 1 <= ofs <= fs.g.csize * SECTOR_SIZE
      ensures res.FrOk? && fptr + ofs == old(fptr) + rest ==> (j, ofs) == WalkFrom(fs.g.ClusterBytes(), i, rest)
      ensures res.FrOk? && fptr + ofs != old(fptr) + rest ==>
                && fptr + ofs < old(fptr) + rest && ofs == fs.g.csize * SECTOR_SIZE
                && j + 1 == |chain| && FreeCount(fs.Table()) == 0
      ensures res.FrOk? && !canWrite ==> chain == old(chain)
      ensures old(fs.CountRight()) ==> fs.CountRight()
      ensures old(fptr) + rest <= fs.g.SectorsIn(old(|chain|)) * SECTOR_SIZE ==>
                res.FrOk? && fs.View() == old(fs.View()) && chain == old(chain)
                && (!old(fs.wflag) ==> !fs.wflag && fs.disk == old(fs.disk))
    {
      hide Patch, OnlyFat, Mirrored, Fat, Sectors, OthersKept, IsChain, Grown, Volume.View, Volume.Shape, Volume.Coherent;
      hide Geometry.CopyAt, Geometry.DataEnd, Geometry.ClusterOf, Geometry.SectorOf, Geometry.SectorsIn, Clusters;
      ghost var g, v, t, ch: seq<nat> := fs.g, fs.View(), fs.Table(), chain;
      OthersKeptNothing(g, v, ch);
      GrownNothing(t, ch);
      var bcs := fs.g.ClusterBytes();
      ofs, j := rest, i;
      while ofs > bcs
        invariant Walking(j) && 1 <= ofs && fptr + ofs == old(fptr) + rest
        invariant WalkFrom(bcs, j, ofs) == WalkFrom(bcs, i, rest)
        invariant !canWrite ==> chain == ch
        invariant Grown(t, ch, chain) && OthersKept(g, v, fs.View(), ch) && Capacity() == old(Capacity()) && aborted == old(aborted)
        invariant Sectors(g, v, ch) <= Sectors(g, fs.View(), chain)
        invariant old(fs.CountRight()) ==> fs.CountRight()
        invariant old(fptr) + rest <= g.SectorsIn(|ch|) * SECTOR_SIZE ==>
                    fs.View() == v && chain == ch && (!old(fs.wflag) ==> !fs.wflag && fs.disk == old(fs.disk))
        decreases ofs
      {
        ghost var v1, ch1: seq<nat> := fs.View(), chain;
        NextInChain(j, ofs);
        var clst;
        res, clst := WalkOn(j);
        OthersKeptTwice(g, v, v1, fs.View(), ch, ch1);
        KeptNoOnes(g, v, v1, ch);
        if res != FrOk { return; }
        GrownTwice(g, v, v1, ch, ch1, chain);
        if clst == 0 {
          ofs := bcs;
          return;
        }
        j := j + 1;
        MoreSectors(g, j - 1);
        ofs := ofs - bcs;
      }
      res := FrOk;
    }

    lemma NextInChain(j: nat, ofs: nat)
      requires Walking(j) && ofs > fs.g.csize * SECTOR_SIZE
      ensures fptr + ofs <= fs.g.SectorsIn(|chain|) * SECTOR_SIZE ==> j + 1 < |chain|
    {
      if j + 1 == |chain| { MoreSectors(fs.g, j); }
    }

    /** Where the walk starts: at the current cluster if the target is not before it, else at
        the first, which an empty file gets now. */
    method SeekStart(ofs: nat, ifptr: nat) returns (res: FResult, clst: nat, rest: nat, ghost i: nat)
      requires fs.Valid() && Chained() && fptr == 0 && 1 <= ofs && ShortcutRight(fs.g, ifptr, ofs)
      requires fsize <= fs.g.SectorsIn(|chain|) * SECTOR_SIZE && fsize < DWORD_LIMIT
      requires ifptr > 0 ==>
                 var q := fs.g.ClusterOf((ifptr - 1) / SECTOR_SIZE); q < |chain| && currClust == chain[q]
      modifies this`orgClust, this`currClust, this`chain, this`aborted, this`fptr
      modifies fs`disk, fs`winsect, fs`wflag, fs`fsiFlag, fs`freeClust, fs`lastClust, fs.win
      ensures fs.Valid() && OthersKept(fs.g, old(fs.View()), fs.View(), old(chain))
      ensures res == FrOk || (res == FrIntErr && !NoOnes(old(fs.Table())))
      ensures res.FrIntErr? ==> aborted
      ensures res.FrOk? ==> Grown(old(fs.Table()), old(chain), chain) && Capacity() == old(Capacity()) && aborted == old(aborted)
      ensures res.FrOk? ==> Chained() && Sectors(fs.g, old(fs.View()), old(chain)) <= Sectors(fs.g, fs.View(), chain)
      ensures res.FrOk? && clst != 0 ==> Walking(i) && 1 <= rest && fptr + rest == ofs
      ensures res.FrOk? && clst == 0 ==> chain == [] && FreeCount(fs.Table()) == 0 && fptr == 0
      ensures old(fs.CountRight()) ==> fs.CountRight()
      ensures old(orgClust) != 0 ==>
                res.FrOk? && clst != 0 && fs.View() == old(fs.View()) && chain == old(chain)
                && (!old(fs.wflag) ==> !fs.wflag && fs.disk == old(fs.disk))
    {
      hide Patch, OnlyFat, Mirrored, Fat, Sectors, OthersKept, IsChain, Volume.View, Volume.Shape, Volume.Coherent;
      hide Geometry.CopyAt, Geometry.DataEnd, Geometry.ClusterOf, Geometry.SectorOf, Geometry.SectorsIn, Step, ClearBelow;
      ghost var g, v, t, ch: seq<nat> := fs.g, fs.View(), fs.Table(), chain;
      OthersKeptNothing(g, v, ch);
      NoSectors(g);
      var bcs := fs.g.ClusterBytes();
      if ifptr > 0 && (ofs - 1) / bcs >= (ifptr - 1) / bcs {
        i := ClusterStartOf(g, ifptr - 1);
        ClusterBefore(g, ifptr - 1, ofs - 1);
        fptr := ClearBelow(ifptr - 1, bcs);
        return FrOk, currClust, ofs - fptr, i;
      }
      clst := orgClust;
      i := 0;
      if clst == 0 {
        FreeBelowBound(t, |t|);
        clst := fs.CreateChain(0);
        if clst == 1 {
          aborted := true;
          return FrIntErr, clst, ofs, 0;
        }
        orgClust := clst;
        if clst != 0 {
          GrowFile(g, v, fs.View(), 0, ch, clst, fs.EndMark());
          chain := chain + [clst];
          MoreSectors(g, 0);
        }
      }
      currClust := clst;
      return FrOk, clst, ofs, 0;
    }

    /** The sector of the file in which the walk ends. */
    lemma LandingSector(ofs: nat, i: nat) returns (n: nat)
      requires Walking(i) && 1 <= ofs <= fs.g.ClusterBytes()
      ensures n < fs.g.SectorsIn(|chain|) && fs.g.ClusterOf(n) == i < |chain| && currClust == chain[i]
      ensures fs.g.SectorOf(n) == (ofs - 1) / SECTOR_SIZE
      ensures var r := ofs % SECTOR_SIZE;
              && (fptr + ofs) % SECTOR_SIZE == r
              && if r == 0 then fs.g.SectorOf(n) + 1 == ofs / SECTOR_SIZE && fptr + ofs == (n + 1) * SECTOR_SIZE
                 else fs.g.SectorOf(n) == ofs / SECTOR_SIZE && fptr + ofs == n * SECTOR_SIZE + r
    {
      hide Patch, Fat, IsChain, Volume.View, Volume.Shape, Volume.Coherent, Clusters;
      hide Geometry.CopyAt, Geometry.DataEnd, Geometry.ClusterOf, Geometry.SectorOf, Geometry.SectorsIn;
      n := fs.g.SectorsIn(i) + (ofs - 1) / SECTOR_SIZE;
      Join'(fs.g, n, i, (ofs - 1) / SECTOR_SIZE);
    }

    /** Where that sector is on the medium. */
    lemma LandingOnMedium(n: nat)
      requires fs.Shape() && Clusters(fs.g, chain) && n < fs.g.SectorsIn(|chain|)
      requires fs.g.ClusterOf(n) < |chain| && currClust == chain[fs.g.ClusterOf(n)]
      ensures 2 <= currClust < fs.g.maxClust
      ensures fs.Clust2Sect(currClust) != 0 && fs.Clust2Sect(currClust) + fs.g.SectorOf(n) == SectorOnMedium(n) != 0
    {
      hide Patch, Fat, IsChain, Volume.View, Volume.Shape, Volume.Coherent;
      hide Geometry.CopyAt, Geometry.DataEnd, Geometry.ClusterOf, Geometry.SectorOf, Geometry.SectorsIn;
      ClusterStart();
      DataSectorFrom(fs.g, currClust, fs.g.SectorOf(n));
    }

    /** The end of f_lseek: the position inside the cluster reached. */
    method Land(ofs: nat, clst: nat, ghost i: nat)
      requires Walking(i) && 1 <= ofs <= fs.g.ClusterBytes() && clst == currClust
      modifies this`fptr, this`csect, this`dsect
      ensures Chained() && Placed() && fptr == old(fptr) + ofs
    {
      hide Patch, Fat, IsChain, Volume.View, Volume.Shape, Volume.Coherent, FileSector;
      hide Geometry.CopyAt, Geometry.DataEnd, Geometry.ClusterOf, Geometry.SectorOf, Geometry.SectorsIn, Placed, DataSector, Clusters;
      var nsect := 0;
      ghost var n := LandingSector(ofs, i);
      LandingOnMedium(n);
      fptr := fptr + ofs;
      csect := ofs / SECTOR_SIZE;
      if ofs % SECTOR_SIZE != 0 {
        nsect := fs.Clust2Sect(clst);
        nsect := nsect + csect;
        csect := csect + 1;
      }
      if nsect != 0 && nsect != dsect && fptr % SECTOR_SIZE != 0 {
        dsect := nsect;
      }
      hide SectorOnMedium;
      Landed(n, ofs % SECTOR_SIZE);
    }

    /** The pointer stands behind sector n, or r bytes into it. */
    lemma Landed(n: nat, r: nat)
      requires fs.g.Valid() && Clusters(fs.g, chain) && n < fs.g.SectorsIn(|chain|) && At(n, 1) && r < SECTOR_SIZE
      requires if r == 0 then fptr == (n + 1) * SECTOR_SIZE else fptr == n * SECTOR_SIZE + r && dsect == SectorOnMedium(n)
      ensures Placed()
    {
      hide Placed, Geometry.ClusterOf, Geometry.SectorOf, Geometry.SectorsIn, Clusters;
      if r == 0 { RunEnd(n); } else { PartEnd(n, r); }
    }

    /** A file that is not written to is not left. */
    ghost function Clipped(ofs: nat): nat
      reads this`fsize, this`canWrite
    {
      if ofs > fsize && !canWrite then fsize else ofs
    }

    /** Where seeking to ofs ends up. */
    ghost function Target(ofs: nat): nat
      reads this, fs, fs.win
      requires Valid()
    {
      var o := Clipped(ofs);
      if o <= Room() then o else Room()
    }

    lemma PlacedAtStart()
      requires fs.g.Valid() && Clusters(fs.g, chain) && fptr == 0 && csect == NO_SECTOR
      ensures Placed()
    {
    }

    /** What Seek asks of the positions it starts from. */
    lemma PlacedAt()
      requires Going()
      ensures fptr > 0 ==> var q := fs.g.ClusterOf((fptr - 1) / SECTOR_SIZE); q < |chain| && currClust == chain[q]
      ensures fsize <= fs.g.SectorsIn(|chain|) * SECTOR_SIZE
    {
    }

    /** Move the file pointer; in write mode past the end of the file too, as far as there is room. */
    method Seek(target: Dword) returns (res: FResult)
      requires fs.Valid()
      requires Usable() ==> Valid() && ShortcutRight(fs.g, fptr, Clipped(target))
      modifies this`orgClust, this`currClust, this`csect, this`chain, this`aborted, this`fptr, this`dsect, this`fsize, this`written
      modifies fs`disk, fs`winsect, fs`wflag, fs`fsiFlag, fs`freeClust, fs`lastClust, fs.win
      ensures fs.Valid()
      ensures id != fs.id ==> res == FrInvalidObject
      ensures id == fs.id && old(aborted) ==> res == FrIntErr
      ensures !old(Usable()) ==> unchanged(this, fs, fs.win)
      ensures old(Usable()) ==>
                && (res == FrOk || (res == FrIntErr && !NoOnes(old(fs.Table()))))
                && (res.FrIntErr? ==> aborted)
                && OthersKept(fs.g, old(fs.View()), fs.View(), old(chain))
      ensures old(Usable()) && res.FrOk? ==>
                && Usable() && Valid()
                && fptr == old(Target(target))
                && fsize == (if fptr > old(fsize) then fptr else old(fsize)) && written == (old(written) || fptr > old(fsize))
                && old(Bytes()) <= Bytes()
                && Grown(old(fs.Table()), old(chain), chain) && Capacity() == old(Capacity())
      ensures old(Usable()) && res.FrOk? ==>
                var o := if target > old(fsize) && !canWrite then old(fsize) else target;
                fptr <= o && (fptr < o ==> Full())
      ensures old(fs.CountRight()) ==> fs.CountRight()
      ensures old(Usable()) && target <= old(fsize) ==>
                res.FrOk? && fs.View() == old(fs.View()) && chain == old(chain)
                && (!old(fs.wflag) ==> !fs.wflag && fs.disk == old(fs.disk))
      ensures old(Usable()) && target == 0 ==>
                res.FrOk? && fs.wflag == old(fs.wflag) && fs.winsect == old(fs.winsect) && fs.disk == old(fs.disk) && fs.win[..] == old(fs.win[..])
    {
      hide Patch, OnlyFat, Mirrored, Fat, Sectors, Content, OthersKept, IsChain, Grown, FreeCount, NoOnes, ShortcutRight, RoundsDown;
      hide Volume.View, Volume.Shape, Volume.Coherent, Clusters, Placed, At, Step, InRange;
      hide Geometry.CopyAt, Geometry.DataEnd, Geometry.ClusterOf, Geometry.SectorOf, Geometry.SectorsIn;
      if id != fs.id { return FrInvalidObject; }
      if aborted { return FrIntErr; }
      var ofs: nat := target;
      if ofs > fsize && !canWrite { ofs := fsize; }
      res := SeekInFile(ofs);
    }

    /** Seeking in a file that is open. */
    method SeekInFile(ofs: nat) returns (res: FResult)
      requires Valid() && Usable() && ofs < DWORD_LIMIT && ShortcutRight(fs.g, fptr, ofs) && (canWrite || ofs <= fsize)
      modifies this`orgClust, this`currClust, this`csect, this`chain, this`aborted, this`fptr, this`dsect, this`fsize, this`written
      modifies fs`disk, fs`winsect, fs`wflag, fs`fsiFlag, fs`freeClust, fs`lastClust, fs.win
      ensures fs.Valid() && OthersKept(fs.g, old(fs.View()), fs.View(), old(chain))
      ensures res == FrOk || (res == FrIntErr && !NoOnes(old(fs.Table())))
      ensures res.FrIntErr? ==> aborted
      ensures res.FrOk? ==> Usable() && Valid() && fptr == (if ofs <= old(Room()) then ofs else old(Room()))
      ensures res.FrOk? ==> fsize == (if fptr > old(fsize) then fptr else old(fsize)) && written == (old(written) || fptr > old(fsize))
      ensures res.FrOk? ==> old(Bytes()) <= Bytes()
      ensures res.FrOk? ==> Grown(old(fs.Table()), old(chain), chain) && Capacity() == old(Capacity())
      ensures res.FrOk? ==> fptr <= ofs && (fptr < ofs ==> Full())
      ensures old(fs.CountRight()) ==> fs.CountRight()
      ensures ofs <= old(fsize) ==>
                res.FrOk? && fs.View() == old(fs.View()) && chain == old(chain)
                && (!old(fs.wflag) ==> !fs.wflag && fs.disk == old(fs.disk))
      ensures ofs == 0 ==>
                res.FrOk? && fs.wflag == old(fs.wflag) && fs.winsect == old(fs.winsect) && fs.disk == old(fs.disk) && fs.win[..] == old(fs.win[..])
    {
      hide Patch, OnlyFat, Mirrored, Fat, Sectors, Content, OthersKept, IsChain, Grown, FreeCount, NoOnes, ShortcutRight, RoundsDown;
      hide Volume.View, Volume.Shape, Volume.Coherent, Clusters, Placed, At, Step, InRange;
      hide Geometry.CopyAt, Geometry.DataEnd, Geometry.ClusterOf, Geometry.SectorOf, Geometry.SectorsIn;
      ghost var g, v, t, ch: seq<nat>, size := fs.g, fs.View(), fs.Table(), chain, fsize;
      OthersKeptNothing(g, v, ch);
      GrownNothing(t, ch);
      RoomBound();
      PlacedAt();
      var ifptr := fptr;
      fptr, csect := 0, NO_SECTOR;
      PlacedAtStart();
      if ofs > 0 {
        res := SeekTo(ofs, ifptr);
        if res != FrOk { return; }
      }
      RoomBound();
      ContentLonger(Sectors(g, v, ch), Sectors(g, fs.View(), chain), size, if fptr > size then fptr else size);
      if fptr > fsize {
        fsize := fptr;
        written := true;
      }
      res := FrOk;
    }

    /** Seeking to a position after the first byte. */
    method SeekTo(ofs: nat, ifptr: nat) returns (res: FResult)
      requires fs.Valid() && Chained() && fptr == 0 && csect == NO_SECTOR && 1 <= ofs && ShortcutRight(fs.g, ifptr, ofs)
      requires fsize <= fs.g.SectorsIn(|chain|) * SECTOR_SIZE && fsize < DWORD_LIMIT
      requires canWrite || ofs <= fsize
      requires ifptr > 0 ==>
                 var q := fs.g.ClusterOf((ifptr - 1) / SECTOR_SIZE); q < |chain| && currClust == chain[q]
      modifies this`orgClust, this`currClust, this`csect, this`chain, this`aborted, this`fptr, this`dsect
      modifies fs`disk, fs`winsect, fs`wflag, fs`fsiFlag, fs`freeClust, fs`lastClust, fs.win
      ensures fs.Valid() && OthersKept(fs.g, old(fs.View()), fs.View(), old(chain))
      ensures res == FrOk || (res == FrIntErr && !NoOnes(old(fs.Table())))
      ensures res.FrIntErr? ==> aborted
      ensures res.FrOk? ==> Going() && aborted == old(aborted)
      ensures res.FrOk? ==> Grown(old(fs.Table()), old(chain), chain) && Capacity() == old(Capacity())
      ensures res.FrOk? ==> Sectors(fs.g, old(fs.View()), old(chain)) <= Sectors(fs.g, fs.View(), chain)
      ensures res.FrOk? && fptr != ofs ==> fptr == fs.g.SectorsIn(|chain|) * SECTOR_SIZE < ofs && FreeCount(fs.Table()) == 0
      ensures old(fs.CountRight()) ==> fs.CountRight()
      ensures ofs <= fsize ==>
                res.FrOk? && fs.View() == old(fs.View()) && chain == old(chain)
                && (!old(fs.wflag) ==> !fs.wflag && fs.disk == old(fs.disk))
    {
      hide Patch, OnlyFat, Mirrored, Fat, Sectors, Content, OthersKept, IsChain, Grown, FreeCount, NoOnes, ShortcutRight, WalkFrom;
      hide Volume.View, Volume.Shape, Volume.Coherent, Clusters, Placed, At, Step, InRange;
      hide Geometry.CopyAt, Geometry.DataEnd, Geometry.ClusterOf, Geometry.SectorOf, Geometry.SectorsIn;
      ghost var g, v, t, ch: seq<nat> := fs.g, fs.View(), fs.Table(), chain;
      NoSectors(g);
      var clst, rest;
      ghost var i;
      res, clst, rest, i := SeekStart(ofs, ifptr);
      if res != FrOk { return; }
      if clst == 0 {
        PlacedAtStart();
      } else {
        ghost var v1, ch1: seq<nat> := fs.View(), chain;
        ghost var j;
        res, rest, j := Walk(rest, i);
        OthersKeptTwice(g, v, v1, fs.View(), ch, ch1);
        KeptNoOnes(g, v, v1, ch);
        if res != FrOk { return; }
        GrownTwice(g, v, v1, ch, ch1, chain);
        MoreSectors(g, j);
        Land(rest, currClust, j);
      }
    }

    // ---------------------------------------------------------------- reading

    /** The sectors a read of n bytes fetches past the window before it moves the window:
        none, unless fptr is on a sector boundary and no link is followed first. */
    ghost function FirstRun(n: nat): nat
      reads this`fptr
      requires fs.g.Valid()
    {
      var s := fs.g.SectorOf(fptr / SECTOR_SIZE);
      if fptr % SECTOR_SIZE != 0 || (fptr > 0 && s == 0) then 0
      else if s + n / SECTOR_SIZE > fs.g.csize then fs.g.csize - s else n / SECTOR_SIZE
    }

    /** The window holds, not yet written back, a sector that a read of n bytes fetches past it. */
    ghost predicate Stale(n: nat)
      reads this`fptr, this`chain, fs, fs.win
      requires fs.Shape() && Clusters(fs.g, chain)
    {
      && fs.wflag
      && fs.win[..] != fs.disk[fs.winsect]
      && var s := SectorOnMedium(fptr / SECTOR_SIZE); s <= fs.winsect < s + FirstRun(n)
    }

    /** On a cluster boundary: follow the chain. */
    method NextForRead()
      requires Valid() && fptr % SECTOR_SIZE == 0 && csect >= fs.g.csize && fptr < fsize
      modifies this`currClust, this`csect
      modifies fs`disk, fs`winsect, fs`wflag, fs.win
      ensures Ready() && fs.View() == old(fs.View())
      ensures fptr == 0 ==> fs.wflag == old(fs.wflag) && fs.winsect == old(fs.winsect) && fs.disk == old(fs.disk) && fs.win[..] == old(fs.win[..])
      ensures fptr > 0 ==> fs.winsect < fs.g.FatEnd() && fs.g.SectorOf(fptr / SECTOR_SIZE) == 0
    {
      hide Patch, Fat, Volume.View, Volume.Shape, Volume.Coherent, IsChain;
      hide Geometry.CopyAt, Geometry.DataEnd, Geometry.ClusterOf, Geometry.SectorOf, Geometry.SectorsIn;
      Join(fs.g, 0, 0, 0);
      NoSectors(fs.g);
      var clst: nat;
      if fptr == 0 {
        clst := orgClust;
      } else {
        var atEnd := BoundaryCluster();
        clst := fs.GetCluster(currClust);
      }
      assert clst >= 2;
      currClust := clst;
      csect := 0;
    }

    /** What was fetched is the file's content exactly if no sector of it waited in the window. */
    lemma FetchedRun(data: seq<Byte>, n: nat, cc: nat, sect: nat)
      requires fs.Valid() && Clusters(fs.g, chain) && n < fs.g.SectorsIn(|chain|) && fs.g.SectorOf(n) + cc <= fs.g.csize
      requires 1 <= cc && |data| == cc * SECTOR_SIZE && sect == SectorOnMedium(n) && sect + cc <= fs.g.sectors
      requires forall i :: 0 <= i < cc ==> Chunk(data, i) == fs.disk[sect + i]
      requires n * SECTOR_SIZE + |data| <= fsize <= fs.g.SectorsIn(|chain|) * SECTOR_SIZE
      ensures data == BytesTo(fsize)[n * SECTOR_SIZE..n * SECTOR_SIZE + |data|] <==>
              !(fs.wflag && fs.win[..] != fs.disk[fs.winsect] && sect <= fs.winsect < sect + cc)
    {
      hide Fat, Content, Geometry.CopyAt, Geometry.DataEnd, Geometry.ClusterOf, Geometry.SectorOf, Geometry.SectorsIn, Volume.View;
      ghost var g, ss := fs.g, Sectors(fs.g, fs.View(), chain);
      RunInside(g, chain, n, cc);
      RunBytes(ss, fsize, n, cc, data);
      forall i | 0 <= i < cc
        ensures Chunk(data, i) == ss[n + i] <==>
                !(fs.wflag && fs.win[..] != fs.disk[fs.winsect] && sect + i == fs.winsect)
      {
        RunSector(g, chain, n, i);
        FileSectorInside(g, chain, n + i);
        fs.ViewAt(sect + i);
      }
      if sect <= fs.winsect < sect + cc {
        assert Chunk(data, fs.winsect - sect) == fs.disk[fs.winsect];
      }
    }

    /** Whole sectors fetched past the window. */
    method ReadDirect(btr: nat) returns (data: seq<Byte>, cc: nat)
      requires Ready() && SECTOR_SIZE <= btr && fptr + btr <= fsize
      modifies this`csect, this`fptr
      ensures Valid() && 1 <= |data| == cc * SECTOR_SIZE <= btr && fptr == old(fptr) + |data|
      ensures cc == if old(csect) + btr / SECTOR_SIZE > fs.g.csize then fs.g.csize - old(csect) else btr / SECTOR_SIZE
      ensures data == Bytes()[old(fptr)..fptr] <==>
              var s := SectorOnMedium(old(fptr) / SECTOR_SIZE);
              !(fs.wflag && fs.win[..] != fs.disk[fs.winsect] && s <= fs.winsect < s + cc)
      ensures btr - |data| >= SECTOR_SIZE ==> fs.g.SectorOf(fptr / SECTOR_SIZE) == 0
    {
      hide DataSector, Fat, IsChain, Sectors, Content, Geometry.CopyAt, Geometry.DataEnd, Geometry.ClusterOf;
      hide Geometry.SectorOf, Geometry.SectorsIn, Placed, Clusters, Volume.View, Volume.Coherent, Chunk;
      ReadySector();
      ghost var g, n, ch: seq<nat> := fs.g, fptr / SECTOR_SIZE, chain;
      var sect := fs.Clust2Sect(currClust);
      sect := sect + csect;
      cc := btr / SECTOR_SIZE;
      if csect + cc > fs.g.csize { cc := fs.g.csize - csect; }
      RunInside(g, ch, n, cc);
      data := fs.DiskRead(sect, cc);
      FetchedRun(data, n, cc, sect);
      RunSector(g, ch, n, cc - 1);
      NextSector(g, n + (cc - 1));
      csect := csect + cc;
      fptr := fptr + SECTOR_SIZE * cc;
      RunEnd(n + cc - 1);
    }

    /** Bytes of one sector, fetched through the window. */
    method ReadPartial(btr: nat) returns (data: seq<Byte>)
      requires Mid() && fs.Valid() && 1 <= btr && fptr + btr <= fsize
      modifies this`fptr, fs`disk, fs`winsect, fs`wflag, fs.win
      ensures Valid() && fs.View() == old(fs.View()) && 1 <= |data| <= btr && fptr == old(fptr) + |data|
      ensures data == Bytes()[old(fptr)..fptr]
      ensures |data| < btr ==> fptr == (old(fptr) / SECTOR_SIZE + 1) * SECTOR_SIZE && fs.winsect == SectorOnMedium(old(fptr) / SECTOR_SIZE)
    {
      hide Patch, Fat, Sectors, Content, IsChain, Volume.View, Volume.Coherent;
      hide Geometry.CopyAt, Geometry.DataEnd, Geometry.ClusterOf, Geometry.SectorOf, Geometry.SectorsIn, Clusters, Placed;
      ghost var g, n, ss := fs.g, fptr / SECTOR_SIZE, Sectors(fs.g, fs.View(), chain);
      FileSectorInside(g, chain, n);
      var k := fptr % SECTOR_SIZE;
      var rcnt := SECTOR_SIZE - k;
      if rcnt > btr { rcnt := btr; }
      fs.MoveWindow(dsect);
      data := fs.win[k..k + rcnt];
      SectorAt(g, fs.View(), chain, n);
      PartBytes(ss, fsize, n, k, rcnt);
      fptr := fptr + rcnt;
      PartEnd(n, k + rcnt);
    }

    /** Where a sector boundary inside a cluster is not at its start. */
    lemma FirstSector()
      requires Valid()
      ensures fs.g.SectorOf(0) == 0
      ensures fptr > 0 && fptr % SECTOR_SIZE == 0 && csect < fs.g.csize ==> fs.g.SectorOf(fptr / SECTOR_SIZE) != 0
      ensures fptr == 0 ==> csect >= fs.g.csize
    {
      hide Volume.View, Volume.Shape, Volume.Coherent, IsChain, Fat, Geometry.ClusterOf, Geometry.SectorOf, Geometry.SectorsIn;
      Join(fs.g, 0, 0, 0);
      if fptr > 0 && fptr % SECTOR_SIZE == 0 { NextSector(fs.g, (fptr - 1) / SECTOR_SIZE); }
    }

    /** The sector after the one the window shows lies behind it, or in another cluster. */
    lemma NextNotShown(n: nat)
      requires Valid() && n < fs.g.SectorsIn(|chain|)
      ensures fptr == (n + 1) * SECTOR_SIZE && fs.winsect == SectorOnMedium(n) ==> forall m :: !Stale(m)
    {
      hide Volume.View, Volume.Coherent, IsChain, Fat, Geometry.ClusterOf, Geometry.SectorOf, Geometry.SectorsIn;
      NextSector(fs.g, n);
      Quotient((n + 1) * SECTOR_SIZE, SECTOR_SIZE, n + 1, 0);
      FileSectorInside(fs.g, chain, n);
      if fs.g.SectorOf(n) + 1 < fs.g.csize { RunSector(fs.g, chain, n, 1); }
    }

    /** On a sector boundary: make the cluster of the sector to come the current one. */
    method ReachSector()
      requires Valid() && fptr % SECTOR_SIZE == 0 && fptr < fsize
      modifies this`currClust, this`csect, fs`disk, fs`winsect, fs`wflag, fs.win
      ensures Ready() && fs.View() == old(fs.View())
      ensures if fptr > 0 && fs.g.SectorOf(fptr / SECTOR_SIZE) == 0 then fs.winsect < fs.g.FatEnd()
              else fs.wflag == old(fs.wflag) && fs.winsect == old(fs.winsect) && fs.disk == old(fs.disk) && fs.win[..] == old(fs.win[..])
    {
      hide Patch, Fat, Sectors, Content, IsChain, Volume.View, Volume.Coherent;
      hide Geometry.CopyAt, Geometry.DataEnd, Geometry.ClusterOf, Geometry.SectorOf, Geometry.SectorsIn, Clusters, Placed;
      FirstSector();
      if csect >= fs.g.csize {
        NextForRead();
      } else {
        InsideCluster();
      }
    }

    /** Whole sectors from a sector boundary on. */
    method ReadWhole(btr: nat) returns (data: seq<Byte>)
      requires Valid() && fptr % SECTOR_SIZE == 0 && SECTOR_SIZE <= btr && fptr + btr <= fsize
      modifies this`currClust, this`csect, this`fptr, fs`disk, fs`winsect, fs`wflag, fs.win
      ensures Valid() && fs.View() == old(fs.View()) && 1 <= |data| <= btr && fptr == old(fptr) + |data|
      ensures data == Bytes()[old(fptr)..fptr] <==> !old(Stale(btr))
      ensures |data| < btr ==> !Stale(btr - |data|)
    {
      hide Patch, Fat, Sectors, Content, IsChain, Volume.View, Volume.Coherent;
      hide Geometry.CopyAt, Geometry.DataEnd, Geometry.ClusterOf, Geometry.SectorOf, Geometry.SectorsIn, Clusters, Placed;
      FatInside(fs.g);
      ReachSector();
      ReadySector();
      var cc;
      data, cc := ReadDirect(btr);
    }

    /** One round of the loop of f_read. */
    method ReadStep(btr: nat) returns (data: seq<Byte>)
      requires Valid() && 1 <= btr && fptr + btr <= fsize
      modifies this`currClust, this`csect, this`fptr, this`dsect, fs`disk, fs`winsect, fs`wflag, fs.win
      ensures Valid() && fs.View() == old(fs.View()) && 1 <= |data| <= btr && fptr == old(fptr) + |data|
      ensures data == Bytes()[old(fptr)..fptr] <==> !old(Stale(btr))
      ensures |data| < btr ==> !Stale(btr - |data|)
    {
      hide Volume.Clust2Sect, Geometry.Valid, DataSector;
      hide Patch, Fat, Sectors, Content, IsChain, Volume.View, Volume.Coherent;
      hide Geometry.CopyAt, Geometry.DataEnd, Geometry.ClusterOf, Geometry.SectorOf, Geometry.SectorsIn, Clusters, Placed;
      if fptr % SECTOR_SIZE == 0 && btr >= SECTOR_SIZE {
        data := ReadWhole(btr);
        return;
      }
      ghost var n := fptr / SECTOR_SIZE;
      FatInside(fs.g);
      if fptr % SECTOR_SIZE == 0 {
        ReachSector();
        ReadySector();
        var sect := fs.Clust2Sect(currClust);
        sect := sect + csect;
        dsect := sect;
        csect := csect + 1;
      } else {
        MidSector();
      }
      data := ReadPartial(btr);
      NextNotShown(n);
    }

    /** Read from the file pointer, as far as the file goes. What comes back is the file's
        content exactly if the first run fetched past the window holds no sector waiting in it. */
    method Read(btr: Dword) returns (res: FResult, data: seq<Byte>)
      requires fs.Valid()
      requires Usable() ==> Valid()
      modifies this`currClust, this`csect, this`fptr, this`dsect, fs`disk, fs`winsect, fs`wflag, fs.win
      ensures fs.Valid() && fs.View() == old(fs.View())
      ensures id != fs.id ==> res == FrInvalidObject
      ensures id == fs.id && aborted ==> res == FrIntErr
      ensures Usable() && !canRead ==> res == FrDenied
      ensures !(Usable() && canRead) ==> data == [] && unchanged(this, fs, fs.win)
      ensures Usable() && canRead ==>
                && res == FrOk && Valid()
                && |data| == (if btr <= fsize - old(fptr) then btr else fsize - old(fptr)) && fptr == old(fptr) + |data|
                && (data == Bytes()[old(fptr)..fptr] <==> !old(Stale(if btr <= fsize - fptr then btr else fsize - fptr)))
    {
      hide Patch, Fat, Sectors, Content, IsChain, Volume.View, Volume.Shape, Volume.Coherent, Stale;
      hide Geometry.CopyAt, Geometry.DataEnd, Geometry.ClusterOf, Geometry.SectorOf, Geometry.SectorsIn, Clusters, Placed;
      data := [];
      if id != fs.id { return FrInvalidObject, data; }
      if aborted { return FrIntErr, data; }
      if !canRead { return FrDenied, data; }
      var remain := fsize - fptr;
      var left := if btr > remain then remain else btr;
      ghost var p, b, n, stale := fptr, Bytes(), left, Stale(left);
      NothingStale();
      while left > 0
        invariant Valid() && fs.View() == old(fs.View()) && Bytes() == b
        invariant fptr == p + |data| <= |b| && 0 <= left && left + |data| == n
        invariant data == [] ==> Stale(left) == stale
        invariant data != [] && left > 0 ==> !Stale(left)
        invariant data == b[p..fptr] <==> !(stale && data != [])
      {
        ghost var before := fptr;
        var part := ReadStep(left);
        Appended(b, p, data, part);
        data := data + part;
        left := left - |part|;
      }
      return FrOk, data;
    }

    lemma NothingStale()
      requires Valid()
      ensures !Stale(0)
    {
      hide Geometry.ClusterOf, Geometry.SectorOf;
      FatInside(fs.g);
      Split(fs.g, fptr / SECTOR_SIZE);
    }

    lemma Appended(b: seq<Byte>, p: nat, data: seq<Byte>, part: seq<Byte>)
      requires p + |data| + |part| <= |b|
      ensures data + part == b[p..p + |data| + |part|] <==>
              data == b[p..p + |data|] && part == b[p + |data|..p + |data| + |part|]
    {
      var whole := b[p..p + |data| + |part|];
      assert whole[..|data|] == b[p..p + |data|] && whole[|data|..] == b[p + |data|..p + |data| + |part|];
      assert whole == whole[..|data|] + whole[|data|..];
      if data + part == whole {
        assert (data + part)[..|data|] == data && (data + part)[|data|..] == part;
      }
    }

    // ---------------------------------------------------------------- synchronising

    /** Record size, first cluster and time in the directory entry, and write everything back. */
    method SyncFile(time: Dword) returns (res: FResult)
      requires fs.Valid() && dirPtr + ENTRY_SIZE <= SECTOR_SIZE && fs.g.CopiesEnd() <= dirSect < fs.g.sectors
      requires orgClust < DWORD_LIMIT && fsize < DWORD_LIMIT
      modifies this`written, fs`disk, fs`winsect, fs`wflag, fs`fsiFlag, fs.win
      ensures fs.Valid()
      ensures res == if id != fs.id then FrInvalidObject else FrOk
      ensures !(id == fs.id && old(written)) ==> fs.View() == old(fs.View()) && written == old(written)
      ensures id == fs.id && old(written) ==>
                && !written && !fs.wflag && fs.View() == fs.disk
                && EntryCluster(fs.View()[dirSect], dirPtr) == orgClust && EntrySize(fs.View()[dirSect], dirPtr) == fsize
                && fs.View()[dirSect][dirPtr..dirPtr + ENTRY_SIZE]
                   == NewEntry(old(fs.View()[dirSect][dirPtr..dirPtr + ENTRY_SIZE]), orgClust, fsize, time)
                && (forall i :: 0 <= i < SECTOR_SIZE && !(dirPtr <= i < dirPtr + ENTRY_SIZE) ==>
                      fs.View()[dirSect][i] == old(fs.View())[dirSect][i])
                && (forall t :: 0 <= t < fs.g.sectors && t != dirSect && !(fs.g.fsType.Fat32? && t == fs.g.fsiSector) ==>
                      fs.View()[t] == old(fs.View())[t])
      ensures id == fs.id && old(written) && fs.g.fsType.Fat32? && old(fs.fsiFlag) ==>
                fs.g.fsiSector < |fs.disk| && fs.disk[fs.g.fsiSector] == InfoSector(fs.freeClust, fs.lastClust)
      ensures fs.Table() == old(fs.Table())
      ensures old(fs.CountRight()) ==> fs.CountRight()
    {
      hide Patch, Fat, Volume.View, Volume.Shape, Volume.Coherent, Geometry.CopyAt, Geometry.DataEnd, NewEntry, InfoSector;
      res := if id != fs.id then FrInvalidObject else FrOk;
      if res.FrOk? && written {
        ghost var v := fs.View();
        FatInside(fs.g);
        RecordEntry(time);
        written := false;
        fs.Sync();
        SameFat(fs.g, v, fs.View());
      }
    }

    /** The directory entry brought up to date in the window. */
    method RecordEntry(time: Dword)
      requires fs.Valid() && dirPtr + ENTRY_SIZE <= SECTOR_SIZE && fs.g.CopiesEnd() <= dirSect < fs.g.sectors
      requires orgClust < DWORD_LIMIT && fsize < DWORD_LIMIT
      modifies fs`disk, fs`winsect, fs`wflag, fs.win
      ensures fs.Valid() && fs.Table() == old(fs.Table())
      ensures var w := fs.View()[dirSect];
              && fs.View() == old(fs.View())[dirSect := w]
              && EntryCluster(w, dirPtr) == orgClust && EntrySize(w, dirPtr) == fsize
              && w[dirPtr..dirPtr + ENTRY_SIZE] == NewEntry(old(fs.View()[dirSect][dirPtr..dirPtr + ENTRY_SIZE]), orgClust, fsize, time)
              && (forall i :: 0 <= i < SECTOR_SIZE && !(dirPtr <= i < dirPtr + ENTRY_SIZE) ==> w[i] == old(fs.View())[dirSect][i])
    {
      hide Patch, Fat, Volume.View, Volume.Coherent, Geometry.CopyAt, Geometry.DataEnd, NewEntry;
      ghost var v := fs.View();
      FatInside(fs.g);
      fs.MoveWindow(dirSect);
      var e := fs.win[dirPtr..dirPtr + ENTRY_SIZE];
      var entry := NewEntry(e, orgClust, fsize, time);
      fs.StoreInWindow(dirPtr, entry);
      ghost var w := fs.win[..];
      PatchData(fs.g, v, dirSect, w);
      SliceBack(w, dirPtr, entry);
      EntryRoundTrip(w, dirPtr, e, orgClust, fsize, time);
      SameFat(fs.g, v, fs.View());
    }
  }

  lemma SliceBack(w: seq<Byte>, ptr: nat, e: seq<Byte>)
    requires ptr + |e| <= |w| && forall j :: ptr <= j < ptr + |e| ==> w[j] == e[j - ptr]
    ensures w[ptr..ptr + |e|] == e
  {
  }

  /** Attributes with the archive bit set. */
  function Archived(a: Byte): Byte { if (a / 32) % 2 == 1 then a else (a + 32) % 0x100 }

  lemma ArchivedBits(a: Byte)
    ensures (Archived(a) / 32) % 2 == 1 && Archived(a) % 32 == a % 32 && Archived(a) / 64 == a / 64
  {
    var q := a / 32;
    assert a == 32 * q + a % 32 && q < 8;
  }

  /** The directory entry of a file that was written: archive bit, size, first cluster, time. */
  function NewEntry(e: seq<Byte>, org: Dword, size: Dword, time: Dword): (r: seq<Byte>)
    requires |e| == ENTRY_SIZE
    ensures |r| == ENTRY_SIZE
  {
    var e1 := Overwrite(e, DIR_ATTR, [Archived(e[DIR_ATTR])]);
    var e2 := Overwrite(e1, DIR_FILE_SIZE, Dword4(size));
    var e3 := Overwrite(e2, DIR_CLUSTER_LO, Dword4(org)[..2]);
    var e4 := Overwrite(e3, DIR_CLUSTER_HI, Dword4(org)[2..]);
    Overwrite(e4, DIR_WRITE_TIME, Dword4(time))
  }

  /** The name, the other attributes and the creation time of an entry survive; the archive bit
      is set and the time of writing recorded. */
  lemma NewEntryKeeps(e: seq<Byte>, org: Dword, size: Dword, time: Dword)
    requires |e| == ENTRY_SIZE
    ensures var r := NewEntry(e, org, size, time);
            && r[..DIR_ATTR] == e[..DIR_ATTR] && r[DIR_ATTR + 1..DIR_CLUSTER_HI] == e[DIR_ATTR + 1..DIR_CLUSTER_HI]
            && (r[DIR_ATTR] / 32) % 2 == 1 && r[DIR_ATTR] % 32 == e[DIR_ATTR] % 32 && r[DIR_ATTR] / 64 == e[DIR_ATTR] / 64
            && LoadDword(r, DIR_WRITE_TIME) == time
  {
    hide Archived, LoadDword;
    ArchivedBits(e[DIR_ATTR]);
    var r := NewEntry(e, org, size, time);
    assert r[DIR_WRITE_TIME..DIR_WRITE_TIME + 4] == Dword4(time);
    DwordRoundTrip(r, DIR_WRITE_TIME, time);
  }

  /** Opening a file finds the size and first cluster that synchronising it recorded. */
  lemma EntryRoundTrip(w: seq<Byte>, ptr: nat, e: seq<Byte>, org: Dword, size: Dword, time: Dword)
    requires ptr + ENTRY_SIZE <= |w| && |e| == ENTRY_SIZE && w[ptr..ptr + ENTRY_SIZE] == NewEntry(e, org, size, time)
    ensures EntryCluster(w, ptr) == org && EntrySize(w, ptr) == size
  {
    var r := NewEntry(e, org, size, time);
    assert w[ptr + DIR_CLUSTER_LO] == r[DIR_CLUSTER_LO] && w[ptr + DIR_CLUSTER_LO + 1] == r[DIR_CLUSTER_LO + 1];
    assert w[ptr + DIR_CLUSTER_HI] == r[DIR_CLUSTER_HI] && w[ptr + DIR_CLUSTER_HI + 1] == r[DIR_CLUSTER_HI + 1];
    assert w[ptr + DIR_FILE_SIZE..ptr + DIR_FILE_SIZE + 4] == r[DIR_FILE_SIZE..DIR_FILE_SIZE + 4] == Dword4(size);
    DwordRoundTrip(w, ptr + DIR_FILE_SIZE, size);
    DwordRoundTrip(Dword4(org), 0, org);
  }

  lemma SectorAt(g: Geometry, v: seq<Sector>, ch: seq<nat>, n: nat)
    requires g.Valid() && |v| == g.sectors && Clusters(g, ch) && n < g.SectorsIn(|ch|)
    ensures g.ClusterOf(n) < |ch| && FileSector(g, ch, n) < g.sectors && Sectors(g, v, ch)[n] == v[FileSector(g, ch, n)]
  {
    FileSectorInside(g, ch, n);
  }

  lemma OrgInRange(g: Geometry, t: seq<nat>, org: nat, ch: seq<nat>)
    requires g.Valid() && FileChain(g, t, org, ch)
    ensures org < DWORD_LIMIT
  {
  }

  lemma LinkInRange(g: Geometry, ch: seq<nat>, i: nat)
    requires Clusters(g, ch) && i < |ch|
    ensures 2 <= ch[i] < g.maxClust
  {
  }

  lemma ContentLonger(ss: seq<Sector>, ss': seq<Sector>, size: nat, size': nat)
    requires ss <= ss' && size <= |ss| * SECTOR_SIZE && size <= size' <= |ss'| * SECTOR_SIZE
    ensures Content(ss, size) <= Content(ss', size')
  {
    ContentPrefix(ss, ss', size);
    assert Content(ss', size')[..size] == Content(ss', size);
  }

  // ---------------------------------------------------------------- the shortcut of f_lseek

  /** The loop of f_lseek over a chain that is long enough: from rest bytes into or behind cluster i. */
  function WalkFrom(bcs: nat, i: nat, rest: nat): (nat, nat)
    requires bcs > 0
    decreases rest
  {
    if rest > bcs then WalkFrom(bcs, i + 1, rest - bcs) else (i, rest)
  }

  /** Seeking from ifptr to ofs, the walk starts at the current cluster. */
  predicate Shortcut(g: Geometry, ifptr: nat, ofs: nat)
    requires 1 <= g.csize
  {
    0 < ifptr && 0 < ofs && (ofs - 1) / g.ClusterBytes() >= (ifptr - 1) / g.ClusterBytes()
  }

  /** Then the code takes the masked pointer for the start of that cluster. */
  predicate ShortcutRight(g: Geometry, ifptr: nat, ofs: nat)
    requires 1 <= g.csize
  {
    Shortcut(g, ifptr, ofs) ==> RoundsDown(ifptr - 1, g.ClusterBytes())
  }

  /** The sector of the file in which the shortcut lands, with the 32-bit difference the code walks. */
  function ShortcutSector(g: Geometry, ifptr: nat, ofs: nat): int
    requires 1 <= g.csize && 0 < ifptr < DWORD_LIMIT && ofs < DWORD_LIMIT
  {
    WalkEnd(g, ClusterAt(g, ifptr - 1), Wrapped(ofs - ClearBelow(ifptr - 1, g.ClusterBytes())))
  }

  /** The cluster of the file that holds byte x. */
  function ClusterAt(g: Geometry, x: nat): nat
    requires 1 <= g.csize
  {
    x / g.ClusterBytes()
  }

  /** A difference in 32 bits. */
  function Wrapped(x: int): Dword { x % DWORD_LIMIT }

  /** The sector where a walk of rest bytes from cluster i ends. */
  function WalkEnd(g: Geometry, i: nat, rest: nat): int
    requires 1 <= g.csize
  {
    var (j, r) := WalkFrom(g.ClusterBytes(), i, rest);
    j * g.csize + r / SECTOR_SIZE + (if r % SECTOR_SIZE != 0 then 1 else 0) - 1
  }

  lemma {:induction false} WalkSector(g: Geometry, i: nat, rest: nat)
    requires 1 <= g.csize
    ensures var (j, r) := WalkFrom(g.ClusterBytes(), i, rest);
            j * g.csize + (r - 1) / SECTOR_SIZE == i * g.csize + (rest - 1) / SECTOR_SIZE
    decreases rest
  {
    var bcs := g.ClusterBytes();
    if rest > bcs {
      WalkSector(g, i + 1, rest - bcs);
      Quotient(rest - 1, SECTOR_SIZE, g.csize + (rest - bcs - 1) / SECTOR_SIZE, (rest - bcs - 1) % SECTOR_SIZE);
    }
  }

  lemma LastSector(rest: nat)
    ensures rest / SECTOR_SIZE + (if rest % SECTOR_SIZE != 0 then 1 else 0) - 1 == (rest - 1) / SECTOR_SIZE
  {
  }

  /** The 32-bit difference to a sector boundary, in sectors. */
  lemma SectorsBetween(ofs: nat, m: nat) returns (wraps: nat)
    requires 0 < ofs < DWORD_LIMIT && m * SECTOR_SIZE < DWORD_LIMIT
    ensures wraps == if ofs < m * SECTOR_SIZE then DWORD_LIMIT / SECTOR_SIZE else 0
    ensures ((ofs - m * SECTOR_SIZE) % DWORD_LIMIT - 1) / SECTOR_SIZE == (ofs - 1) / SECTOR_SIZE - m + wraps
  {
    wraps := if ofs < m * SECTOR_SIZE then DWORD_LIMIT / SECTOR_SIZE else 0;
    assert (ofs - m * SECTOR_SIZE) % DWORD_LIMIT == ofs - m * SECTOR_SIZE + wraps * SECTOR_SIZE;
  }

  /** The shortcut lands in the sector of the last byte before ofs, exactly if the masked pointer is
      the start of the cluster. */
  lemma ShortcutExactly(g: Geometry, ifptr: nat, ofs: nat)
    requires g.Valid() && ifptr < DWORD_LIMIT && ofs < DWORD_LIMIT && Shortcut(g, ifptr, ofs)
    ensures ShortcutSector(g, ifptr, ofs) == (ofs - 1) / SECTOR_SIZE <==> ShortcutRight(g, ifptr, ofs)
  {
    hide Masked, WalkFrom;
    var bcs, x := g.ClusterBytes(), ifptr - 1;
    var q, m := x / bcs, ClearBelow(x / SECTOR_SIZE, g.csize);
    MaskedSectors(x, g.csize);
    MaskedWithin(x / SECTOR_SIZE, g.csize - 1);
    ClusterBefore(g, x, ofs - 1);
    var wraps := SectorsBetween(ofs, m);
    WalkSector(g, q, (ofs - m * SECTOR_SIZE) % DWORD_LIMIT);
    var (_, r) := WalkFrom(bcs, q, (ofs - m * SECTOR_SIZE) % DWORD_LIMIT);
    LastSector(r);
  }

  lemma ClusterBefore(g: Geometry, x: nat, y: nat)
    requires 1 <= g.csize && x / g.ClusterBytes() <= y / g.ClusterBytes()
    ensures RoundedDown(x, g.ClusterBytes()) == x / g.ClusterBytes() * g.csize * SECTOR_SIZE <= y
  {
    var bcs := g.ClusterBytes();
    RoundedParts(x, bcs);
    RoundedParts(y, bcs);
    if x / bcs < y / bcs { Spread(x / bcs, y / bcs, bcs); }
  }

  /** The shortcut always lands right, exactly if the cluster size is a power of two; if it is not,
      seeking again to the first byte of the second cluster goes astray. */
  lemma ShortcutAlways(g: Geometry)
    requires g.Valid()
    ensures (forall ifptr: nat, ofs: nat :: ifptr < DWORD_LIMIT && ofs < DWORD_LIMIT ==> ShortcutRight(g, ifptr, ofs)) <==> IsPowerOfTwo(g.csize)
    ensures var p := g.ClusterBytes() + 1;
            Shortcut(g, p, p) && (!IsPowerOfTwo(g.csize) ==> ShortcutSector(g, p, p) != (p - 1) / SECTOR_SIZE)
  {
    hide ShortcutSector, ClearBelow, IsPowerOfTwo;
    var bcs := g.ClusterBytes();
    MaskedSectors(bcs, g.csize);
    if IsPowerOfTwo(g.csize) {
      ClearBelowExactly(bcs);
    } else {
      NotRounded(bcs);
      ShortcutExactly(g, bcs + 1, bcs + 1);
      assert !ShortcutRight(g, bcs + 1, bcs + 1);
    }
  }

  /** The byte position x rounded down to its cluster. */
  lemma ClusterStartOf(g: Geometry, x: nat) returns (q: nat)
    requires g.Valid()
    ensures q == g.ClusterOf(x / SECTOR_SIZE) == x / g.ClusterBytes()
    ensures RoundedDown(x, g.ClusterBytes()) == g.SectorsIn(q) * SECTOR_SIZE <= x
  {
    hide Geometry.ClusterOf, Geometry.SectorOf;
    var m, s := x / SECTOR_SIZE, x % SECTOR_SIZE;
    Split(g, m);
    q := g.ClusterOf(m);
    var r := g.SectorOf(m) * SECTOR_SIZE + s;
    assert q * (g.csize * SECTOR_SIZE) == (q * g.csize) * SECTOR_SIZE;
    Quotient(x, g.csize * SECTOR_SIZE, q, r);
  }
}
