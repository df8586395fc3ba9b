/** Walking a directory table, and stretching it by a cluster. */
module FatDirectory {
  import opened FatTypes
  import opened SectorWindow
  import opened FatTable
  import opened ClusterChains
  import opened FileBytes
  import opened FatVolume

  const ENTRIES := 16      // directory entries per sector
  const ENTRY_BYTES := 32

  class Directory {
    const fs: Volume
    const rootBase: nat    // first sector of the static root directory
    const rootCount: nat   // its number of entries; 0 if the root directory is a chain
    var sclust: nat
    var clust: nat
    var index: nat
    var sect: nat
    var dir: nat
    // The clusters of the table, as the FAT links them.
    ghost var chain: seq<nat>

    /** The table that starts at a cluster, or the static root directory for 0. */
    constructor (volume: Volume, base: nat, count: nat, start: nat, ghost ch: seq<nat>)
      ensures fs == volume && rootBase == base && rootCount == count && sclust == start && chain == ch
    {
      fs, rootBase, rootCount, sclust, chain := volume, base, count, start, ch;
      clust, index, sect, dir := 0, 0, 0, 0;
    }

    /** The volume, and a static root directory behind the FAT copies. */
    ghost predicate Mounted()
      reads fs, fs.win
    {
      && fs.Valid()
      && (rootCount > 0 ==> fs.g.CopiesEnd() <= rootBase)
    }

    ghost predicate Chained()
      reads this`sclust, this`chain, fs, fs.win
      requires fs.Shape()
    {
      sclust != 0 ==> FileChain(fs.g, fs.Table(), sclust, chain)
    }

    /** The number of entries in the sectors of the table. Walking a static root directory of fewer
        goes on to the end of its last sector. */
    ghost function Entries(): nat
      reads this`sclust, this`chain
    {
      (if sclust == 0 then (rootCount + ENTRIES - 1) / ENTRIES else fs.g.SectorsIn(|chain|)) * ENTRIES
    }

    /** The sector, and in a chain the cluster, of the entry. */
    ghost predicate Seated()
      reads this`sclust, this`clust, this`index, this`sect, this`dir, this`chain
      requires fs.g.Valid() && (sclust != 0 ==> Clusters(fs.g, chain))
    {
      var n := index / ENTRIES;
      && dir == (index % ENTRIES) * ENTRY_BYTES
      && if sclust == 0 then sect == rootBase + n
         else fs.g.ClusterOf(n) < |chain| && clust == chain[fs.g.ClusterOf(n)] && sect == FileSector(fs.g, chain, n)
    }

    ghost predicate Valid()
      reads this, fs, fs.win
    {
      Mounted() && Chained() && index < 0x1_0000 && index < Entries() && Seated()
    }

    /** Move to entry idx, following the chain from its first cluster. */
    method Seek(idx: nat) returns (res: FResult)
      requires Mounted() && idx < 0x1_0000
      requires sclust != 0 && 2 <= sclust < fs.g.maxClust ==> Chained()
      modifies this`clust, this`index, this`sect, this`dir
      modifies fs`disk, fs`winsect, fs`wflag, fs.win
      ensures fs.Valid() && fs.View() == old(fs.View())
      ensures res == if sclust == 1 || sclust >= fs.g.maxClust || idx >= (if sclust == 0 then rootCount else Entries()) then FrIntErr else FrOk
      ensures res.FrOk? ==> Valid() && index == idx
    {
      hide Patch, Fat, Sectors, IsChain, Volume.View, Volume.Shape, Volume.Coherent;
      hide Geometry.CopyAt, Geometry.DataEnd, Geometry.ClusterOf, Geometry.SectorOf, Geometry.SectorsIn;
      index := idx;
      var clst := sclust;
      if clst == 1 || clst >= fs.g.maxClust { return FrIntErr; }
      var left := idx;
      if clst == 0 {
        if idx >= rootCount { return FrIntErr; }
        sect := rootBase + idx / ENTRIES;
      } else {
        ghost var k: nat := 0;
        NoSectors(fs.g);
        var ic := ENTRIES * fs.g.csize;
        while left >= ic
          invariant Mounted() && Chained() && fs.View() == old(fs.View())
          invariant 0 <= left && left + fs.g.SectorsIn(k) * ENTRIES == idx
          invariant k < |chain| && clst == chain[k] && index == idx
        {
          Link(fs.Table(), chain, k);
          MoreSectors(fs.g, k);
          clst := fs.GetCluster(clst);
          if clst < 2 || clst >= fs.g.maxClust { return FrIntErr; }
          left := left - ic;
          k := k + 1;
        }
        clust := clst;
        Arrive(idx, left, k);
        sect := fs.Clust2Sect(clst) + left / ENTRIES;
      }
      dir := (left % ENTRIES) * ENTRY_BYTES;
      return FrOk;
    }

    /** Where following k links and left entries leads. */
    lemma Arrive(idx: nat, left: nat, k: nat)
      requires fs.g.Valid() && Clusters(fs.g, chain) && k < |chain|
      requires left < ENTRIES * fs.g.csize && left + fs.g.SectorsIn(k) * ENTRIES == idx
      ensures idx % ENTRIES == left % ENTRIES
      ensures fs.g.ClusterOf(idx / ENTRIES) == k && fs.g.SectorOf(idx / ENTRIES) == left / ENTRIES
      ensures FileSector(fs.g, chain, idx / ENTRIES) == fs.Clust2Sect(chain[k]) + left / ENTRIES
      ensures idx < fs.g.SectorsIn(|chain|) * ENTRIES
    {
      hide Geometry.ClusterOf, Geometry.SectorOf;
      ghost var s := fs.g.SectorsIn(k);
      assert idx / ENTRIES == s + left / ENTRIES && idx % ENTRIES == left % ENTRIES;
      Join(fs.g, idx / ENTRIES, k, left / ENTRIES);
      InChain(fs.g, idx / ENTRIES, |chain|);
      fs.ClusterInside(chain[k]);
    }

    /** The next entry would lie past the last cluster. */
    ghost predicate AtEnd()
      reads this`sclust, this`index, this`chain
    {
      sclust != 0 && index + 1 == Entries()
    }

    /** Where the next entry begins a sector, masking its number tells whether it begins a cluster. */
    ghost predicate TurnSeen()
      reads this`sclust, this`index
      requires 1 <= fs.g.csize
    {
      sclust != 0 && (index + 1) % ENTRIES == 0 ==> TurnSeenAt(fs.g, (index + 1) / ENTRIES)
    }

    /** On a sector boundary of a chain: whether the next sector is in the same cluster, in
        the next, or past the last. */
    lemma NextSeat()
      requires Valid() && sclust != 0 && (index + 1) % ENTRIES == 0 && TurnSeen()
      ensures var g, n := fs.g, (index + 1) / ENTRIES;
              && (n - ClearBelow(n, g.csize) == 0 <==> g.SectorOf(n) == 0)
              && InRange(fs.Table(), clust)
              && if g.SectorOf(n) != 0
                 then index + 1 < Entries() && g.ClusterOf(n) < |chain| && clust == chain[g.ClusterOf(n)] && FileSector(g, chain, n) == sect + 1
                 else if g.ClusterOf(n) < |chain|
                 then index + 1 < Entries() && 2 <= fs.Table()[clust] == chain[g.ClusterOf(n)] < g.maxClust
                      && FileSector(g, chain, n) == fs.Clust2Sect(chain[g.ClusterOf(n)])
                 else AtEnd() && n == g.SectorsIn(|chain|) && clust == chain[|chain| - 1] && fs.Table()[clust] >= g.maxClust
    {
      hide Patch, Fat, Volume.View, Volume.Shape, Volume.Coherent;
      hide Geometry.CopyAt, Geometry.DataEnd, Geometry.ClusterOf, Geometry.SectorOf;
      ghost var g, n, m := fs.g, (index + 1) / ENTRIES, index / ENTRIES;
      assert n == m + 1;
      NextSector(g, m);
      Split(g, n);
      Split(g, m);
      InChain(g, n, |chain|);
      InChain(g, m, |chain|);
      Link(fs.Table(), chain, g.ClusterOf(m));
      if g.SectorOf(n) == 0 && g.ClusterOf(n) < |chain| { fs.ClusterInside(chain[g.ClusterOf(n)]); }
    }

    /** Append a cleared cluster to the chain. */
    method Stretch() returns (res: FResult, r: nat)
      requires Mounted() && Chained() && sclust != 0 && clust == chain[|chain| - 1] && fs.Table()[clust] >= fs.g.maxClust
      modifies this`chain
      modifies fs`disk, fs`winsect, fs`wflag, fs`fsiFlag, fs`freeClust, fs`lastClust, fs.win
      ensures fs.Valid() && OthersKept(fs.g, old(fs.View()), fs.View(), old(chain))
      ensures res == FrOk || (res == FrDenied && NoFree(old(fs.Table()))) || (res == FrIntErr && !NoOnes(old(fs.Table())))
      ensures !res.FrOk? ==> fs.View() == old(fs.View()) && chain == old(chain)
      ensures res.FrOk? ==>
                && chain == old(chain) + [r] && 2 <= r < fs.g.maxClust && Grown(old(fs.Table()), old(chain), chain) && Chained()
                && Sectors(fs.g, old(fs.View()), old(chain)) <= Sectors(fs.g, fs.View(), chain)
                && (forall n :: fs.g.SectorsIn(|old(chain)|) <= n < fs.g.SectorsIn(|chain|) ==> Sectors(fs.g, fs.View(), chain)[n] == Zeros())
                && fs.winsect == fs.Clust2Sect(r) && fs.win[..] == Zeros()
                && (var n := fs.g.SectorsIn(|old(chain)|);
                    fs.g.ClusterOf(n) == |old(chain)| && FileSector(fs.g, chain, n) == fs.winsect && n < fs.g.SectorsIn(|chain|))
      ensures old(fs.CountRight()) ==> fs.CountRight()
    {
      hide Patch, Fat, Sectors, IsChain, Volume.View, Volume.Shape, Volume.Coherent, OthersKept, OnlyFat, Grown, Step;
      hide Geometry.CopyAt, Geometry.DataEnd, Geometry.ClusterOf, Geometry.SectorOf, Geometry.SectorsIn;
      ghost var g, v, ch: seq<nat> := fs.g, fs.View(), chain;
      OthersKeptNothing(g, v, ch);
      r := fs.CreateChain(clust);
      if r == 0 { return FrDenied, r; }
      if r == 1 { return FrIntErr, r; }
      GrowFile(g, v, fs.View(), sclust, ch, r, fs.EndMark());
      chain := chain + [r];
      ghost var v1 := fs.View();
      fs.ClearCluster(r);
      fs.ClusterInside(r);
      Cleared(g, v1, fs.View(), ch, r, fs.Clust2Sect(r));
      OthersKeptTwice(g, v, v1, fs.View(), ch, chain);
      FirstOfAppended(g, ch, r);
      res := FrOk;
    }

    /** What a move past the last entry changes: one cleared cluster at the end of the chain. */
    twostate predicate Lengthened()
      reads this`chain, this`clust, this`sect, fs, fs.win
      requires old(fs.Shape()) && fs.Shape() && Clusters(fs.g, old(chain)) && Clusters(fs.g, chain)
    {
      && chain == old(chain) + [clust] && Grown(old(fs.Table()), old(chain), chain)
      && Sectors(fs.g, old(fs.View()), old(chain)) <= Sectors(fs.g, fs.View(), chain)
      && (forall n :: fs.g.SectorsIn(|old(chain)|) <= n < fs.g.SectorsIn(|chain|) ==> Sectors(fs.g, fs.View(), chain)[n] == Zeros())
      && fs.winsect == sect && fs.win[..] == Zeros()
    }

    /** The sector of the next entry, when that is not the sector of this one. */
    method NextSectorInChain(stretch: bool) returns (res: FResult)
      requires Valid() && sclust != 0 && (index + 1) % ENTRIES == 0 && TurnSeen()
      modifies this`clust, this`sect, this`chain
      modifies fs`disk, fs`winsect, fs`wflag, fs`fsiFlag, fs`freeClust, fs`lastClust, fs.win
      ensures Mounted() && OthersKept(fs.g, old(fs.View()), fs.View(), old(chain))
      ensures res == if !old(AtEnd()) then FrOk
                     else if !stretch then FrNoFile
                     else if res.FrDenied? || res.FrIntErr? then res else FrOk
      ensures res.FrDenied? ==> NoFree(old(fs.Table()))
      ensures res.FrIntErr? ==> !NoOnes(old(fs.Table()))
      ensures res.FrOk? ==>
                var n := (index + 1) / ENTRIES;
                && Chained() && index + 1 < Entries()
                && fs.g.ClusterOf(n) < |chain| && clust == chain[fs.g.ClusterOf(n)] && sect == FileSector(fs.g, chain, n)
      ensures !res.FrOk? || !old(AtEnd()) ==> fs.View() == old(fs.View()) && chain == old(chain)
      ensures res.FrOk? && old(AtEnd()) ==> Lengthened()
      ensures res.FrOk? && old(AtEnd()) ==>
                |chain| == |old(chain)| + 1 && fs.winsect == sect && (forall i :: 0 <= i < 512 ==> fs.win[i] == 0)
      ensures old(fs.CountRight()) ==> fs.CountRight()
    {
      hide FreeCount, NoFree, NoOnes, FileSector, Clusters, Volume.Clust2Sect, ClearBelow, Geometry.Valid;
      hide Patch, Fat, Sectors, IsChain, Volume.View, Volume.Shape, Volume.Coherent, OthersKept, OnlyFat, Grown;
      hide Geometry.CopyAt, Geometry.DataEnd, Geometry.ClusterOf, Geometry.SectorOf, Geometry.SectorsIn;
      OthersKeptNothing(fs.g, fs.View(), chain);
      NextSeat();
      ghost var n, ch: seq<nat> := (index + 1) / ENTRIES, chain;
      var i := index + 1;
      sect := sect + 1;
      if i / ENTRIES - ClearBelow(i / ENTRIES, fs.g.csize) == 0 {
        var clst := fs.GetCluster(clust);
        if clst <= 1 { return FrIntErr; }
        if clst >= fs.g.maxClust {
          if !stretch { return FrNoFile; }
          res, clst := Stretch();
          if !res.FrOk? { return res; }
        }
        clust := clst;
        sect := fs.Clust2Sect(clst);
      }
      return FrOk;
    }

    /** Move to the next entry; at the end of a chain append a cleared cluster if asked to. */
    method Next(stretch: bool) returns (res: FResult)
      requires Valid() && TurnSeen()
      modifies this`clust, this`index, this`sect, this`dir, this`chain
      modifies fs`disk, fs`winsect, fs`wflag, fs`fsiFlag, fs`freeClust, fs`lastClust, fs.win
      ensures fs.Valid() && OthersKept(fs.g, old(fs.View()), fs.View(), old(chain))
      ensures res == if old(index) == 0xFFFF || (sclust == 0 && old(index) + 1 == Entries()) then FrNoFile
                     else if !old(AtEnd()) then FrOk
                     else if !stretch then FrNoFile
                     else if res.FrDenied? || res.FrIntErr? then res else FrOk
      ensures res.FrDenied? ==> NoFree(old(fs.Table()))
      ensures res.FrIntErr? ==> !NoOnes(old(fs.Table()))
      ensures res.FrOk? ==> Valid() && index == old(index) + 1
      ensures !res.FrOk? || !old(AtEnd()) ==> fs.View() == old(fs.View()) && chain == old(chain)
      ensures res.FrOk? && old(AtEnd()) ==> Lengthened() && dir == 0
      ensures res.FrOk? && old(AtEnd()) ==>
                |chain| == |old(chain)| + 1 && fs.winsect == sect && (forall i :: 0 <= i < 512 ==> fs.win[i] == 0)
      ensures old(fs.CountRight()) ==> fs.CountRight()
    {
      hide FreeCount, NoFree, NoOnes, FileSector, Clusters, Geometry.Valid, Directory.Entries, TurnSeenAt;
      hide Patch, Fat, Sectors, IsChain, Volume.View, Volume.Shape, Volume.Coherent, OthersKept, OnlyFat, Grown, Lengthened;
      hide Geometry.CopyAt, Geometry.DataEnd, Geometry.ClusterOf, Geometry.SectorOf, Geometry.SectorsIn;
      OthersKeptNothing(fs.g, fs.View(), chain);
      SectAboveZero();
      SameSector();
      var i := (index + 1) % 0x1_0000;
      if i == 0 || sect == 0 { return FrNoFile; }
      if i % ENTRIES == 0 {
        if sclust == 0 {
          sect := sect + 1;
          if i >= rootCount { return FrNoFile; }
        } else {
          res := NextSectorInChain(stretch);
          if !res.FrOk? { return res; }
        }
      }
      index := i;
      dir := (i % ENTRIES) * ENTRY_BYTES;
      return FrOk;
    }

    /** The next entry is in this sector, unless it is the first of one. */
    lemma SameSector()
      requires Valid()
      ensures index + 1 <= Entries()
      ensures (index + 1) % ENTRIES == 0 ==> (index + 1) / ENTRIES == index / ENTRIES + 1
      ensures (index + 1) % ENTRIES != 0 ==> (index + 1) / ENTRIES == index / ENTRIES && index + 1 < Entries()
      ensures sclust == 0 && (index + 1) % ENTRIES == 0 ==> (index + 1 >= rootCount <==> index + 1 == Entries())
    {
      hide Volume.View, Volume.Shape, Volume.Coherent, Fat, IsChain, Geometry.SectorsIn, Seated;
    }

    lemma SectAboveZero()
      requires Valid()
      ensures sect != 0
    {
      hide Volume.View, Volume.Shape, Volume.Coherent, Fat, IsChain, Geometry.ClusterOf, Geometry.SectorOf;
      FatInside(fs.g);
      if sclust != 0 {
        InChain(fs.g, index / ENTRIES, |chain|);
        FileSectorInside(fs.g, chain, index / ENTRIES);
      }
    }
  }

  predicate TurnSeenAt(g: Geometry, n: nat)
    requires 1 <= g.csize
  {
    n - ClearBelow(n, g.csize) == 0 <==> g.SectorOf(n) == 0
  }

  /** Masking always tells, exactly if the cluster size is a power of two; if it is not, it misses
      the end of the first cluster. */
  lemma TurnsSeen(g: Geometry)
    requires 1 <= g.csize
    ensures (forall n: nat :: TurnSeenAt(g, n)) <==> IsPowerOfTwo(g.csize)
    ensures g.SectorOf(g.csize) == 0 && (TurnSeenAt(g, g.csize) <==> IsPowerOfTwo(g.csize))
  {
    hide ClearBelow, IsPowerOfTwo;
    if IsPowerOfTwo(g.csize) {
      ClearBelowExactly(g.csize);
      forall n: nat ensures TurnSeenAt(g, n) {
        assert RoundsDown(n, g.csize);
        RoundedParts(n, g.csize);
      }
    } else {
      NotRounded(g.csize);
      assert !TurnSeenAt(g, g.csize);
    }
  }

  lemma FirstOfAppended(g: Geometry, ch: seq<nat>, r: nat)
    requires g.Valid() && Clusters(g, ch + [r]) && 2 <= r
    ensures var n := g.SectorsIn(|ch|);
            g.ClusterOf(n) == |ch| && FileSector(g, ch + [r], n) == DataSector(g, r, 0) && n < g.SectorsIn(|ch| + 1)
  {
    hide Geometry.ClusterOf, Geometry.SectorOf;
    assert (ch + [r])[|ch|] == r;
    Join'(g, g.SectorsIn(|ch|), |ch|, 0);
  }

  /** Clearing the last cluster of a chain clears its sectors of the chain and no others. */
  lemma Cleared(g: Geometry, v: seq<Sector>, v': seq<Sector>, ch: seq<nat>, r: nat, s: nat)
    requires g.Valid() && |v| == |v'| == g.sectors && Clusters(g, ch + [r]) && 2 <= r && s == DataSector(g, r, 0)
    requires forall t :: 0 <= t < g.sectors ==> v'[t] == if s <= t < s + g.csize then Zeros() else v[t]
    ensures Fat(g, v') == Fat(g, v) && OthersKept(g, v, v', ch + [r])
    ensures g.SectorsIn(|ch|) <= g.SectorsIn(|ch| + 1)
    ensures Sectors(g, v, ch + [r])[..g.SectorsIn(|ch|)] == Sectors(g, v', ch + [r])[..g.SectorsIn(|ch|)]
    ensures forall n :: g.SectorsIn(|ch|) <= n < g.SectorsIn(|ch| + 1) ==> Sectors(g, v', ch + [r])[n] == Zeros()
  {
    hide Fat, Sectors, OthersKept, Geometry.CopyAt, Geometry.DataEnd, Geometry.ClusterOf, Geometry.SectorOf, Geometry.SectorsIn;
    var ch', n := ch + [r], g.SectorsIn(|ch|);
    assert ch'[|ch|] == r;
    MoreSectors(g, |ch|);
    DataChangeKeeps(g, v, v', ch', |ch|, 0, g.csize);
    Join'(g, n, |ch|, 0);
    SectorsRun(g, v, v', ch', n, g.csize, s);
  }

  /** However an entry was reached, by counting up or by following links from the first
      cluster, the directory object stands the same. */
  lemma SameSeat(a: Directory, b: Directory)
    requires a.Valid() && b.Valid() && a.fs == b.fs && a.rootBase == b.rootBase
    requires a.sclust == b.sclust && a.index == b.index
    ensures a.sect == b.sect && a.dir == b.dir
    ensures a.sclust != 0 ==> a.chain == b.chain && a.clust == b.clust
  {
    hide Volume.View, Volume.Shape, Volume.Coherent, Fat, IsChain, Geometry.ClusterOf, Geometry.SectorOf, Geometry.SectorsIn;
    if a.sclust != 0 { ChainUnique(a.fs.Table(), a.chain, b.chain); }
  }
}
