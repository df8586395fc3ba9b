/** A mounted volume: the medium, the window over it, and the allocation counters. */
module FatVolume {
  import opened Arithmetic
  import opened FatTypes
  import opened SectorWindow
  import opened FatTable
  import opened ClusterChains

  // The mark of a chain's last cluster, before it is cut to the entry width.
  const END_MARK := 0x0FFF_FFFF

  /** How create_chain answers. */
  const NO_FREE_CLUSTER := 0
  const INTERNAL_ERROR := 1

  class Volume {
    const g: Geometry
    const id: nat
    const win: array<Byte>
    var disk: seq<Sector>
    var winsect: nat
    var wflag: bool
    var fsiFlag: bool
    var lastClust: Dword
    var freeClust: Dword

    ghost predicate Shape()
      reads this`disk, this`winsect, this`wflag, win
      ensures Shape() ==> g.Valid()
    {
      && g.Valid()
      && |disk| == g.sectors
      && win.Length == SECTOR_SIZE
      && winsect < g.sectors
      && (wflag ==> winsect != 0 && Writable(g, winsect))
    }

    /** A clean window shows what the medium holds. */
    ghost predicate Coherent()
      reads this`disk, this`winsect, this`wflag, win
      requires Shape()
    {
      !wflag && winsect != 0 ==> win[..] == disk[winsect]
    }

    ghost predicate Valid()
      reads this`disk, this`winsect, this`wflag, win
      ensures Valid() ==> Shape() && Coherent()
    {
      Shape() && Coherent()
    }

    /** The medium as a flush of the window would leave it. */
    ghost function View(): (v: seq<Sector>)
      reads this`disk, this`winsect, this`wflag, win
      requires Shape()
      ensures |v| == g.sectors
    {
      if wflag then Patch(g, disk, winsect, win[..]) else disk
    }

    ghost function Table(): (t: seq<nat>)
      reads this`disk, this`winsect, this`wflag, win
      requires Shape()
      ensures |t| == g.maxClust
    {
      Fat(g, View())
    }

    /** A known number of free clusters is right. */
    ghost predicate CountRight()
      reads this, win
      requires Shape()
    {
      freeClust != FREE_UNKNOWN ==> freeClust == FreeCount(Table())
    }

    constructor (geometry: Geometry, mountId: nat, medium: seq<Sector>, last: Dword, free: Dword)
      requires geometry.Valid() && |medium| == geometry.sectors
      ensures Valid() && g == geometry && id == mountId && View() == disk == medium
      ensures lastClust == last && freeClust == free && !fsiFlag && !wflag && winsect == 0
      ensures fresh(win)
    {
      DataInside(geometry);
      g, id, disk := geometry, mountId, medium;
      win := new Byte[SECTOR_SIZE];
      winsect, wflag, fsiFlag := 0, false, false;
      lastClust, freeClust := last, free;
    }

    /** Make sector appear in the window; sector 0 only writes a dirty window back. */
    method MoveWindow(sector: nat)
      requires Shape() && sector < g.sectors && (sector != winsect ==> Coherent())
      modifies this`disk, this`winsect, this`wflag, win
      ensures Shape() && View() == old(View())
      ensures old(Coherent()) ==> Coherent()
      ensures sector != 0 ==> winsect == sector && (old(Coherent()) ==> win[..] == View()[sector])
      ensures sector == 0 ==> winsect == old(winsect) && !wflag
      ensures sector == 0 || sector == old(winsect) ==> win[..] == old(win[..])
      ensures sector != old(winsect) ==> !wflag
      ensures sector == old(winsect) ==> wflag == old(wflag)
      ensures !old(wflag) || sector == old(winsect) ==> disk == old(disk)
    {
      hide Geometry.DataEnd, Geometry.CopyAt;
      if wflag { PatchSelf(g, disk, winsect, win[..]); }
      if winsect != sector {
        if wflag {
          WriteBack();
        }
        if sector != 0 {
          LoadWindow(disk[sector]);
          winsect := sector;
        }
      }
    }

    /** Write the dirty window to its sector and, in the FAT area, to all copies. */
    method WriteBack()
      requires Shape() && wflag
      modifies this`disk, this`wflag
      ensures Valid() && !wflag && View() == disk == old(View())
    {
      hide Geometry.DataEnd, Geometry.CopyAt, WriteCopies;
      FatInside(g);
      ghost var medium := disk;
      PatchSelf(g, medium, winsect, win[..]);
      var wsect := winsect;
      disk := disk[wsect := win[..]];
      wflag := false;
      if wsect < g.FatEnd() { WriteToCopies(medium); }
      assert disk == Patch(g, medium, winsect, win[..]);
    }

    /** Repeat a FAT sector just written in every copy of the FAT. */
    method WriteToCopies(ghost medium: seq<Sector>)
      requires g.Valid() && win.Length == SECTOR_SIZE && g.fatbase <= winsect < g.FatEnd()
      requires |medium| == g.sectors && winsect < |medium| && disk == medium[winsect := win[..]]
      modifies this`disk
      ensures g.CopyAt(winsect, g.nFats - 1) < |medium| && disk == WriteCopies(g, medium, winsect, win[..], g.nFats - 1)
    {
      hide Geometry.DataEnd, Mirrored, IsCopy;
      CopiesInside(g, winsect, 0);
      var wsect := winsect;
      var nf := g.nFats;
      while nf >= 2
        invariant 1 <= nf <= g.nFats
        invariant wsect == g.CopyAt(winsect, g.nFats - nf) < |medium|
        invariant disk == WriteCopies(g, medium, winsect, win[..], g.nFats - nf)
      {
        CopiesInside(g, winsect, g.nFats - nf + 1);
        NextCopy(g, winsect, g.nFats - nf);
        wsect := wsect + g.sectsFat;
        disk := disk[wsect := win[..]];
        nf := nf - 1;
      }
    }

    method LoadWindow(s: Sector)
      requires win.Length == SECTOR_SIZE
      modifies win
      ensures win[..] == s
    {
      forall i | 0 <= i < SECTOR_SIZE {
        win[i] := s[i];
      }
    }

    /** A clean window is taken for another sector without reading it. */
    method Retarget(sect: nat)
      requires Shape() && !wflag && sect < g.sectors
      modifies this`winsect
      ensures Shape() && View() == old(View()) && winsect == sect && !wflag
    {
      winsect := sect;
    }

    /** Put bytes at position i of the window and mark it dirty. */
    method StoreInWindow(i: nat, bytes: seq<Byte>)
      requires Shape() && Writable(g, winsect) && winsect != 0 && i + |bytes| <= SECTOR_SIZE
      modifies this`wflag, win
      ensures Valid() && wflag && win[..] == Overwrite(old(win[..]), i, bytes)
      ensures View() == Patch(g, old(View()), winsect, win[..])
    {
      hide Geometry.DataEnd, Geometry.CopyAt;
      ghost var was := win[..];
      forall j | i <= j < i + |bytes| {
        win[j] := bytes[j - i];
      }
      if wflag { PatchPatch(g, disk, winsect, was, win[..]); }
      wflag := true;
    }

    /** The entry of a cluster; 1 for a number that is no cluster. */
    method GetCluster(clst: nat) returns (r: nat)
      requires Valid()
      modifies this`disk, this`winsect, this`wflag, win
      ensures Valid() && View() == old(View())
      ensures r == if 2 <= clst < g.maxClust then Table()[clst] else 1
      ensures 2 <= clst < g.maxClust ==> g.fatbase <= winsect < g.FatEnd()
      ensures !old(wflag) ==> !wflag && disk == old(disk)
    {
      if clst < 2 || clst >= g.maxClust {
        return 1;
      }
      match g.fsType
      case Fat12 => r := GetCluster12(clst);
      case Fat16 => r := GetCluster16(clst);
      case Fat32 => r := GetCluster32(clst);
    }

    method GetCluster12(clst: nat) returns (r: nat)
      requires Valid() && 2 <= clst < g.maxClust && g.fsType.Fat12?
      modifies this`disk, this`winsect, this`wflag, win
      ensures Valid() && View() == old(View())
      ensures r == Table()[clst]
      ensures g.fatbase <= winsect < g.FatEnd()
      ensures !old(wflag) ==> !wflag && disk == old(disk)
    {
      assert g.EntryOffset(clst) + g.EntrySpan() <= g.sectsFat * SECTOR_SIZE;
      EntryPlace12(clst);
      var bc := ((clst % 0x1_0000) * 3 / 2) % 0x1_0000;
      var low := MoveToFatByte(bc);
      bc := bc + 1;
      var high := MoveToFatByte(bc);
      r := DecodeEntry(Fat12, clst, low, high, 0, 0);
    }

    method GetCluster16(clst: nat) returns (r: nat)
      requires Valid() && 2 <= clst < g.maxClust && g.fsType.Fat16?
      modifies this`disk, this`winsect, this`wflag, win
      ensures Valid() && View() == old(View())
      ensures r == Table()[clst]
      ensures g.fatbase <= winsect < g.FatEnd()
      ensures !old(wflag) ==> !wflag && disk == old(disk)
    {
      EntryPlace16(clst);
      var fsect, p := g.fatbase + clst / (SECTOR_SIZE / 2), ((clst % 0x1_0000) * 2) % SECTOR_SIZE;
      EntryInSector(g, View(), clst, fsect, p);
      MoveWindow(fsect);
      r := DecodeEntry(Fat16, clst, win[p], win[p + 1], 0, 0);
    }

    method GetCluster32(clst: nat) returns (r: nat)
      requires Valid() && 2 <= clst < g.maxClust && g.fsType.Fat32?
      modifies this`disk, this`winsect, this`wflag, win
      ensures Valid() && View() == old(View())
      ensures r == Table()[clst]
      ensures g.fatbase <= winsect < g.FatEnd()
      ensures !old(wflag) ==> !wflag && disk == old(disk)
    {
      EntryPlace32(clst);
      var fsect, p := g.fatbase + clst / (SECTOR_SIZE / 4), ((clst % 0x1_0000) * 4) % SECTOR_SIZE;
      EntryInSector(g, View(), clst, fsect, p);
      MoveWindow(fsect);
      r := DecodeEntry(Fat32, clst, win[p], win[p + 1], win[p + 2], win[p + 3]);
    }

    /** Set the entry of a cluster. */
    method PutCluster(clst: nat, val: nat) returns (res: FResult)
      requires Valid() && val < DWORD_LIMIT
      modifies this`disk, this`winsect, this`wflag, win
      ensures Valid()
      ensures res == if 2 <= clst < g.maxClust then FrOk else FrIntErr
      ensures Table() == if res.FrOk? then old(Table())[clst := val % g.EntryRange()] else old(Table())
      ensures OnlyFat(g, old(View()), View())
      ensures res.FrIntErr? ==> View() == old(View())
      ensures res.FrOk? ==> g.fatbase <= winsect < g.FatEnd()
    {
      hide Patch, Mirrored, FatBytes, Fat;
      if clst < 2 || clst >= g.maxClust {
        return FrIntErr;
      }
      res := FrOk;
      match g.fsType
      case Fat12 => PutCluster12(clst, val);
      case Fat16 => PutCluster16(clst, val);
      case Fat32 => PutCluster32(clst, val);
    }

    method PutCluster16(clst: nat, val: nat)
      requires Valid() && 2 <= clst < g.maxClust && g.fsType.Fat16? && val < DWORD_LIMIT
      modifies this`disk, this`winsect, this`wflag, win
      ensures Valid() && OnlyFat(g, old(View()), View())
      ensures Table() == old(Table())[clst := val % g.EntryRange()]
      ensures g.fatbase <= winsect < g.FatEnd()
    {
      hide StoreEntry, EntryByte, DecodeEntry, Overwrite;
      hide Geometry.DataEnd, Geometry.CopyAt, Patch, OnlyFat, Mirrored, FatBytes, Fat;
      ghost var v := View();
      ghost var o := g.EntryOffset(clst);
      EntryPlace16(clst);
      var fsect, p := g.fatbase + clst / (SECTOR_SIZE / 2), ((clst % 0x1_0000) * 2) % SECTOR_SIZE;
      var bytes := [EntryByte(Fat16, clst, val, 0, 0), EntryByte(Fat16, clst, val, 1, 0)];
      StoreWhole(g, FatBytes(g, v), clst, val, bytes);
      PutFatBytes(g, v, o, bytes);
      MoveWindow(fsect);
      StoreInWindow(p, bytes);
      StoreTable(g, v, View(), clst, val);
    }

    method PutCluster32(clst: nat, val: nat)
      requires Valid() && 2 <= clst < g.maxClust && g.fsType.Fat32? && val < DWORD_LIMIT
      modifies this`disk, this`winsect, this`wflag, win
      ensures Valid() && OnlyFat(g, old(View()), View())
      ensures Table() == old(Table())[clst := val % g.EntryRange()]
      ensures g.fatbase <= winsect < g.FatEnd()
    {
      hide EntryByte, DecodeEntry, Overwrite;
      hide Geometry.DataEnd, Geometry.CopyAt, Patch, OnlyFat, Mirrored, FatBytes, Fat, StoreEntry;
      ghost var v := View();
      ghost var o := g.EntryOffset(clst);
      EntryPlace32(clst);
      var fsect, p := g.fatbase + clst / (SECTOR_SIZE / 4), ((clst % 0x1_0000) * 4) % SECTOR_SIZE;
      var bytes := [EntryByte(Fat32, clst, val, 0, 0), EntryByte(Fat32, clst, val, 1, 0),
                    EntryByte(Fat32, clst, val, 2, 0), EntryByte(Fat32, clst, val, 3, 0)];
      StoreWhole(g, FatBytes(g, v), clst, val, bytes);
      PutFatBytes(g, v, o, bytes);
      MoveWindow(fsect);
      StoreInWindow(p, bytes);
      StoreTable(g, v, View(), clst, val);
    }

    /** A 12-bit entry may end in the next sector: the first byte is then written back
        before the second is changed. */
    method PutCluster12(clst: nat, val: nat)
      requires Valid() && 2 <= clst < g.maxClust && g.fsType.Fat12? && val < DWORD_LIMIT
      modifies this`disk, this`winsect, this`wflag, win
      ensures Valid() && OnlyFat(g, old(View()), View())
      ensures Table() == old(Table())[clst := val % g.EntryRange()]
      ensures g.fatbase <= winsect < g.FatEnd()
    {
      hide Geometry.DataEnd, Geometry.CopyAt, Patch, OnlyFat, Mirrored, FatBytes, Fat;
      hide DecodeEntry, EntryByte, StoreEntry, Overwrite;
      ghost var bytes := FatBytes(g, View());
      ghost var v := View();
      assert g.EntryOffset(clst) + g.EntrySpan() <= g.sectsFat * SECTOR_SIZE;
      EntryPlace12(clst);
      var bc := ((clst % 0x1_0000) * 3 / 2) % 0x1_0000;
      var first := MoveToFatByte(bc);
      var low := EntryByte(Fat12, clst, val, 0, first);
      StoreFatByte(bc, low);
      bc := bc + 1;
      ghost var v1 := View();
      var second := MoveToFatByte(bc);
      var high := EntryByte(Fat12, clst, val, 1, second);
      StoreFatByte(bc, high);
      OnlyFatTwice(g, v, v1, View());
      StoreIsOverwrite(g, bytes, clst, val, [low, high]);
      OverwriteTwo(bytes, g.EntryOffset(clst), low, high);
      StoreTable(g, v, View(), clst, val);
    }

    /** Bring the FAT byte at position o into the window and read it. */
    method MoveToFatByte(o: nat) returns (b: Byte)
      requires Valid() && o < g.sectsFat * SECTOR_SIZE
      modifies this`disk, this`winsect, this`wflag, win
      ensures Valid() && View() == old(View()) && b == FatBytes(g, View())[o]
      ensures winsect == g.fatbase + o / SECTOR_SIZE && g.fatbase <= winsect < g.FatEnd() && win[..] == View()[winsect]
      ensures !old(wflag) ==> !wflag && disk == old(disk)
    {
      FatByteAt(g, View(), o);
      MoveWindow(g.fatbase + o / SECTOR_SIZE);
      b := win[o % SECTOR_SIZE];
    }

    /** Change the FAT byte at position o, which the window shows. */
    method StoreFatByte(o: nat, b: Byte)
      requires Valid() && o < g.sectsFat * SECTOR_SIZE
      requires winsect == g.fatbase + o / SECTOR_SIZE && win[..] == View()[winsect]
      modifies this`wflag, win
      ensures Valid() && OnlyFat(g, old(View()), View())
      ensures FatBytes(g, View()) == FatBytes(g, old(View()))[o := b]
    {
      hide Patch, OnlyFat, Mirrored, FatBytes;
      PutFatBytes(g, View(), o, [b]);
      StoreInWindow(o % SECTOR_SIZE, [b]);
      assert Overwrite(FatBytes(g, old(View())), o, [b]) == FatBytes(g, old(View()))[o := b];
    }

    /** Free the chain from a cluster on. Whatever the table holds, this ends. */
    method RemoveChain(start: nat) returns (res: FResult)
      requires Valid()
      modifies this`disk, this`winsect, this`wflag, this`fsiFlag, this`freeClust, win
      ensures Valid() && OnlyFat(g, old(View()), View())
      ensures !(2 <= start < g.maxClust) ==> res.FrIntErr? && View() == old(View()) && freeClust == old(freeClust)
      ensures 2 <= start < g.maxClust ==>
                && Table() == ReleaseFrom(old(Table()), start).fat
                && res == if ReleaseFrom(old(Table()), start).ok then FrOk else FrIntErr
      ensures freeClust != old(freeClust) ==> fsiFlag
      ensures old(CountRight()) ==> CountRight()
    {
      hide OnlyFat, Mirrored, Fat, View, Valid, Shape, Coherent, Geometry.DataEnd, Geometry.CopyAt, ReleaseFrom, FreeCount;
      if start < 2 || start >= g.maxClust {
        OnlyFatNothing(g, View());
        return FrIntErr;
      }
      ghost var v := View();
      OnlyFatNothing(g, v);
      var clst := start;
      while clst < g.maxClust
        invariant Valid() && 2 <= clst && OnlyFat(g, v, View())
        invariant ReleaseFrom(Table(), clst) == ReleaseFrom(Fat(g, v), start)
        invariant old(CountRight()) ==> CountRight()
        invariant freeClust != old(freeClust) ==> fsiFlag
        decreases g.maxClust - FreeCount(Table())
      {
        ghost var t := Table();
        ReleaseStep(t, clst);
        var nxt := GetCluster(clst);
        if nxt == 0 { break; }
        if nxt == 1 { return FrIntErr; }
        ghost var before := View();
        res := PutCluster(clst, 0);
        OnlyFatTwice(g, v, before, View());
        assert Table() == t[clst := 0];
        if freeClust != FREE_UNKNOWN {
          freeClust := (freeClust + 1) % DWORD_LIMIT;
          fsiFlag := true;
        }
        clst := nxt;
      }
      if clst >= g.maxClust { ReleaseOutside(Table(), clst); }
      res := FrOk;
    }

    /** The mark of a chain's end as it is stored. */
    ghost function EndMark(): (e: nat)
      requires g.Valid()
      ensures e >= g.maxClust
    {
      END_MARK % g.EntryRange()
    }

    /** The search of create_chain: the first free cluster after scl, going round. */
    method FindFree(scl: nat) returns (r: nat)
      requires Valid() && 1 <= scl < g.maxClust
      modifies this`disk, this`winsect, this`wflag, win
      ensures Valid() && View() == old(View())
      ensures r == NO_FREE_CLUSTER ==> NoFree(Table()) && NoOnes(Table())
      ensures r == INTERNAL_ERROR ==> !NoOnes(Table())
      ensures r == NO_FREE_CLUSTER || r == INTERNAL_ERROR || FirstFree(Table(), scl, r)
      ensures NoOnes(Table()) ==> (r == NO_FREE_CLUSTER <==> NoFree(Table())) && r != INTERNAL_ERROR
    {
      hide Fat, View, Geometry.DataEnd, Geometry.CopyAt;
      ghost var t := Table();
      var mcl := g.maxClust;
      var ncl := scl;
      ghost var wrapped := false;
      while true
        invariant Valid() && View() == old(View())
        invariant !wrapped ==> scl <= ncl < mcl
        invariant wrapped ==> 2 <= ncl < scl
        invariant forall k :: InRange(t, k) && (if wrapped then k > scl || k <= ncl else scl < k <= ncl) ==> t[k] > 1
        decreases !wrapped, mcl - ncl
      {
        ncl := ncl + 1;
        if ncl >= mcl {
          ncl := 2;
          wrapped := true;
          if ncl > scl { return NO_FREE_CLUSTER; }
        }
        var cs := GetCluster(ncl);
        if cs == 0 { return ncl; }
        if cs == 1 {
          assert InRange(t, ncl);
          return INTERNAL_ERROR;
        }
        if ncl == scl { return NO_FREE_CLUSTER; }
      }
    }

    /** Mark a free cluster as the end of a chain and link it to clst, unless that is 0. */
    method TakeCluster(clst: nat, ncl: nat)
      requires Valid() && InRange(Table(), ncl) && Table()[ncl] == 0
      requires clst != 0 ==> InRange(Table(), clst) && Table()[clst] >= g.maxClust
      modifies this`disk, this`winsect, this`wflag, this`fsiFlag, this`freeClust, this`lastClust, win
      ensures Valid() && OnlyFat(g, old(View()), View())
      ensures Step(old(Table()), if clst == 0 then Made(ncl) else Stretched(clst, ncl), Table(), EndMark())
      ensures lastClust == ncl
      ensures freeClust != old(freeClust) ==> fsiFlag
      ensures old(CountRight()) ==> CountRight()
    {
      hide OnlyFat, Mirrored, Fat, View, Valid, Shape, Coherent, Geometry.DataEnd, Geometry.CopyAt, Geometry.EntryRange;
      ghost var v := View();
      ghost var t: seq<nat> := Table();
      var _ := PutCluster(ncl, END_MARK);
      ghost var t1: seq<nat> := t[ncl := EndMark()];
      assert Table() == t1;
      FreeBelowUpdate(t, ncl, EndMark(), |t|);
      FreeBelowBound(t, |t|);
      if clst != 0 {
        ghost var v1 := View();
        FreeBelowUpdate(Table(), clst, ncl, |t|);
        NumberFits(g, ncl);
        var _ := PutCluster(clst, ncl);
        OnlyFatTwice(g, v, v1, View());
        assert Table() == t1[clst := ncl];
      }
      assert FreeCount(Table()) == FreeCount(t) - 1;
      lastClust := ncl;
      if freeClust != FREE_UNKNOWN {
        freeClust := (freeClust + DWORD_LIMIT - 1) % DWORD_LIMIT;
        fsiFlag := true;
      }
    }

    /** The next cluster of a chain, or a new one: 0 if none is free, 1 if the table is broken. */
    method CreateChain(clst: nat) returns (r: nat)
      requires Valid()
      modifies this`disk, this`winsect, this`wflag, this`fsiFlag, this`freeClust, this`lastClust, win
      ensures Valid() && OnlyFat(g, old(View()), View())
      ensures Broken(old(Table()), clst) ==> r == INTERNAL_ERROR
      ensures Linked(old(Table()), clst) ==> r == old(Table())[clst] && View() == old(View()) && freeClust == old(freeClust)
      ensures r >= 2 && !Linked(old(Table()), clst) ==>
                && FirstFree(old(Table()), if clst != 0 then clst else if 0 < old(lastClust) < g.maxClust then old(lastClust) else 1, r)
                && Step(old(Table()), if clst == 0 then Made(r) else Stretched(clst, r), Table(), EndMark())
                && lastClust == r
      ensures r == NO_FREE_CLUSTER ==> NoFree(old(Table())) && NoOnes(old(Table()))
      ensures r == INTERNAL_ERROR ==> Broken(old(Table()), clst) || !NoOnes(old(Table()))
      ensures NoOnes(old(Table())) && !Broken(old(Table()), clst) && !Linked(old(Table()), clst) ==>
                (r == NO_FREE_CLUSTER <==> NoFree(old(Table())))
      ensures r < 2 ==> View() == old(View()) && freeClust == old(freeClust)
      ensures freeClust != old(freeClust) ==> fsiFlag
      ensures old(CountRight()) ==> CountRight()
      ensures Linked(old(Table()), clst) && !old(wflag) ==> !wflag && disk == old(disk)
    {
      hide OnlyFat, Mirrored, Fat, View, Valid, Shape, Coherent, Geometry.DataEnd, Geometry.CopyAt;
      OnlyFatNothing(g, View());
      var scl := clst;
      if clst == 0 {
        scl := lastClust;
        if scl == 0 || scl >= g.maxClust { scl := 1; }
      } else {
        var cs := GetCluster(clst);
        if cs < 2 { return INTERNAL_ERROR; }
        if cs < g.maxClust { return cs; }
      }
      r := FindFree(scl);
      if r >= 2 {
        TakeCluster(clst, r);
      }
    }

    /** Read cc whole sectors past the window. */
    method DiskRead(sect: nat, cc: nat) returns (data: seq<Byte>)
      requires |disk| == g.sectors && sect + cc <= g.sectors
      ensures |data| == cc * SECTOR_SIZE
      ensures forall i :: 0 <= i < cc ==> Chunk(data, i) == disk[sect + i]
    {
      hide Geometry.DataEnd, Geometry.CopyAt;
      data := [];
      for i := 0 to cc
        invariant |data| == i * SECTOR_SIZE
        invariant forall k :: 0 <= k < i ==> Chunk(data, k) == disk[sect + k]
      {
        ghost var before := data;
        data := data + disk[sect + i];
        forall k | 0 <= k < i + 1
          ensures Chunk(data, k) == disk[sect + k]
        {
          if k < i { assert Chunk(data, k) == Chunk(before, k); }
        }
      }
    }

    /** Write cc whole sectors past the window; a window inside them takes their content. */
    method DiskWrite(buf: seq<Byte>, sect: nat, cc: nat)
      requires Valid() && 1 <= cc && cc * SECTOR_SIZE <= |buf|
      requires g.CopiesEnd() <= sect && sect + cc <= g.sectors
      modifies this`disk, this`wflag, win
      ensures Valid() && winsect == old(winsect)
      ensures forall t :: 0 <= t < g.sectors ==>
                View()[t] == if sect <= t < sect + cc then Chunk(buf, t - sect) else old(View())[t]
      ensures wflag == (old(wflag) && !(sect <= winsect < sect + cc))
      ensures win[..] == if sect <= winsect < sect + cc then Chunk(buf, winsect - sect) else old(win[..])
    {
      hide Geometry.DataEnd, Geometry.CopyAt;
      ghost var medium, was := disk, win[..];
      PutSectors(buf, sect, cc);
      if (winsect + DWORD_LIMIT - sect) % DWORD_LIMIT < cc {
        LoadWindow(Chunk(buf, winsect - sect));
        if wflag { PatchFrame(g, medium, winsect, was); }
        wflag := false;
      } else if wflag {
        PatchRun(medium, sect, cc);
      }
      FatInside(g);
    }

    /** The device call: consecutive sectors, one after the other. */
    method PutSectors(buf: seq<Byte>, sect: nat, cc: nat)
      requires sect + cc <= |disk| && cc * SECTOR_SIZE <= |buf|
      modifies this`disk
      ensures |disk| == |old(disk)|
      ensures forall t :: 0 <= t < |disk| ==>
                disk[t] == if sect <= t < sect + cc then Chunk(buf, t - sect) else old(disk)[t]
    {
      for i := 0 to cc
        invariant |disk| == |old(disk)|
        invariant forall t :: 0 <= t < |disk| ==>
                    disk[t] == if sect <= t < sect + i then Chunk(buf, t - sect) else old(disk)[t]
      {
        disk := disk[sect + i := Chunk(buf, i)];
      }
    }

    /** Past the FAT copies the view differs from the medium in a dirty window's sector only. */
    lemma ViewAt(t: nat)
      requires Shape() && g.CopiesEnd() <= t < g.sectors
      ensures View()[t] == if wflag && t == winsect then win[..] else disk[t]
    {
      hide Geometry.CopyAt, Geometry.DataEnd;
      if wflag {
        PatchSelf(g, disk, winsect, win[..]);
        PatchFrame(g, disk, winsect, win[..]);
      }
    }

    lemma PatchRun(medium: seq<Sector>, sect: nat, cc: nat)
      requires Shape() && wflag && |medium| == g.sectors
      requires g.CopiesEnd() <= sect && !(sect <= winsect < sect + cc)
      requires forall t :: 0 <= t < g.sectors && !(sect <= t < sect + cc) ==> disk[t] == medium[t]
      ensures forall t :: 0 <= t < g.sectors ==>
                Patch(g, disk, winsect, win[..])[t] ==
                if sect <= t < sect + cc then disk[t] else Patch(g, medium, winsect, win[..])[t]
    {
      PatchFrame(g, disk, winsect, win[..]);
      forall t | 0 <= t < g.sectors
        ensures Patch(g, disk, winsect, win[..])[t] ==
                if sect <= t < sect + cc then disk[t] else Patch(g, medium, winsect, win[..])[t]
      {
        PatchAt(g, disk, winsect, win[..], t);
        PatchAt(g, medium, winsect, win[..], t);
      }
    }

    /** Write everything back, and the allocation counters if they changed. */
    method Sync()
      requires Valid()
      modifies this`disk, this`winsect, this`wflag, this`fsiFlag, win
      ensures Valid() && !wflag && View() == disk
      ensures fsiFlag == (old(fsiFlag) && !g.fsType.Fat32?)
      ensures if g.fsType.Fat32? && old(fsiFlag)
              then View() == old(View())[g.fsiSector := InfoSector(freeClust, lastClust)]
              else View() == old(View())
      ensures old(CountRight()) ==> CountRight()
    {
      hide Geometry.DataEnd, Geometry.CopyAt;
      MoveWindow(0);
      if g.fsType.Fat32? && fsiFlag {
        winsect := 0;
        LoadWindow(InfoSector(freeClust, lastClust));
        FatInside(g);
        disk := disk[g.fsiSector := win[..]];
        fsiFlag := false;
        SameFat(g, old(View()), View());
      }
    }

    /** Fill a new directory cluster with zeros, through the window. */
    method ClearCluster(clst: nat)
      requires Valid() && 2 <= clst < g.maxClust
      modifies this`disk, this`winsect, this`wflag, win
      ensures Valid() && !wflag && View() == disk && winsect == Clust2Sect(clst) && win[..] == Zeros()
      ensures var s := Clust2Sect(clst);
              forall t :: 0 <= t < g.sectors ==> View()[t] == if s <= t < s + g.csize then Zeros() else old(View())[t]
    {
      hide Geometry.DataEnd, Geometry.CopyAt, Patch;
      ClusterInside(clst);
      MoveWindow(0);
      LoadWindow(Zeros());
      winsect := Clust2Sect(clst);
      ghost var s, v := winsect, disk;
      var c := 0;
      while c < g.csize
        invariant c <= g.csize && winsect == s + c && !wflag && win[..] == Zeros()
        invariant |disk| == g.sectors
        invariant forall t :: 0 <= t < g.sectors ==> disk[t] == if s <= t < s + c then Zeros() else v[t]
      {
        wflag := true;
        PatchData(g, disk, winsect, win[..]);
        MoveWindow(0);
        winsect := winsect + 1;
        c := c + 1;
      }
      winsect := winsect - c;
    }

    lemma ClusterInside(clst: nat)
      requires g.Valid() && 2 <= clst < g.maxClust
      ensures g.FatEnd() <= g.CopiesEnd() <= Clust2Sect(clst) && Clust2Sect(clst) + g.csize <= g.sectors
      ensures Clust2Sect(clst) == (clst - 2) * g.csize + g.database > 0
    {
      hide Geometry.CopyAt;
      FatInside(g);
      Spread(clst - 2, g.maxClust - 2, g.csize);
      assert 0 <= (clst - 2) * g.csize;
    }

    /** The first sector of a cluster; 0 for a number that is no cluster. */
    function Clust2Sect(clst: nat): nat
    {
      var c := (clst + DWORD_LIMIT - 2) % DWORD_LIMIT;
      if c >= g.maxClust - 2 then 0 else c * g.csize + g.database
    }
  }

  function Zeros(): Sector { seq<Byte>(SECTOR_SIZE, _ => 0) }

  function Dword4(x: Dword): (r: seq<Byte>)
    ensures |r| == 4
  {
    [x % 0x100, (x / 0x100) % 0x100, (x / 0x1_0000) % 0x100, x / 0x100_0000]
  }

  function LoadDword(s: seq<Byte>, i: nat): Dword
    requires i + 4 <= |s|
  {
    var b0: int, b1: int, b2: int, b3: int := s[i], s[i + 1], s[i + 2], s[i + 3];
    b0 + 0x100 * b1 + 0x1_0000 * b2 + 0x100_0000 * b3
  }

  const LEAD_SIGNATURE: Dword := 0x4161_5252
  const STRUCT_SIGNATURE: Dword := 0x6141_7272

  /** The FSInfo sector that records the counters. */
  function InfoSector(free: Dword, last: Dword): Sector {
    var s := Overwrite(seq<Byte>(SECTOR_SIZE, _ => 0), 510, [0x55, 0xAA]);
    Overwrite(Overwrite(Overwrite(Overwrite(s, 0, Dword4(LEAD_SIGNATURE)), 484, Dword4(STRUCT_SIGNATURE)),
                        488, Dword4(free)), 492, Dword4(last))
  }

  datatype Counters = Unreadable | Counters(last: Dword, free: Dword)

  /** What mounting takes from an FSInfo sector. */
  function ReadInfo(s: Sector): Counters {
    if s[510] == 0x55 && s[511] == 0xAA && LoadDword(s, 0) == LEAD_SIGNATURE && LoadDword(s, 484) == STRUCT_SIGNATURE
    then Counters(LoadDword(s, 492), LoadDword(s, 488)) else Unreadable
  }

  /** Setting a 32-bit entry to a 28-bit value keeps the four bits above the entry exactly if they
      were zero: the code writes all 32 bits. */
  lemma ReservedBits(g: Geometry, bytes: seq<Byte>, c: nat, val: nat)
    requires g.Valid() && g.fsType.Fat32? && |bytes| == g.sectsFat * SECTOR_SIZE && c < g.maxClust && val < 0x1000_0000
    ensures g.EntryOffset(c) + 4 <= |bytes|
    ensures LoadDword(StoreEntry(g, bytes, c, val), g.EntryOffset(c)) == val
    ensures LoadDword(StoreEntry(g, bytes, c, val), g.EntryOffset(c)) / 0x1000_0000 == LoadDword(bytes, g.EntryOffset(c)) / 0x1000_0000
            <==> LoadDword(bytes, g.EntryOffset(c)) < 0x1000_0000
  {
    hide EntryByte, StoreEntry, Overwrite;
    var entry := [EntryByte(Fat32, c, val, 0, 0), EntryByte(Fat32, c, val, 1, 0), EntryByte(Fat32, c, val, 2, 0), EntryByte(Fat32, c, val, 3, 0)];
    EntrySpace(g, c);
    StoreWhole(g, bytes, c, val, entry);
    WholeDword(bytes, g.EntryOffset(c), c, val, entry);
  }

  lemma EntrySpace(g: Geometry, c: nat)
    requires g.Valid() && c < g.maxClust
    ensures g.EntryOffset(c) + g.EntrySpan() <= g.sectsFat * SECTOR_SIZE
  {
  }

  lemma WholeDword(bytes: seq<Byte>, o: nat, c: nat, val: nat, entry: seq<Byte>)
    requires o + 4 <= |bytes| && val < DWORD_LIMIT && |entry| == 4
    requires forall i :: 0 <= i < 4 ==> entry[i] == EntryByte(Fat32, c, val, i, 0)
    ensures LoadDword(Overwrite(bytes, o, entry), o) == val
  {
    LittleEndian(val);
  }

  lemma DwordRoundTrip(s: seq<Byte>, i: nat, x: Dword)
    requires i + 4 <= |s| && s[i..i + 4] == Dword4(x)
    ensures LoadDword(s, i) == x
  {
    LittleEndian(x);
    assert s[i] == s[i..i + 4][0] && s[i + 1] == s[i..i + 4][1] && s[i + 2] == s[i..i + 4][2] && s[i + 3] == s[i..i + 4][3];
  }

  /** Counters written by sync are the counters the next mount reads. */
  lemma InfoRoundTrip(free: Dword, last: Dword)
    ensures ReadInfo(InfoSector(free, last)) == Counters(last, free)
  {
    var s := InfoSector(free, last);
    assert s[0..4] == Dword4(LEAD_SIGNATURE) && s[484..488] == Dword4(STRUCT_SIGNATURE);
    assert s[488..492] == Dword4(free) && s[492..496] == Dword4(last);
    DwordRoundTrip(s, 0, LEAD_SIGNATURE);
    DwordRoundTrip(s, 484, STRUCT_SIGNATURE);
    DwordRoundTrip(s, 488, free);
    DwordRoundTrip(s, 492, last);
  }

  ghost predicate Broken(t: seq<nat>, clst: nat) { clst != 0 && (InRange(t, clst) ==> t[clst] < 2) }

  ghost predicate Linked(t: seq<nat>, clst: nat) { InRange(t, clst) && InRange(t, t[clst]) }

  lemma OverwriteTwo(s: seq<Byte>, o: nat, a: Byte, b: Byte)
    requires o + 1 < |s|
    ensures Overwrite(s, o, [a, b]) == s[o := a][o + 1 := b]
  {
  }

  /** Every cluster number fits an entry. */
  lemma NumberFits(g: Geometry, c: nat)
    requires g.Valid() && c < g.maxClust
    ensures c % g.EntryRange() == c
  {
  }

  lemma NextCopy(g: Geometry, s: nat, k: nat)
    ensures g.CopyAt(s, k + 1) == g.CopyAt(s, k) + g.sectsFat
  {
  }
}
