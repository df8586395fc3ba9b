/** Two files open on one volume: a call on one leaves the other as it was. */
module FatSharing {
  import opened FatTypes
  import opened SectorWindow
  import opened FatTable
  import opened ClusterChains
  import opened FileBytes
  import opened FatVolume
  import opened FatFile
  import opened FatSession

  /** A call on an open file. */
  datatype Call = Write(data: seq<Byte>) | Seek(offset: Dword) | Read(count: Dword) | Synchronise(time: Dword)

  /** What a caller sees of a file, and the clusters it has. */
  datatype Snapshot = Snapshot(bytes: seq<Byte>, position: nat, clusters: nat, mayRead: bool, mayWrite: bool)

  /** Sector s belongs to the root directory or to a cluster in use outside a and b. */
  ghost predicate Away(g: Geometry, v: seq<Sector>, a: seq<nat>, b: seq<nat>, s: nat)
    requires g.Valid() && |v| == g.sectors
  {
    && g.CopiesEnd() <= s < g.sectors
    && (s < g.database ||
        exists c, j :: InRange(Fat(g, v), c) && Fat(g, v)[c] != 0 && c !in a && c !in b && 0 <= j < g.csize && s == DataSector(g, c, j))
  }

  lemma AwayKept(g: Geometry, v: seq<Sector>, v': seq<Sector>, a: seq<nat>, a': seq<nat>, b: seq<nat>, s: nat)
    requires g.Valid() && |v| == |v'| == g.sectors
    requires Away(g, v, a, b, s) && OthersKept(g, v, v', a) && Grown(Fat(g, v), a, a')
    ensures Away(g, v', a', b, s)
  {
    if s >= g.database {
      var c, j :| InRange(Fat(g, v), c) && Fat(g, v)[c] != 0 && c !in a && c !in b && 0 <= j < g.csize && s == DataSector(g, c, j);
      KeptEntry(g, v, v', a, c);
      GrownFrom(Fat(g, v), a, a', c);
    }
  }

  lemma AwayTurned(g: Geometry, v: seq<Sector>, a: seq<nat>, b: seq<nat>, s: nat)
    requires g.Valid() && |v| == g.sectors && Away(g, v, a, b, s)
    ensures Away(g, v, b, a, s) && FatSession.Apart(g, v, a, s)
  {
  }

  lemma AwayHasNot(g: Geometry, v: seq<Sector>, a: seq<nat>, b: seq<nat>, s: nat)
    requires g.Valid() && |v| == g.sectors && Away(g, v, a, b, s) && Clusters(g, b)
    ensures !HasSector(g, b, s)
  {
    if HasSector(g, b, s) {
      var d, k :| d in b && 2 <= d && 0 <= k < g.csize && s == DataSector(g, d, k);
      DataSectorInside(g, d, k);
      var c, j :| InRange(Fat(g, v), c) && Fat(g, v)[c] != 0 && c !in a && c !in b && 0 <= j < g.csize && s == DataSector(g, c, j);
      DataSectorDistinct(g, c, j, d, k);
    }
  }

  lemma AwaySameTable(g: Geometry, v: seq<Sector>, v': seq<Sector>, a: seq<nat>, b: seq<nat>, s: nat)
    requires g.Valid() && |v| == |v'| == g.sectors && Away(g, v, a, b, s) && Fat(g, v') == Fat(g, v)
    ensures Away(g, v', a, b, s)
  {
  }

  lemma GrownApart(t: seq<nat>, a: seq<nat>, a': seq<nat>, b: seq<nat>)
    requires Grown(t, a, a') && !Meet(a, b) && (b == [] || IsChain(t, b))
    ensures !Meet(a', b)
  {
    forall c | c in a' ensures c !in b {
      GrownFrom(t, a, a', c);
      if c in b {
        var k := Position(b, c);
        Link(t, b, k);
      }
    }
  }

  /** Two files on one volume that share no cluster and no directory sector. */
  ghost predicate Together(f: File, h: File)
    reads f, h, f.fs, f.fs.win
  {
    && f != h && f.fs == h.fs && f.Valid() && h.Valid() && !Meet(f.chain, h.chain)
    && f.dirPtr + ENTRY_SIZE <= SECTOR_SIZE && Away(f.fs.g, f.fs.View(), f.chain, h.chain, f.dirSect)
    && h.dirPtr + ENTRY_SIZE <= SECTOR_SIZE && Away(f.fs.g, f.fs.View(), f.chain, h.chain, h.dirSect)
  }

  lemma Turned(f: File, h: File)
    requires Together(f, h)
    ensures Together(h, f)
  {
    AwayTurned(f.fs.g, f.fs.View(), f.chain, h.chain, f.dirSect);
    AwayTurned(f.fs.g, f.fs.View(), f.chain, h.chain, h.dirSect);
  }

  ghost function Seen(f: File): (s: Snapshot)
    reads f, f.fs, f.fs.win
    requires f.Valid()
    ensures s.position <= |s.bytes|
  {
    Snapshot(f.Bytes(), f.fptr, |f.chain|, f.canRead, f.canWrite)
  }

  /** A file whose chain no change met. */
  lemma Untouched(g: Geometry, v: seq<Sector>, v': seq<Sector>, a: seq<nat>, org: nat, b: seq<nat>)
    requires g.Valid() && |v| == |v'| == g.sectors && FileChain(g, Fat(g, v), org, b) && !Meet(a, b)
    requires OthersKept(g, v, v', a)
    ensures FileChain(g, Fat(g, v'), org, b) && Sectors(g, v', b) == Sectors(g, v, b)
  {
    hide Fat, OthersKept, IsChain, Meet;
    if b != [] { OtherFileKept(g, v, v', a, b); }
  }

  lemma GrownLonger(t: seq<nat>, a: seq<nat>, a': seq<nat>)
    requires Grown(t, a, a')
    ensures |a| <= |a'|
  {
  }

  /** What is between two files after a change outside the first one's chain, grown or not. */
  lemma StillApart(g: Geometry, v: seq<Sector>, v': seq<Sector>, a: seq<nat>, a': seq<nat>, org: nat, b: seq<nat>, s: nat, t: nat)
    requires g.Valid() && |v| == |v'| == g.sectors && FileChain(g, Fat(g, v), org, b) && !Meet(a, b)
    requires OthersKept(g, v, v', a) && Grown(Fat(g, v), a, a') && Away(g, v, a, b, s) && Away(g, v, a, b, t)
    ensures FileChain(g, Fat(g, v'), org, b) && Sectors(g, v', b) == Sectors(g, v, b) && |a| <= |a'|
    ensures !Meet(a', b) && Away(g, v', a', b, s) && Away(g, v', a', b, t)
  {
    hide Fat, OthersKept, IsChain, Grown, Away, Meet;
    Untouched(g, v, v', a, org, b);
    GrownApart(Fat(g, v), a, a', b);
    GrownLonger(Fat(g, v), a, a');
    AwayKept(g, v, v', a, a', b, s);
    AwayKept(g, v, v', a, a', b, t);
  }

  method WriteOn(f: File, h: File, d: seq<Byte>) returns (res: FResult)
    requires Together(f, h) && f.Usable() && |d| < DWORD_LIMIT
    modifies f, f.fs, f.fs.win
    ensures h.Valid() && Seen(h) == old(Seen(h))
    ensures (f.Usable() <==> !res.FrIntErr?) && (res.FrIntErr? ==> !NoOnes(old(f.fs.Table())))
    ensures f.Usable() ==> Together(f, h) && f.Capacity() == old(f.Capacity()) && (NoOnes(old(f.fs.Table())) ==> NoOnes(f.fs.Table()))
    ensures res == if !f.canWrite then FrDenied else if res.FrIntErr? then res else FrOk
    ensures res.FrDenied? ==> Seen(f) == old(Seen(f))
    ensures res.FrOk? ==>
              && f.canRead == old(f.canRead) && f.canWrite && old(f.canWrite) && old(|f.chain|) <= |f.chain| && old(f.fptr) <= f.fptr <= old(f.fptr) + |d|
              && f.Bytes() == Splice(old(f.Bytes()), old(f.fptr), d[..f.fptr - old(f.fptr)])
    ensures res.FrOk? && old(f.fsize) + |d| >= 0x1_0000_0000 ==> f.fptr == old(f.fptr)
    ensures res.FrOk? && old(f.fsize) + |d| < 0x1_0000_0000 && f.fptr < old(f.fptr) + |d| ==> f.Full()
  {
    hide Patch, OnlyFat, Mirrored, Fat, Sectors, Content, OthersKept, IsChain, Grown, Away, Meet, Volume.View, Volume.Shape, Volume.Coherent;
    hide Geometry.CopyAt, Geometry.DataEnd, Geometry.ClusterOf, Geometry.SectorOf, Geometry.SectorsIn, Clusters, File.Placed, NoOnes, FreeCount, Splice;
    ghost var g, v, ch: seq<nat> := f.fs.g, f.fs.View(), f.chain;
    var bw;
    res, bw := f.Write(d);
    if res.FrOk? {
      StillApart(g, v, f.fs.View(), ch, f.chain, h.orgClust, h.chain, f.dirSect, h.dirSect);
      KeptNoOnes(g, v, f.fs.View(), ch);
    } else if res.FrIntErr? {
      Untouched(g, v, f.fs.View(), ch, h.orgClust, h.chain);
    }
  }

  method SeekOn(f: File, h: File, offset: Dword) returns (res: FResult)
    requires Together(f, h) && f.Usable() && ShortcutRight(f.fs.g, f.fptr, f.Clipped(offset))
    modifies f, f.fs, f.fs.win
    ensures h.Valid() && Seen(h) == old(Seen(h))
    ensures (f.Usable() <==> !res.FrIntErr?) && (res.FrIntErr? ==> !NoOnes(old(f.fs.Table())))
    ensures f.Usable() ==> Together(f, h) && f.Capacity() == old(f.Capacity()) && (NoOnes(old(f.fs.Table())) ==> NoOnes(f.fs.Table()))
    ensures res == if res.FrIntErr? then res else FrOk
    ensures res.FrOk? ==> f.canRead == old(f.canRead) && f.canWrite == old(f.canWrite) && old(|f.chain|) <= |f.chain|
    ensures res.FrOk? ==> old(f.Bytes()) <= f.Bytes() && f.fsize == if f.fptr > old(f.fsize) then f.fptr else old(f.fsize)
    ensures res.FrOk? ==> var o := if offset > old(f.fsize) && !f.canWrite then old(f.fsize) else offset; f.fptr == o || (f.fptr < o && f.Full())
  {
    hide Patch, OnlyFat, Mirrored, Fat, Sectors, Content, OthersKept, IsChain, Grown, Away, Meet, Volume.View, Volume.Shape, Volume.Coherent;
    hide Geometry.CopyAt, Geometry.DataEnd, Geometry.ClusterOf, Geometry.SectorOf, Geometry.SectorsIn, Clusters, File.Placed, NoOnes, FreeCount, Splice;
    ghost var g, v, ch: seq<nat> := f.fs.g, f.fs.View(), f.chain;
    res := f.Seek(offset);
    if res.FrOk? {
      StillApart(g, v, f.fs.View(), ch, f.chain, h.orgClust, h.chain, f.dirSect, h.dirSect);
      KeptNoOnes(g, v, f.fs.View(), ch);
    } else {
      Untouched(g, v, f.fs.View(), ch, h.orgClust, h.chain);
    }
  }

  method ReadOn(f: File, h: File, count: Dword) returns (res: FResult)
    requires Together(f, h) && f.Usable()
    modifies f, f.fs, f.fs.win
    ensures h.Valid() && Seen(h) == old(Seen(h))
    ensures f.Usable() && Together(f, h) && f.Capacity() == old(f.Capacity()) && f.fs.Table() == old(f.fs.Table())
    ensures res == if f.canRead then FrOk else FrDenied
    ensures Seen(f) == old(Seen(f)).(position := if !f.canRead then old(f.fptr)
                                                  else if old(f.fptr) + count <= f.fsize then old(f.fptr) + count else f.fsize)
  {
    hide Patch, OnlyFat, Mirrored, Fat, Sectors, Content, OthersKept, IsChain, Grown, Away, Meet, Volume.View, Volume.Shape, Volume.Coherent;
    hide Geometry.CopyAt, Geometry.DataEnd, Geometry.ClusterOf, Geometry.SectorOf, Geometry.SectorsIn, Clusters, File.Placed, NoOnes, FreeCount, Splice;
    var data;
    res, data := f.Read(count);
  }

  method SynchroniseOn(f: File, h: File, time: Dword) returns (res: FResult)
    requires Together(f, h) && f.Usable()
    modifies f, f.fs, f.fs.win
    ensures h.Valid() && Seen(h) == old(Seen(h))
    ensures res.FrOk? && f.Usable() && Together(f, h) && Seen(f) == old(Seen(f)) && f.fs.Table() == old(f.fs.Table())
  {
    hide Patch, OnlyFat, Mirrored, Fat, Sectors, Content, OthersKept, IsChain, Grown, Away, Meet, Volume.View, Volume.Shape, Volume.Coherent;
    hide Geometry.CopyAt, Geometry.DataEnd, Geometry.ClusterOf, Geometry.SectorOf, Geometry.SectorsIn, Clusters, File.Placed, NoOnes, FreeCount, Splice;
    ghost var g, v := f.fs.g, f.fs.View();
    AwayTurned(g, v, f.chain, h.chain, f.dirSect);
    AwayHasNot(g, v, f.chain, h.chain, f.dirSect);
    ApartInside(g, v, f.chain, f.dirSect);
    OrgInRange(g, f.fs.Table(), f.orgClust, f.chain);
    FatInside(g);
    res := f.SyncFile(time);
    ApartChange(g, v, f.fs.View(), f.chain, f.dirSect);
    SectorChange(g, v, f.fs.View(), h.chain, f.dirSect);
    AwaySameTable(g, v, f.fs.View(), f.chain, h.chain, f.dirSect);
    AwaySameTable(g, v, f.fs.View(), f.chain, h.chain, h.dirSect);
  }

  /** The file has all the clusters it can have, and the position is behind the last of them. */
  predicate Ended(csize: nat, room: nat, s: Snapshot) { s.clusters == room && s.position == room * csize * SECTOR_SIZE }

  /** What a call makes of a file that has or can get room clusters. A write puts its bytes at the
      position, or as many as there is room for, and moves behind them; a seek moves, and lengthens the
      file of a writer; a read moves as far as the file goes; a call without the right does nothing. */
  ghost predicate Effect(csize: nat, room: nat, call: Call, s: Snapshot, t: Snapshot)
    requires s.position <= |s.bytes|
  {
    && t.mayRead == s.mayRead && t.mayWrite == s.mayWrite && s.clusters <= t.clusters
    && match call
       case Write(d) =>
         if !s.mayWrite then t == s
         else
           && s.position <= t.position <= s.position + |d|
           && t.bytes == Splice(s.bytes, s.position, d[..t.position - s.position])
           && (|s.bytes| + |d| >= 0x1_0000_0000 ==> t.position == s.position)
           && (|s.bytes| + |d| < 0x1_0000_0000 ==> t.position == s.position + |d| || Ended(csize, room, t))
       case Seek(o) =>
         && s.bytes <= t.bytes && |t.bytes| == (if t.position > |s.bytes| then t.position else |s.bytes|)
         && (t.position == o || (t.position < o && Ended(csize, room, t)) || (!s.mayWrite && t.position == |s.bytes| < o))
       case Read(n) =>
         t == s.(position := if !s.mayRead then s.position else if s.position + n <= |s.bytes| then s.position + n else |s.bytes|)
       case Synchronise(_) => t == s
  }

  lemma FullEnds(f: File)
    requires f.Valid() && f.Full()
    ensures Ended(f.fs.g.csize, f.Capacity(), Seen(f))
  {
  }

  /** A call on f has its effect on f, and none on h. */
  method CallOn(f: File, h: File, call: Call) returns (res: FResult)
    requires Together(f, h) && f.Usable() && (call.Write? ==> |call.data| < DWORD_LIMIT)
    requires call.Seek? ==> ShortcutRight(f.fs.g, f.fptr, f.Clipped(call.offset))
    modifies f, f.fs, f.fs.win
    ensures h.Valid() && Seen(h) == old(Seen(h))
    ensures (f.Usable() <==> !res.FrIntErr?) && (res.FrIntErr? ==> !NoOnes(old(f.fs.Table())))
    ensures f.Usable() ==> Together(f, h) && f.Capacity() == old(f.Capacity()) && (NoOnes(old(f.fs.Table())) ==> NoOnes(f.fs.Table()))
    ensures f.Usable() ==> Effect(f.fs.g.csize, old(f.Capacity()), call, old(Seen(f)), Seen(f))
    ensures f.Usable() ==> res == if (call.Write? && !f.canWrite) || (call.Read? && !f.canRead) then FrDenied else FrOk
  {
    hide Patch, OnlyFat, Mirrored, Fat, Sectors, Content, OthersKept, IsChain, Grown, Away, Meet, Volume.View, Volume.Shape, Volume.Coherent;
    hide Geometry.CopyAt, Geometry.DataEnd, Geometry.ClusterOf, Geometry.SectorOf, Geometry.SectorsIn, Clusters, File.Placed, NoOnes, FreeCount, Splice;
    hide ShortcutRight, Ended, File.Full;
    match call {
      case Write(data) => res := WriteOn(f, h, data);
      case Seek(offset) => res := SeekOn(f, h, offset);
      case Read(count) => res := ReadOn(f, h, count);
      case Synchronise(time) => res := SynchroniseOn(f, h, time);
    }
    if f.Usable() && f.Full() { FullEnds(f); }
  }

  /** Every snapshot follows from the one before: of the file called by the effect of the call, with
      the clusters the other leaves it of all there are, and of the other by nothing. */
  ghost predicate Steps(csize: nat, total: nat, calls: seq<(bool, Call)>, fs: seq<Snapshot>, hs: seq<Snapshot>) {
    && 1 <= |fs| == |hs| <= |calls| + 1
    && (forall i :: 0 <= i < |fs| ==>
          fs[i].position <= |fs[i].bytes| && hs[i].position <= |hs[i].bytes| && fs[i].clusters + hs[i].clusters <= total)
    && forall i :: 0 <= i < |fs| - 1 ==>
         if calls[i].0 then Effect(csize, total - hs[i].clusters, calls[i].1, fs[i], fs[i + 1]) && hs[i + 1] == hs[i]
         else Effect(csize, total - fs[i].clusters, calls[i].1, hs[i], hs[i + 1]) && fs[i + 1] == fs[i]
  }

  lemma StepsNone(csize: nat, total: nat, calls: seq<(bool, Call)>, s: Snapshot, t: Snapshot)
    requires s.position <= |s.bytes| && t.position <= |t.bytes| && s.clusters + t.clusters <= total
    ensures Steps(csize, total, calls, [s], [t])
  {
  }

  lemma StepsMore(csize: nat, total: nat, calls: seq<(bool, Call)>, fs: seq<Snapshot>, hs: seq<Snapshot>, s: Snapshot, t: Snapshot)
    requires Steps(csize, total, calls, fs, hs) && |fs| <= |calls|
    requires s.position <= |s.bytes| && t.position <= |t.bytes| && s.clusters + t.clusters <= total
    requires var (n, c) := (|fs| - 1, calls[|fs| - 1]);
             if c.0 then Effect(csize, total - hs[n].clusters, c.1, fs[n], s) && t == hs[n]
             else Effect(csize, total - fs[n].clusters, c.1, hs[n], t) && s == fs[n]
    ensures Steps(csize, total, calls, fs + [s], hs + [t])
  {
    hide Effect;
  }

  /** Calls on two files, in any order, until one fails: each file is what its own calls make of it. */
  method Interleave(f: File, h: File, calls: seq<(bool, Call)>) returns (res: FResult, ghost fs: seq<Snapshot>, ghost hs: seq<Snapshot>)
    requires Together(f, h) && f.Usable() && h.Usable() && IsPowerOfTwo(f.fs.g.csize)
    requires forall i :: 0 <= i < |calls| && calls[i].1.Write? ==> |calls[i].1.data| < DWORD_LIMIT
    modifies f, h, f.fs, f.fs.win
    ensures Steps(f.fs.g.csize, old(|f.chain| + |h.chain| + FreeCount(f.fs.Table())), calls, fs, hs)
    ensures 1 <= |fs| == |hs| <= |calls| + 1 && fs[0] == old(Seen(f)) && hs[0] == old(Seen(h))
    ensures f.Usable() && h.Usable() ==> |fs| == |calls| + 1 && Together(f, h) && fs[|calls|] == Seen(f) && hs[|calls|] == Seen(h)
    ensures !f.Usable() ==> h.Usable() && h.Valid() && hs[|hs| - 1] == Seen(h)
    ensures !h.Usable() ==> f.Usable() && f.Valid() && fs[|fs| - 1] == Seen(f)
    ensures NoOnes(old(f.fs.Table())) ==> f.Usable() && h.Usable()
  {
    hide Effect, Steps, ShortcutRight, IsPowerOfTwo, Away, Meet, IsChain, Fat, Sectors, Content, Clusters, File.Placed, FreeCount, NoOnes;
    hide Volume.View, Volume.Shape, Volume.Coherent, Geometry.CopyAt, Geometry.DataEnd, Geometry.ClusterOf, Geometry.SectorOf, Geometry.SectorsIn;
    ghost var csize, total := f.fs.g.csize, |f.chain| + |h.chain| + FreeCount(f.fs.Table());
    fs, hs := [Seen(f)], [Seen(h)];
    StepsNone(csize, total, calls, Seen(f), Seen(h));
    res := FrOk;
    var i := 0;
    while i < |calls|
      invariant 0 <= i <= |calls| && Together(f, h) && f.Usable() && h.Usable()
      invariant |fs| == |hs| == i + 1 && Steps(csize, total, calls, fs, hs) && fs[0] == old(Seen(f)) && hs[0] == old(Seen(h))
      invariant fs[i] == Seen(f) && hs[i] == Seen(h) && |f.chain| + |h.chain| + FreeCount(f.fs.Table()) == total
      invariant NoOnes(old(f.fs.Table())) ==> NoOnes(f.fs.Table())
    {
      ShortcutAlways(f.fs.g);
      if calls[i].0 {
        res := CallOn(f, h, calls[i].1);
        if res == FrIntErr { return; }
      } else {
        Turned(f, h);
        res := CallOn(h, f, calls[i].1);
        if res == FrIntErr { return; }
        Turned(h, f);
      }
      StepsMore(csize, total, calls, fs, hs, Seen(f), Seen(h));
      fs, hs := fs + [Seen(f)], hs + [Seen(h)];
      i := i + 1;
    }
  }

  /** What the first k calls write to one of the files, one after the other. */
  function Data(calls: seq<(bool, Call)>, first: bool, k: nat): seq<Byte>
    requires k <= |calls|
  {
    if k == 0 then []
    else Data(calls, first, k - 1) + if calls[k - 1].0 == first && calls[k - 1].1.Write? then calls[k - 1].1.data else []
  }

  /** A write that is not cut short. */
  lemma WholeWrite(csize: nat, room: nat, d: seq<Byte>, s: Snapshot, t: Snapshot)
    requires s.position <= |s.bytes| && s.mayWrite && Effect(csize, room, Write(d), s, t)
    requires |s.bytes| + |d| < 0x1_0000_0000 && t.position < room * csize * SECTOR_SIZE
    ensures t.mayWrite && t.position == s.position + |d| && t.bytes == Splice(s.bytes, s.position, d)
  {
    assert d[..|d|] == d;
  }

  /** Two writers on a volume that does not fill, interleaved in any way: each file has what was written
      to it, in order, over or behind what it had. */
  lemma {:induction false} Writers(csize: nat, total: nat, calls: seq<(bool, Call)>, fs: seq<Snapshot>, hs: seq<Snapshot>, k: nat)
    requires Steps(csize, total, calls, fs, hs) && k < |fs| && fs[0].mayWrite
    requires forall i :: 0 <= i < k ==> calls[i].1.Write?
    requires |fs[0].bytes| + |Data(calls, true, k)| < 0x1_0000_0000
    requires forall i :: 0 <= i <= k ==> fs[i].position < (total - hs[i].clusters) * csize * SECTOR_SIZE
    ensures fs[k].mayWrite && fs[k].position == fs[0].position + |Data(calls, true, k)|
    ensures fs[k].bytes == Splice(fs[0].bytes, fs[0].position, Data(calls, true, k))
    decreases k
  {
    hide Splice, Effect;
    if k == 0 {
      SpliceNothing(fs[0].bytes, fs[0].position);
    } else {
      var c := calls[k - 1];
      assert c.1.Write?;
      Writers(csize, total, calls, fs, hs, k - 1);
      if c.0 {
        var d := c.1.data;
        var done := Data(calls, true, k - 1);
        assert Data(calls, true, k) == done + d;
        SpliceBound(fs[0].bytes, fs[0].position, done);
        assert calls[k - 1] == (c.0, Write(d));
        WholeWrite(csize, total - hs[k - 1].clusters, d, fs[k - 1], fs[k]);
        SpliceSplice(fs[0].bytes, fs[0].position, done, d);
      } else {
        assert Data(calls, true, k) == Data(calls, true, k - 1);
      }
    }
  }

  lemma SpliceNothing(c: seq<Byte>, p: nat)
    requires p <= |c|
    ensures Splice(c, p, []) == c
  {
  }

  lemma SpliceBound(c: seq<Byte>, p: nat, d: seq<Byte>)
    requires p <= |c|
    ensures |Splice(c, p, d)| <= |c| + |d|
  {
  }
}
