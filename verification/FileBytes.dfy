/** A file as the bytes of the sectors of its chain. */
module FileBytes {
  import opened Arithmetic
  import opened FatTypes
  import opened SectorWindow
  import opened FatTable
  import opened ClusterChains

  /** Sector j of cluster c. */
  function DataSector(g: Geometry, c: nat, j: nat): nat
    requires 2 <= c
  {
    (c - 2) * g.csize + g.database + j
  }

  lemma DataSectorFrom(g: Geometry, c: nat, j: nat)
    requires 2 <= c
    ensures DataSector(g, c, j) == DataSector(g, c, 0) + j
  {
  }

  lemma DataSectorInside(g: Geometry, c: nat, j: nat)
    requires g.Valid() && 2 <= c < g.maxClust && j < g.csize
    ensures g.FatEnd() <= g.CopiesEnd() <= g.database <= DataSector(g, c, j) < g.sectors
    ensures DataSector(g, c, 0) + g.csize <= g.sectors
  {
    FatInside(g);
    Spread(c - 2, g.maxClust - 2, g.csize);
    assert 0 <= (c - 2) * g.csize;
  }

  /** No two clusters share a sector. */
  lemma DataSectorDistinct(g: Geometry, c: nat, j: nat, d: nat, i: nat)
    requires g.Valid() && 2 <= c && 2 <= d && j < g.csize && i < g.csize
    requires DataSector(g, c, j) == DataSector(g, d, i)
    ensures c == d && j == i
  {
    if c < d { Spread(c - 2, d - 2, g.csize); }
    if d < c { Spread(d - 2, c - 2, g.csize); }
  }

  lemma Split(g: Geometry, n: nat)
    requires g.Valid()
    ensures n == g.ClusterOf(n) * g.csize + g.SectorOf(n) && g.SectorOf(n) < g.csize
  {
  }

  lemma Join(g: Geometry, n: nat, q: nat, r: nat)
    requires g.Valid() && r < g.csize && n == q * g.csize + r
    ensures g.ClusterOf(n) == q && g.SectorOf(n) == r
  {
    Quotient(n, g.csize, q, r);
  }

  lemma InChain(g: Geometry, n: nat, clusters: nat)
    requires g.Valid()
    ensures n < g.SectorsIn(clusters) <==> g.ClusterOf(n) < clusters
  {
    hide Geometry.ClusterOf, Geometry.SectorOf, Geometry.Valid;
    Split(g, n);
    var q := g.ClusterOf(n);
    if q < clusters {
      Spread(q, clusters, g.csize);
    } else if clusters < q {
      Spread(clusters, q, g.csize);
    }
  }

  lemma Join'(g: Geometry, n: nat, q: nat, r: nat)
    requires g.Valid() && n == g.SectorsIn(q) + r && r < g.csize
    ensures g.ClusterOf(n) == q && g.SectorOf(n) == r
    ensures forall k: nat :: q < k ==> n < g.SectorsIn(k)
  {
    Join(g, n, q, r);
    forall k: nat | q < k
      ensures n < g.SectorsIn(k)
    {
      InChain(g, n, k);
    }
  }

  /** The sector of the medium that is sector n of the file. */
  function FileSector(g: Geometry, ch: seq<nat>, n: nat): nat
    requires 1 <= g.csize && g.ClusterOf(n) < |ch| && 2 <= ch[g.ClusterOf(n)]
  {
    DataSector(g, ch[g.ClusterOf(n)], g.SectorOf(n))
  }

  ghost predicate Clusters(g: Geometry, ch: seq<nat>) {
    Distinct(ch) && forall i :: 0 <= i < |ch| ==> 2 <= ch[i] < g.maxClust
  }

  lemma FileSectorInside(g: Geometry, ch: seq<nat>, n: nat)
    requires g.Valid() && Clusters(g, ch) && n < g.SectorsIn(|ch|)
    ensures g.ClusterOf(n) < |ch|
    ensures g.FatEnd() <= g.CopiesEnd() <= g.database <= FileSector(g, ch, n) < g.sectors
  {
    hide Geometry.SectorsIn, Geometry.ClusterOf, Geometry.SectorOf;
    InChain(g, n, |ch|);
    Split(g, n);
    DataSectorInside(g, ch[g.ClusterOf(n)], g.SectorOf(n));
  }

  /** No two sectors of a file lie on the same sector of the medium. */
  lemma FileSectorDistinct(g: Geometry, ch: seq<nat>, n: nat, m: nat)
    requires g.Valid() && Clusters(g, ch) && n < g.SectorsIn(|ch|) && m < g.SectorsIn(|ch|)
    ensures g.ClusterOf(n) < |ch| && g.ClusterOf(m) < |ch|
    ensures FileSector(g, ch, n) == FileSector(g, ch, m) ==> n == m
  {
    hide Geometry.SectorsIn, Geometry.ClusterOf, Geometry.SectorOf;
    InChain(g, n, |ch|);
    InChain(g, m, |ch|);
    Split(g, n);
    Split(g, m);
    if FileSector(g, ch, n) == FileSector(g, ch, m) {
      DataSectorDistinct(g, ch[g.ClusterOf(n)], g.SectorOf(n), ch[g.ClusterOf(m)], g.SectorOf(m));
    }
  }

  /** The sectors of a chain, in file order. */
  ghost function Sectors(g: Geometry, v: seq<Sector>, ch: seq<nat>): (r: seq<Sector>)
    requires g.Valid() && |v| == g.sectors && Clusters(g, ch)
    ensures |r| == g.SectorsIn(|ch|)
  {
    seq(g.SectorsIn(|ch|), n requires 0 <= n < g.SectorsIn(|ch|) =>
      FileSectorInside(g, ch, n);
      v[FileSector(g, ch, n)])
  }

  /** The first size bytes of a string of sectors. */
  ghost function Content(ss: seq<Sector>, size: nat): (r: seq<Byte>)
    requires size <= |ss| * SECTOR_SIZE
    ensures |r| == size
  {
    seq(size, o requires 0 <= o < size => ss[o / SECTOR_SIZE][o % SECTOR_SIZE])
  }

  /** c with d written at position p, which may be its end. */
  function Splice(c: seq<Byte>, p: nat, d: seq<Byte>): (r: seq<Byte>)
    requires p <= |c|
    ensures |r| == if p + |d| < |c| then |c| else p + |d|
    ensures forall o :: 0 <= o < |r| ==> r[o] == if p <= o < p + |d| then d[o - p] else c[o]
  {
    c[..p] + d + if p + |d| < |c| then c[p + |d|..] else []
  }

  lemma SpliceSplice(c: seq<Byte>, p: nat, a: seq<Byte>, b: seq<Byte>)
    requires p <= |c|
    ensures Splice(Splice(c, p, a), p + |a|, b) == Splice(c, p, a + b)
  {
  }

  /** Sectors that differ from ss in the bytes of d at p only, as far as size reaches. */
  lemma ContentSplice(ss: seq<Sector>, ss': seq<Sector>, size: nat, p: nat, d: seq<Byte>)
    requires p <= size <= |ss| * SECTOR_SIZE && |ss| <= |ss'| && p + |d| <= |ss'| * SECTOR_SIZE
    requires forall o :: 0 <= o < size || p <= o < p + |d| ==>
               ss'[o / SECTOR_SIZE][o % SECTOR_SIZE] ==
               if p <= o < p + |d| then d[o - p] else ss[o / SECTOR_SIZE][o % SECTOR_SIZE]
    ensures Content(ss', if p + |d| < size then size else p + |d|) == Splice(Content(ss, size), p, d)
  {
  }

  /** One sector of the file replaced: bytes from k on are d, the others are as before
      as far as size reaches. */
  lemma PutSector(ss: seq<Sector>, n: nat, w: Sector, size: nat, k: nat, d: seq<Byte>)
    requires n < |ss| && k + |d| <= SECTOR_SIZE && n * SECTOR_SIZE + k <= size <= |ss| * SECTOR_SIZE
    requires w[k..k + |d|] == d
    requires forall i :: 0 <= i < SECTOR_SIZE && n * SECTOR_SIZE + i < size && !(k <= i < k + |d|) ==> w[i] == ss[n][i]
    ensures var p := n * SECTOR_SIZE + k;
            Content(ss[n := w], if p + |d| < size then size else p + |d|) == Splice(Content(ss, size), p, d)
  {
    var p := n * SECTOR_SIZE + k;
    var ss' := ss[n := w];
    forall o | 0 <= o < size || p <= o < p + |d|
      ensures ss'[o / SECTOR_SIZE][o % SECTOR_SIZE] ==
              if p <= o < p + |d| then d[o - p] else ss[o / SECTOR_SIZE][o % SECTOR_SIZE]
    {
      if p <= o < p + |d| {
        Quotient(o, SECTOR_SIZE, n, o - n * SECTOR_SIZE);
        assert w[k..k + |d|][o - p] == w[o - n * SECTOR_SIZE];
      } else if o / SECTOR_SIZE == n {
        assert o == n * SECTOR_SIZE + o % SECTOR_SIZE;
      }
    }
    ContentSplice(ss, ss', size, p, d);
  }

  /** Whole sectors of the file replaced by the first cc chunks of buf. */
  lemma PutRun(ss: seq<Sector>, ss': seq<Sector>, n: nat, cc: nat, size: nat, buf: seq<Byte>)
    requires |ss'| == |ss| && n + cc <= |ss| && cc * SECTOR_SIZE <= |buf|
    requires n * SECTOR_SIZE <= size <= |ss| * SECTOR_SIZE
    requires forall i :: 0 <= i < |ss| ==> ss'[i] == if n <= i < n + cc then Chunk(buf, i - n) else ss[i]
    ensures var p, d := n * SECTOR_SIZE, buf[..cc * SECTOR_SIZE];
            Content(ss', if p + |d| < size then size else p + |d|) == Splice(Content(ss, size), p, d)
  {
    var p, d := n * SECTOR_SIZE, buf[..cc * SECTOR_SIZE];
    forall o | 0 <= o < size || p <= o < p + |d|
      ensures ss'[o / SECTOR_SIZE][o % SECTOR_SIZE] ==
              if p <= o < p + |d| then d[o - p] else ss[o / SECTOR_SIZE][o % SECTOR_SIZE]
    {
      var i := o / SECTOR_SIZE;
      assert o == i * SECTOR_SIZE + o % SECTOR_SIZE;
      if p <= o < p + |d| {
        assert n <= i < n + cc;
      } else {
        assert !(n <= i < n + cc);
      }
    }
    ContentSplice(ss, ss', size, p, d);
  }

  /** A string of whole sectors is a stretch of the file exactly if each of its sectors is. */
  lemma RunBytes(ss: seq<Sector>, size: nat, n: nat, cc: nat, data: seq<Byte>)
    requires n + cc <= |ss| && |data| == cc * SECTOR_SIZE && n * SECTOR_SIZE + |data| <= size <= |ss| * SECTOR_SIZE
    ensures data == Content(ss, size)[n * SECTOR_SIZE..n * SECTOR_SIZE + |data|]
            <==> forall i :: 0 <= i < cc ==> Chunk(data, i) == ss[n + i]
  {
    var p := n * SECTOR_SIZE;
    var part := Content(ss, size)[p..p + |data|];
    forall i | 0 <= i < cc
      ensures Chunk(part, i) == ss[n + i]
    {
      forall k | 0 <= k < SECTOR_SIZE
        ensures Chunk(part, i)[k] == ss[n + i][k]
      {
        var o := p + i * SECTOR_SIZE + k;
        Quotient(o, SECTOR_SIZE, n + i, k);
        assert Chunk(part, i)[k] == part[i * SECTOR_SIZE + k] == Content(ss, size)[o];
      }
    }
    if forall i :: 0 <= i < cc ==> Chunk(data, i) == ss[n + i] {
      SameChunks(data, part, cc);
    }
  }

  lemma SameChunks(a: seq<Byte>, b: seq<Byte>, cc: nat)
    requires |a| == |b| == cc * SECTOR_SIZE
    requires forall i :: 0 <= i < cc ==> Chunk(a, i) == Chunk(b, i)
    ensures a == b
  {
    forall o | 0 <= o < |a|
      ensures a[o] == b[o]
    {
      var i := o / SECTOR_SIZE;
      var k := o % SECTOR_SIZE;
      assert o == i * SECTOR_SIZE + k && i < cc;
      assert Chunk(a, i)[k] == a[i * SECTOR_SIZE + k];
      assert Chunk(b, i)[k] == b[i * SECTOR_SIZE + k];
    }
  }

  lemma PartBytes(ss: seq<Sector>, size: nat, n: nat, k: nat, cnt: nat)
    requires n < |ss| && k + cnt <= SECTOR_SIZE && n * SECTOR_SIZE + k + cnt <= size <= |ss| * SECTOR_SIZE
    ensures ss[n][k..k + cnt] == Content(ss, size)[n * SECTOR_SIZE + k..n * SECTOR_SIZE + k + cnt]
  {
    var part, c := ss[n][k..k + cnt], Content(ss, size);
    forall i | 0 <= i < cnt
      ensures part[i] == c[n * SECTOR_SIZE + k + i]
    {
      Quotient(n * SECTOR_SIZE + k + i, SECTOR_SIZE, n, k + i);
    }
  }

  /** More sectors at the end do not change the bytes there already were. */
  lemma ContentPrefix(ss: seq<Sector>, more: seq<Sector>, size: nat)
    requires size <= |ss| * SECTOR_SIZE && ss <= more
    ensures Content(more, size) == Content(ss, size)
  {
    forall o | 0 <= o < size
      ensures Content(more, size)[o] == Content(ss, size)[o]
    {
      assert ss[o / SECTOR_SIZE] == more[o / SECTOR_SIZE];
    }
  }

  lemma SectorsPrefix(g: Geometry, v: seq<Sector>, v': seq<Sector>, ch: seq<nat>, ch': seq<nat>)
    requires g.Valid() && |v| == |v'| == g.sectors && Clusters(g, ch) && Clusters(g, ch') && ch <= ch'
    requires forall t :: g.database <= t < g.sectors ==> v[t] == v'[t]
    ensures Sectors(g, v, ch) <= Sectors(g, v', ch')
  {
    hide Geometry.ClusterOf, Geometry.SectorOf;
    if |ch| < |ch'| { Spread(|ch|, |ch'|, g.csize); }
    forall n | 0 <= n < g.SectorsIn(|ch|)
      ensures Sectors(g, v', ch')[n] == Sectors(g, v, ch)[n]
    {
      FileSectorInside(g, ch, n);
      FileSectorInside(g, ch', n);
    }
  }

  /** Sector n of the file replaced on the medium. */
  lemma SectorsPut(g: Geometry, v: seq<Sector>, ch: seq<nat>, n: nat, w: Sector)
    requires g.Valid() && |v| == g.sectors && Clusters(g, ch) && n < g.SectorsIn(|ch|)
    ensures g.ClusterOf(n) < |ch| && FileSector(g, ch, n) < g.sectors
    ensures Sectors(g, v[FileSector(g, ch, n) := w], ch) == Sectors(g, v, ch)[n := w]
  {
    hide Geometry.SectorsIn, Geometry.ClusterOf, Geometry.SectorOf;
    FileSectorInside(g, ch, n);
    var after, expected := Sectors(g, v[FileSector(g, ch, n) := w], ch), Sectors(g, v, ch)[n := w];
    forall m | 0 <= m < g.SectorsIn(|ch|)
      ensures after[m] == expected[m]
    {
      FileSectorInside(g, ch, m);
      FileSectorDistinct(g, ch, n, m);
    }
  }

  /** A run of sectors inside one cluster replaced on the medium. */
  lemma SectorsRun(g: Geometry, v: seq<Sector>, v': seq<Sector>, ch: seq<nat>, n: nat, cc: nat, s: nat)
    requires g.Valid() && |v| == |v'| == g.sectors && Clusters(g, ch) && n < g.SectorsIn(|ch|)
    requires 1 <= cc && g.SectorOf(n) + cc <= g.csize
    requires g.ClusterOf(n) < |ch| && s == FileSector(g, ch, n)
    requires forall t :: 0 <= t < g.sectors && !(s <= t < s + cc) ==> v'[t] == v[t]
    ensures n + cc <= g.SectorsIn(|ch|) && s + cc <= g.sectors
    ensures forall i :: 0 <= i < g.SectorsIn(|ch|) ==>
              Sectors(g, v', ch)[i] == if n <= i < n + cc then v'[s + i - n] else Sectors(g, v, ch)[i]
  {
    hide Geometry.SectorsIn, Geometry.ClusterOf, Geometry.SectorOf;
    RunInside(g, ch, n, cc);
    forall i | 0 <= i < g.SectorsIn(|ch|)
      ensures Sectors(g, v', ch)[i] == if n <= i < n + cc then v'[s + i - n] else Sectors(g, v, ch)[i]
    {
      FileSectorInside(g, ch, i);
      if n <= i < n + cc {
        RunSector(g, ch, n, i - n);
      } else {
        var t := FileSector(g, ch, i);
        if s <= t < s + cc {
          RunSector(g, ch, n, t - s);
          FileSectorDistinct(g, ch, i, n + (t - s));
        }
      }
    }
  }

  lemma RunInside(g: Geometry, ch: seq<nat>, n: nat, cc: nat)
    requires g.Valid() && Clusters(g, ch) && n < g.SectorsIn(|ch|)
    requires g.SectorOf(n) + cc <= g.csize
    ensures g.ClusterOf(n) < |ch| && n + cc <= g.SectorsIn(|ch|) && FileSector(g, ch, n) + cc <= g.sectors
  {
    hide Geometry.ClusterOf, Geometry.SectorOf;
    FileSectorInside(g, ch, n);
    Split(g, n);
    DataSectorInside(g, ch[g.ClusterOf(n)], g.SectorOf(n));
    Spread(g.ClusterOf(n), |ch|, g.csize);
  }

  lemma RunSector(g: Geometry, ch: seq<nat>, n: nat, i: nat)
    requires g.Valid() && Clusters(g, ch) && n < g.SectorsIn(|ch|) && g.SectorOf(n) + i < g.csize
    ensures g.ClusterOf(n) < |ch| && n + i < g.SectorsIn(|ch|)
    ensures g.ClusterOf(n + i) == g.ClusterOf(n) && g.SectorOf(n + i) == g.SectorOf(n) + i
    ensures FileSector(g, ch, n + i) == FileSector(g, ch, n) + i
  {
    hide Geometry.SectorsIn, Geometry.ClusterOf, Geometry.SectorOf;
    RunInside(g, ch, n, i + 1);
    Split(g, n);
    Join(g, n + i, g.ClusterOf(n), g.SectorOf(n) + i);
  }

  // ---------------------------------------------------------------- what else is on the volume

  /** Everything outside the chain ch is the same in v' as in v: the sectors before the
      data area except the FAT, and the entry and sectors of every other cluster in use. */
  ghost predicate OthersKept(g: Geometry, v: seq<Sector>, v': seq<Sector>, ch: seq<nat>)
    requires g.Valid() && |v| == |v'| == g.sectors
  {
    && (forall t {:trigger v'[t]} :: 0 <= t < g.sectors && (t < g.fatbase || g.CopiesEnd() <= t < g.database) ==> v'[t] == v[t])
    && (forall c :: InRange(Fat(g, v), c) && Fat(g, v)[c] != 0 && c !in ch ==> ClusterKept(g, v, v', c))
    && (Mirrored(g, v) ==> Mirrored(g, v'))
    && (NoOnes(Fat(g, v)) ==> NoOnes(Fat(g, v')))
  }

  ghost predicate ClusterKept(g: Geometry, v: seq<Sector>, v': seq<Sector>, c: nat)
    requires g.Valid() && |v| == |v'| == g.sectors && 2 <= c < g.maxClust
  {
    && Fat(g, v')[c] == Fat(g, v)[c]
    && forall j :: 0 <= j < g.csize ==> (DataSectorInside(g, c, j); v'[DataSector(g, c, j)] == v[DataSector(g, c, j)])
  }

  /** ch' is ch with clusters appended that were free in table t. */
  ghost predicate Grown(t: seq<nat>, ch: seq<nat>, ch': seq<nat>) {
    && ch <= ch'
    && forall i :: |ch| <= i < |ch'| ==> InRange(t, ch'[i]) && t[ch'[i]] == 0
  }

  lemma OthersKeptTwice(g: Geometry, v: seq<Sector>, v': seq<Sector>, v'': seq<Sector>, ch: seq<nat>, ch': seq<nat>)
    requires g.Valid() && |v| == |v'| == |v''| == g.sectors
    requires OthersKept(g, v, v', ch) && OthersKept(g, v', v'', ch') && Grown(Fat(g, v), ch, ch')
    ensures OthersKept(g, v, v'', ch)
  {
    forall c | InRange(Fat(g, v), c) && Fat(g, v)[c] != 0 && c !in ch
      ensures ClusterKept(g, v, v'', c)
    {
      assert ClusterKept(g, v, v', c);
      assert c !in ch';
      assert ClusterKept(g, v', v'', c);
    }
  }

  /** A change of the FAT alone that sets free entries, and the last link of ch. */
  lemma TableChangeKeeps(g: Geometry, v: seq<Sector>, v': seq<Sector>, ch: seq<nat>)
    requires g.Valid() && |v| == |v'| == g.sectors && OnlyFat(g, v, v')
    requires forall c :: InRange(Fat(g, v), c) && Fat(g, v)[c] != 0 && c !in ch ==> Fat(g, v')[c] == Fat(g, v)[c]
    requires NoOnes(Fat(g, v)) ==> NoOnes(Fat(g, v'))
    ensures OthersKept(g, v, v', ch)
  {
    FatInside(g);
    forall c | InRange(Fat(g, v), c) && Fat(g, v)[c] != 0 && c !in ch
      ensures ClusterKept(g, v, v', c)
    {
      forall j | 0 <= j < g.csize
        ensures (DataSectorInside(g, c, j); v'[DataSector(g, c, j)] == v[DataSector(g, c, j)])
      {
        DataSectorInside(g, c, j);
      }
    }
  }

  /** A change of sectors of the chain alone. */
  lemma DataChangeKeeps(g: Geometry, v: seq<Sector>, v': seq<Sector>, ch: seq<nat>, i: nat, j: nat, cc: nat)
    requires g.Valid() && |v| == |v'| == g.sectors && Clusters(g, ch)
    requires i < |ch| && 1 <= cc && j + cc <= g.csize
    requires var s := DataSector(g, ch[i], j); forall t :: 0 <= t < g.sectors && !(s <= t < s + cc) ==> v'[t] == v[t]
    ensures Fat(g, v') == Fat(g, v) && OthersKept(g, v, v', ch)
  {
    var s := DataSector(g, ch[i], j);
    DataSectorInside(g, ch[i], j);
    FatInside(g);
    SameFat(g, v, v');
    forall c | InRange(Fat(g, v), c) && Fat(g, v)[c] != 0 && c !in ch
      ensures ClusterKept(g, v, v', c)
    {
      assert ch[i] in ch;
      forall k | 0 <= k < g.csize
        ensures (DataSectorInside(g, c, k); v'[DataSector(g, c, k)] == v[DataSector(g, c, k)])
      {
        DataSectorInside(g, c, k);
        var t := DataSector(g, c, k);
        if s <= t < s + cc {
          DataSectorDistinct(g, c, k, ch[i], j + (t - s));
        }
      }
    }
    if Mirrored(g, v) { MirroredData(g, v, v'); }
  }

  lemma MirroredData(g: Geometry, v: seq<Sector>, v': seq<Sector>)
    requires g.Valid() && |v| == |v'| == g.sectors && Mirrored(g, v)
    requires forall t :: 0 <= t < g.CopiesEnd() && t < g.sectors ==> v'[t] == v[t]
    ensures Mirrored(g, v')
  {
    hide Geometry.DataEnd;
    forall f: nat, k: nat {:trigger g.CopyAt(f, k)} | g.fatbase <= f < g.FatEnd() && k < g.nFats
      ensures f < |v'| && g.CopyAt(f, k) < |v'| && v'[g.CopyAt(f, k)] == v'[f]
    {
      MirroredSector(g, v, v', f, k);
    }
  }

  lemma MirroredSector(g: Geometry, v: seq<Sector>, v': seq<Sector>, f: nat, k: nat)
    requires g.Valid() && |v| == |v'| == g.sectors && Mirrored(g, v)
    requires forall t :: 0 <= t < g.CopiesEnd() && t < g.sectors ==> v'[t] == v[t]
    requires g.fatbase <= f < g.FatEnd() && k < g.nFats
    ensures f < |v'| && g.CopyAt(f, k) < |v'| && v'[g.CopyAt(f, k)] == v'[f]
  {
    CopiesInside(g, f, k);
    FatInside(g);
    var t := g.CopyAt(f, k);
    hide Geometry.CopyAt;
    assert v[t] == v[f];
  }

  /** Files on disjoint chains keep their chain and every byte. */
  lemma OtherFileKept(g: Geometry, v: seq<Sector>, v': seq<Sector>, ch: seq<nat>, other: seq<nat>)
    requires g.Valid() && |v| == |v'| == g.sectors && OthersKept(g, v, v', ch)
    requires IsChain(Fat(g, v), other) && !Meet(ch, other)
    ensures IsChain(Fat(g, v'), other) && Clusters(g, other)
    ensures Sectors(g, v', other) == Sectors(g, v, other)
  {
    hide Geometry.SectorsIn, Geometry.ClusterOf, Geometry.SectorOf;
    ChainDistinct(Fat(g, v), other);
    forall i | 0 <= i < |other|
      ensures other[i] !in ch && ClusterKept(g, v, v', other[i])
    {
      assert other[i] in other;
      Link(Fat(g, v), other, i);
    }
    ChainFrame(Fat(g, v), Fat(g, v'), other);
    forall n | 0 <= n < g.SectorsIn(|other|)
      ensures Sectors(g, v', other)[n] == Sectors(g, v, other)[n]
    {
      FileSectorInside(g, other, n);
      Split(g, n);
      assert ClusterKept(g, v, v', other[g.ClusterOf(n)]);
    }
  }

  // ---------------------------------------------------------------- a chain grows

  ghost predicate FileChain(g: Geometry, t: seq<nat>, org: nat, ch: seq<nat>) {
    && Clusters(g, ch)
    && if org == 0 then ch == [] else ch != [] && IsChain(t, ch) && ch[0] == org
  }

  /** A new cluster at the end of a file's chain: what the file held it still holds, and
      nothing else on the volume changed. */
  lemma GrowFile(g: Geometry, v: seq<Sector>, v': seq<Sector>, org: nat, ch: seq<nat>, r: nat, eoc: nat)
    requires g.Valid() && |v| == |v'| == g.sectors && OnlyFat(g, v, v')
    requires FileChain(g, Fat(g, v), org, ch) && eoc >= g.maxClust
    requires Step(Fat(g, v), if ch == [] then Made(r) else Stretched(ch[|ch| - 1], r), Fat(g, v'), eoc)
    ensures FileChain(g, Fat(g, v'), if ch == [] then r else org, ch + [r])
    ensures Grown(Fat(g, v), ch, ch + [r]) && OthersKept(g, v, v', ch)
    ensures FreeCount(Fat(g, v')) == FreeCount(Fat(g, v)) - 1
    ensures Sectors(g, v, ch) <= Sectors(g, v', ch + [r])
  {
    hide Geometry.Valid, Geometry.CopyAt, Geometry.DataEnd, Mirrored, IsChain, Step, OthersKept, OnlyFat, Fat;
    GrowTable(Fat(g, v), Fat(g, v'), org, ch, r, eoc);
    TableChangeKeeps(g, v, v', ch);
    DataKept(g, v, v');
    SectorsPrefix(g, v, v', ch, ch + [r]);
  }

  lemma GrowTable(t: seq<nat>, t': seq<nat>, org: nat, ch: seq<nat>, r: nat, eoc: nat)
    requires |t| == |t'| && eoc >= |t|
    requires ch != [] ==> IsChain(t, ch) && ch[0] == org
    requires Step(t, if ch == [] then Made(r) else Stretched(ch[|ch| - 1], r), t', eoc)
    ensures IsChain(t', ch + [r]) && Distinct(ch + [r]) && InRange(t, r)
    ensures Grown(t, ch, ch + [r])
    ensures FreeCount(t') == FreeCount(t) - 1
    ensures forall c :: InRange(t, c) && t[c] != 0 && c !in ch ==> t'[c] == t[c]
    ensures NoOnes(t) ==> NoOnes(t')
  {
    FreeBelowUpdate(t, r, eoc, |t|);
    if ch == [] {
      assert IsChain(t', [r]);
      assert ch + [r] == [r];
    } else {
      var c := ch[|ch| - 1];
      assert c in ch;
      Stretch(t, ch, r, eoc);
      FreeBelowUpdate(t[r := eoc], c, r, |t|);
      Untouched(t, ch, r, eoc);
    }
    ChainDistinct(t', ch + [r]);
  }

  lemma DataKept(g: Geometry, v: seq<Sector>, v': seq<Sector>)
    requires g.Valid() && |v| == |v'| == g.sectors && OnlyFat(g, v, v')
    ensures forall t :: g.database <= t < g.sectors ==> v[t] == v'[t]
  {
    DataAfterFat(g);
  }

  lemma DataAfterFat(g: Geometry)
    requires g.Valid()
    ensures g.CopiesEnd() <= g.database
  {
  }

  lemma OthersKeptNothing(g: Geometry, v: seq<Sector>, ch: seq<nat>)
    requires g.Valid() && |v| == g.sectors
    ensures OthersKept(g, v, v, ch)
  {
  }

  /** The next sector of the file: in the same cluster, or the first of the next. */
  lemma NextSector(g: Geometry, m: nat)
    requires g.Valid()
    ensures if g.SectorOf(m) + 1 < g.csize
            then g.ClusterOf(m + 1) == g.ClusterOf(m) && g.SectorOf(m + 1) == g.SectorOf(m) + 1
            else g.SectorOf(m) + 1 == g.csize && g.ClusterOf(m + 1) == g.ClusterOf(m) + 1 && g.SectorOf(m + 1) == 0
  {
    hide Geometry.ClusterOf, Geometry.SectorOf;
    Split(g, m);
    if g.SectorOf(m) + 1 < g.csize {
      Join(g, m + 1, g.ClusterOf(m), g.SectorOf(m) + 1);
    } else {
      Join(g, m + 1, g.ClusterOf(m) + 1, 0);
    }
  }

  lemma KeptNoOnes(g: Geometry, v: seq<Sector>, v': seq<Sector>, ch: seq<nat>)
    requires g.Valid() && |v| == |v'| == g.sectors && OthersKept(g, v, v', ch)
    ensures NoOnes(Fat(g, v)) ==> NoOnes(Fat(g, v'))
  {
  }

  lemma GrownNothing(t: seq<nat>, ch: seq<nat>)
    ensures Grown(t, ch, ch)
  {
  }

  lemma GrownTwice(g: Geometry, v: seq<Sector>, v': seq<Sector>, ch: seq<nat>, ch': seq<nat>, ch'': seq<nat>)
    requires g.Valid() && |v| == |v'| == g.sectors && OthersKept(g, v, v', ch)
    requires Grown(Fat(g, v), ch, ch') && Grown(Fat(g, v'), ch', ch'')
    requires ch' != [] ==> IsChain(Fat(g, v'), ch')
    ensures Grown(Fat(g, v), ch, ch'')
  {
    var t, t' := Fat(g, v), Fat(g, v');
    forall i | |ch| <= i < |ch''|
      ensures InRange(t, ch''[i]) && t[ch''[i]] == 0
    {
      var e := ch''[i];
      if i < |ch'| {
        assert ch'[i] == e;
      } else {
        KeptEntry(g, v, v', ch, e);
        if e in ch {
          var k := Position(ch, e);
          assert ch'[k] == e;
          Link(t', ch', k);
        }
      }
    }
  }

  lemma KeptEntry(g: Geometry, v: seq<Sector>, v': seq<Sector>, ch: seq<nat>, c: nat)
    requires g.Valid() && |v| == |v'| == g.sectors && OthersKept(g, v, v', ch) && InRange(Fat(g, v), c)
    ensures Fat(g, v)[c] == 0 || c in ch || Fat(g, v')[c] == Fat(g, v)[c]
  {
    if Fat(g, v)[c] != 0 && c !in ch { assert ClusterKept(g, v, v', c); }
  }

  lemma NoSectors(g: Geometry)
    ensures g.SectorsIn(0) == 0
  {
  }

  lemma MoreSectors(g: Geometry, i: nat)
    ensures g.SectorsIn(i + 1) == g.SectorsIn(i) + g.csize
  {
  }
}
