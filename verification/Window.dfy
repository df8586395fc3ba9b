/** The one-sector write-back window, seen from the medium: what a flush of a dirty
    window writes, FAT copies included. */
module SectorWindow {
  import opened Arithmetic
  import opened FatTypes

  /** The medium after sector s and its first k copies were written with w. */
  ghost function WriteCopies(g: Geometry, d: seq<Sector>, s: nat, w: Sector, k: nat): (r: seq<Sector>)
    requires g.CopyAt(s, k) < |d|
    ensures |r| == |d|
    decreases k
  {
    if k == 0 then d[s := w]
    else
      assert g.CopyAt(s, k) == g.CopyAt(s, k - 1) + g.sectsFat;
      WriteCopies(g, d, s, w, k - 1)[g.CopyAt(s, k) := w]
  }

  ghost predicate IsCopy(g: Geometry, s: nat, t: nat, k: nat) {
    exists j: nat :: 1 <= j <= k && t == g.CopyAt(s, j)
  }

  lemma {:induction false} WriteCopiesAt(g: Geometry, d: seq<Sector>, s: nat, w: Sector, k: nat, t: nat)
    requires g.CopyAt(s, k) < |d| && t < |d|
    ensures WriteCopies(g, d, s, w, k)[t] == if t == s || IsCopy(g, s, t, k) then w else d[t]
    decreases k
  {
    if k > 0 {
      assert g.CopyAt(s, k) == g.CopyAt(s, k - 1) + g.sectsFat;
      WriteCopiesAt(g, d, s, w, k - 1, t);
      assert IsCopy(g, s, t, k) <==> IsCopy(g, s, t, k - 1) || t == g.CopyAt(s, k);
    }
  }

  /** A sector the window may hold dirty: not reserved, and not a FAT copy. */
  ghost predicate Writable(g: Geometry, s: nat) {
    s < g.sectors && (g.fatbase <= s < g.FatEnd() || g.CopiesEnd() <= s)
  }

  /** The medium after a window showing sector s with content w was flushed. */
  ghost function Patch(g: Geometry, d: seq<Sector>, s: nat, w: Sector): (r: seq<Sector>)
    requires g.Valid() && |d| == g.sectors && Writable(g, s)
    ensures |r| == |d|
  {
    if s < g.FatEnd() then
      CopiesInside(g, s, g.nFats - 1);
      WriteCopies(g, d, s, w, g.nFats - 1)
    else d[s := w]
  }

  lemma CopiesInside(g: Geometry, s: nat, k: nat)
    requires g.Valid() && g.fatbase <= s < g.FatEnd() && k < g.nFats
    ensures g.CopyAt(s, k) < g.CopiesEnd() <= g.database <= g.sectors
    ensures k > 0 ==> g.FatEnd() <= g.CopyAt(s, k)
  {
    Spread(k, g.nFats, g.sectsFat);
    if k > 0 { Spread(0, k, g.sectsFat); }
    DataInside(g);
  }

  lemma DataInside(g: Geometry)
    requires g.Valid()
    ensures g.database <= g.sectors
  {
    hide Geometry.DataEnd, Geometry.CopyAt;
  }

  /** A flush writes the sector shown, its copies if it is a FAT sector, nothing else. */
  lemma PatchAt(g: Geometry, d: seq<Sector>, s: nat, w: Sector, t: nat)
    requires g.Valid() && |d| == g.sectors && Writable(g, s) && t < |d|
    ensures Patch(g, d, s, w)[t] ==
            if t == s || (s < g.FatEnd() && IsCopy(g, s, t, g.nFats - 1)) then w else d[t]
  {
    if s < g.FatEnd() {
      CopiesInside(g, s, g.nFats - 1);
      WriteCopiesAt(g, d, s, w, g.nFats - 1, t);
    }
  }

  lemma PatchSelf(g: Geometry, d: seq<Sector>, s: nat, w: Sector)
    requires g.Valid() && |d| == g.sectors && Writable(g, s)
    ensures Patch(g, d, s, w)[s] == w
  {
    PatchAt(g, d, s, w, s);
  }

  /** Outside the FAT copies a flush changes only the sector shown. */
  lemma PatchFrame(g: Geometry, d: seq<Sector>, s: nat, w: Sector)
    requires g.Valid() && |d| == g.sectors && Writable(g, s)
    ensures forall t :: 0 <= t < |d| && t != s && (t < g.FatEnd() || g.CopiesEnd() <= t)
              ==> Patch(g, d, s, w)[t] == d[t]
  {
    forall t | 0 <= t < |d| && t != s && (t < g.FatEnd() || g.CopiesEnd() <= t)
      ensures Patch(g, d, s, w)[t] == d[t]
    {
      PatchAt(g, d, s, w, t);
      if s < g.FatEnd() && IsCopy(g, s, t, g.nFats - 1) {
        var j: nat :| 1 <= j <= g.nFats - 1 && t == g.CopyAt(s, j);
        CopiesInside(g, s, j);
      }
    }
  }

  /** Only the last content written through the window survives. */
  lemma PatchPatch(g: Geometry, d: seq<Sector>, s: nat, w: Sector, w': Sector)
    requires g.Valid() && |d| == g.sectors && Writable(g, s)
    ensures Patch(g, Patch(g, d, s, w), s, w') == Patch(g, d, s, w')
  {
    forall t | 0 <= t < |d|
      ensures Patch(g, Patch(g, d, s, w), s, w')[t] == Patch(g, d, s, w')[t]
    {
      PatchAt(g, d, s, w, t);
      PatchAt(g, d, s, w', t);
      PatchAt(g, Patch(g, d, s, w), s, w', t);
    }
  }

  lemma PatchData(g: Geometry, d: seq<Sector>, s: nat, w: Sector)
    requires g.Valid() && |d| == g.sectors && Writable(g, s) && g.FatEnd() <= s
    ensures Patch(g, d, s, w) == d[s := w]
  {
  }

  /** All copies of every FAT sector agree with the first FAT. */
  ghost predicate Mirrored(g: Geometry, d: seq<Sector>)
    requires g.Valid() && |d| == g.sectors
  {
    forall s: nat, k: nat {:trigger g.CopyAt(s, k)} :: g.fatbase <= s < g.FatEnd() && k < g.nFats ==>
      s < |d| && g.CopyAt(s, k) < |d| && d[g.CopyAt(s, k)] == d[s]
  }

  lemma CopiesDistinct(g: Geometry, s: nat, j: nat, s': nat, k: nat)
    requires g.Valid() && g.fatbase <= s < g.FatEnd() && g.fatbase <= s' < g.FatEnd()
    requires g.CopyAt(s, j) == g.CopyAt(s', k)
    ensures s == s' && j == k
  {
    if j < k {
      Spread(j, k, g.sectsFat);
    } else if k < j {
      Spread(k, j, g.sectsFat);
    }
  }

  /** Flushing a dirty FAT sector leaves all its copies equal. */
  lemma PatchCopies(g: Geometry, d: seq<Sector>, s: nat, w: Sector, k: nat)
    requires g.Valid() && |d| == g.sectors && Writable(g, s) && s < g.FatEnd() && k < g.nFats
    ensures g.CopyAt(s, k) < |d| && Patch(g, d, s, w)[g.CopyAt(s, k)] == w
  {
    CopiesInside(g, s, k);
    PatchAt(g, d, s, w, g.CopyAt(s, k));
    if k > 0 {
      assert IsCopy(g, s, g.CopyAt(s, k), g.nFats - 1);
    }
  }

  /** Flushing any dirty sector keeps every copy of every FAT sector equal to the first. */
  lemma PatchMirrors(g: Geometry, d: seq<Sector>, s: nat, w: Sector)
    requires g.Valid() && |d| == g.sectors && Writable(g, s)
    requires Mirrored(g, d)
    ensures Mirrored(g, Patch(g, d, s, w))
  {
    hide Geometry.DataEnd;
    forall f: nat, k: nat {:trigger g.CopyAt(f, k)} | g.fatbase <= f < g.FatEnd() && k < g.nFats
      ensures f < |d| && g.CopyAt(f, k) < |d| && Patch(g, d, s, w)[g.CopyAt(f, k)] == Patch(g, d, s, w)[f]
    {
      PatchMirror(g, d, s, w, f, k);
    }
  }

  lemma PatchMirror(g: Geometry, d: seq<Sector>, s: nat, w: Sector, f: nat, k: nat)
    requires g.Valid() && |d| == g.sectors && Writable(g, s)
    requires g.fatbase <= f < g.FatEnd() && k < g.nFats
    requires Mirrored(g, d)
    ensures f < |d| && g.CopyAt(f, k) < |d| && Patch(g, d, s, w)[g.CopyAt(f, k)] == Patch(g, d, s, w)[f]
  {
    if f == s {
      PatchCopies(g, d, s, w, k);
      PatchSelf(g, d, s, w);
    } else {
      OtherCopy(g, d, s, w, f, k);
      CopiesInside(g, f, 0);
      PatchFrame(g, d, s, w);
    }
  }

  lemma OtherCopy(g: Geometry, d: seq<Sector>, s: nat, w: Sector, f: nat, k: nat)
    requires g.Valid() && |d| == g.sectors && Writable(g, s)
    requires g.fatbase <= f < g.FatEnd() && k < g.nFats && f != s
    ensures g.CopyAt(f, k) < |d| && Patch(g, d, s, w)[g.CopyAt(f, k)] == d[g.CopyAt(f, k)]
  {
    var t := g.CopyAt(f, k);
    CopiesInside(g, f, k);
    PatchAt(g, d, s, w, t);
    if s < g.FatEnd() {
      if t == s {
        assert g.CopyAt(s, 0) == s;
        CopiesDistinct(g, f, k, s, 0);
      } else if IsCopy(g, s, t, g.nFats - 1) {
        var j: nat :| 1 <= j <= g.nFats - 1 && t == g.CopyAt(s, j);
        CopiesDistinct(g, f, k, s, j);
      }
    }
  }
}
