/** The loop of MapMemory, round after round: exactly when it never ends. */
module PageRounds {
  import opened Arithmetic
  import opened PageTables
  import opened PageRanges

  lemma NextRound(base: nat, end: nat, t: Tables, e: MemorySection, k: nat)
    requires |t.l1| == SLOTS && base <= t.top && end < WORD_LIMIT && e.domain < 16
    ensures var r := Rounds(base, end, t, e, k);
            Rounds(base, end, t, e, k + 1) == if GoesOn(r) then OneRound(base, end, r.tables, r.rest) else r
  {
  }

  /** The rounds of the pages before the first whole megabyte. */
  lemma {:induction false} HeadRounds(base: nat, end: nat, t: Tables, e: MemorySection, j: nat)
    requires Good(base, end, t) && e.domain < 16 && RunsAway(e) && j <= HeadPages(e)
    ensures var r := Rounds(base, end, t, e, j);
            && (r.ret.Success? <==> HeadOpen(base, end, t, e, j))
            && (r.ret.Success? ==> Good(base, end, r.tables) && Reached(e, r.rest, j) && HeadTables(base, t, e, r.tables, j))
    decreases j
  {
    hide Laid, Paged, RunsAway, Reached, FramesOf, OneRound, HeadPages, Aligned;
    HeadInside(e);
    if j == 0 {
      ReachedNothing(e);
    } else {
      HeadRounds(base, end, t, e, j - 1);
      HeadRound(base, end, t, e, j - 1, Rounds(base, end, t, e, j - 1));
    }
  }

  /** After j of these rounds the other pages are as before, and the megabyte has a table. */
  ghost predicate HeadTables(base: nat, t: Tables, e: MemorySection, u: Tables, j: nat)
    requires |t.l1| == |u.l1| == SLOTS
  {
    && (j == 0 ==> u == t)
    && (j > 0 ==> u.l1[e.virtual / SECTION] != 0)
    && forall n: nat :: e.virtual / PAGE + j <= n < PAGES ==> FramesOf(base, u)[n] == FramesOf(base, t)[n]
  }

  lemma HeadRound(base: nat, end: nat, t: Tables, e: MemorySection, j: nat, r: Round)
    requires Good(base, end, t) && e.domain < 16 && RunsAway(e) && j < HeadPages(e) && r == Rounds(base, end, t, e, j)
    requires r.ret.Success? <==> HeadOpen(base, end, t, e, j)
    requires r.ret.Success? ==> Good(base, end, r.tables) && Reached(e, r.rest, j) && HeadTables(base, t, e, r.tables, j)
    ensures var next := Rounds(base, end, t, e, j + 1);
            && (next.ret.Success? <==> HeadOpen(base, end, t, e, j + 1))
            && (next.ret.Success? ==> Good(base, end, next.tables) && Reached(e, next.rest, j + 1) && HeadTables(base, t, e, next.tables, j + 1))
  {
    hide Laid, Paged, FramesOf, TakePage, Rounds, HeadPages, Reached;
    NextRound(base, end, t, e, j);
    HeadInside(e);
    HeadWithin(e, j);
    if r.ret.Success? {
      var m := r.rest;
      ReachedAligned(e, m, j);
      HeadPage(e, m, j);
      PageRound(base, end, r.tables, m);
      PageRest(base, end, r.tables, m);
      ReachedAfter(e, m, j, 1);
    }
  }

  lemma HeadPage(e: MemorySection, m: MemorySection, j: nat)
    requires RunsAway(e) && Reached(e, m, j) && j < HeadPages(e)
    ensures m.size >= PAGE && Aligned(m) && !WholeMegabyte(m)
    ensures m.virtual / SECTION == e.virtual / SECTION && m.virtual / PAGE == e.virtual / PAGE + j < PAGES
  {
    hide HeadPages, Aligned;
    HeadInside(e);
    HeadWithin(e, j);
    ReachedAligned(e, m, j);
  }

  // ---------------------------------------------------------------- running away

  /** At a megabyte boundary with 0xFFFFF bytes more than a number of megabytes to go. */
  predicate AtBoundary(m: MemorySection) {
    m.size % SECTION == SECTION - 1 && m.virtual % SECTION == 0 && m.physical % SECTION == 0
  }

  /** From there a round takes a megabyte, and gets there again. */
  lemma BoundaryRound(base: nat, end: nat, t: Tables, m: MemorySection)
    requires |t.l1| == SLOTS && base <= t.top && end < WORD_LIMIT && m.domain < 16 && AtBoundary(m)
    ensures m.size > 0 && GoesOn(OneRound(base, end, t, m)) && AtBoundary(OneRound(base, end, t, m).rest)
  {
    hide SectionEntry;
    assert m.size >= m.size % SECTION;
    WrapsTo(m.size, -1);
    WrapsTo(m.virtual, 1);
    WrapsTo(m.physical, 1);
    var rest := After(m, TABLE_WORDS);
    assert rest.size >= rest.size % SECTION;
  }

  /** A megabyte more or less, in 32 bits, leaves the place in the megabyte. */
  lemma WrapsTo(x: Word, d: int)
    requires d == 1 || d == -1
    ensures ((x + d * SECTION) % WORD_LIMIT) % SECTION == x % SECTION
  {
    var q, r := x / SECTION, x % SECTION;
    var n := (q + d) % SLOTS;
    assert x == q * SECTION + r && (q + d) % SLOTS == (if q + d < 0 then SLOTS - 1 else if q + d == SLOTS then 0 else q + d);
    assert x + d * SECTION == n * SECTION + r + (if q + d < 0 then -1 else if q + d == SLOTS then 1 else 0) * WORD_LIMIT;
    Quotient(n * SECTION + r, SECTION, n, r);
  }

  /** Once there, the loop never ends. */
  lemma {:induction false} RunsForever(base: nat, end: nat, t: Tables, e: MemorySection, h: nat, k: nat)
    requires |t.l1| == SLOTS && base <= t.top && end < WORD_LIMIT && e.domain < 16
    requires h <= k && Rounds(base, end, t, e, h).ret.Success? && AtBoundary(Rounds(base, end, t, e, h).rest)
    ensures GoesOn(Rounds(base, end, t, e, k)) && AtBoundary(Rounds(base, end, t, e, k).rest)
    decreases k
  {
    hide Rounds, OneRound;
    if k == h {
      var r := Rounds(base, end, t, e, k);
      assert r.rest.size >= r.rest.size % SECTION;
    } else {
      RunsForever(base, end, t, e, h, k - 1);
      NextRound(base, end, t, e, k - 1);
      var r := Rounds(base, end, t, e, k - 1);
      BoundaryRound(base, end, r.tables, r.rest);
    }
  }

  /** A round that succeeds came after rounds that succeed. */
  lemma {:induction false} SucceedsBefore(base: nat, end: nat, t: Tables, e: MemorySection, j: nat, k: nat)
    requires |t.l1| == SLOTS && base <= t.top && end < WORD_LIMIT && e.domain < 16 && j <= k
    ensures Rounds(base, end, t, e, k).ret.Success? ==> Rounds(base, end, t, e, j).ret.Success?
    ensures GoesOn(Rounds(base, end, t, e, k)) ==> GoesOn(Rounds(base, end, t, e, j))
    decreases k
  {
    hide Rounds, OneRound;
    if j < k {
      SucceedsBefore(base, end, t, e, j, k - 1);
      NextRound(base, end, t, e, k - 1);
    }
  }

  lemma RunsAwayGoesOn(base: nat, end: nat, t: Tables, e: MemorySection, k: nat)
    requires Good(base, end, t) && e.domain < 16 && Endless(base, end, t, e)
    ensures GoesOn(Rounds(base, end, t, e, k))
  {
    hide Rounds, Laid, Paged, HeadPages, Reached;
    var h := HeadPages(e);
    HeadRounds(base, end, t, e, h);
    HeadInside(e);
    HeadWithin(e, h);
    ReachedAligned(e, Rounds(base, end, t, e, h).rest, h);
    RunsForever(base, end, t, e, h, if k < h then h else k);
    SucceedsBefore(base, end, t, e, k, if k < h then h else k);
  }

  // ---------------------------------------------------------------- ending

  lemma BoundaryRunsAway(e: MemorySection, m: MemorySection, d: nat)
    requires Reached(e, m, d) && WholeMegabyte(m) && m.size == SECTION - 1
    ensures RunsAway(e)
  {
    ReachedAligned(e, m, d);
    SectionAligned(m.virtual);
    SectionAligned(m.physical);
  }

  /** As long as a range that ends goes on, every round took at least a page, and no more than
      there was. */
  lemma {:induction false} GoesOnWithin(base: nat, end: nat, t: Tables, e: MemorySection, k: nat) returns (d: nat)
    requires Good(base, end, t) && e.domain < 16 && !Endless(base, end, t, e) && GoesOn(Rounds(base, end, t, e, k))
    ensures var r := Rounds(base, end, t, e, k);
            Good(base, end, r.tables) && Reached(e, r.rest, d) && d >= k && (WholeMegabyte(r.rest) ==> r.rest.size >= SECTION)
    decreases k
  {
    hide Laid, Paged, HeadPages, Reached, OneRound, FramesOf, RunsAway;
    var r := Rounds(base, end, t, e, k);
    if RunsAway(e) {
      HeadStops(base, end, t, e, k);
      d := k;
    } else if k == 0 {
      ReachedNothing(e);
      d := 0;
    } else {
      var was := Rounds(base, end, t, e, k - 1);
      d := GoesOnWithin(base, end, t, e, k - 1);
      RoundShifts(base, end, was.tables, was.rest);
      ReachedAfter(e, was.rest, d, PagesTaken(was.rest));
      d := d + PagesTaken(was.rest);
    }
    if WholeMegabyte(r.rest) && r.rest.size == SECTION - 1 && !RunsAway(e) { BoundaryRunsAway(e, r.rest, d); }
  }

  /** A page in the way stops the loop before the first whole megabyte. */
  lemma HeadStops(base: nat, end: nat, t: Tables, e: MemorySection, k: nat)
    requires Good(base, end, t) && e.domain < 16 && RunsAway(e) && !HeadFree(base, end, t, e) && GoesOn(Rounds(base, end, t, e, k))
    ensures var r := Rounds(base, end, t, e, k);
            k < HeadPages(e) && Good(base, end, r.tables) && Reached(e, r.rest, k) && !WholeMegabyte(r.rest)
  {
    hide Laid, Paged, HeadPages, Reached, Rounds, HeadOpen;
    HeadRounds(base, end, t, e, HeadPages(e));
    if k >= HeadPages(e) {
      SucceedsBefore(base, end, t, e, HeadPages(e), k);
    } else {
      HeadRounds(base, end, t, e, k);
      HeadPage(e, Rounds(base, end, t, e, k).rest, k);
    }
  }

  lemma RoundFits(base: nat, end: nat, t: Tables, e: MemorySection, k: nat)
    requires Good(base, end, t) && e.domain < 16 && !Endless(base, end, t, e) && GoesOn(Rounds(base, end, t, e, k))
    ensures var m := Rounds(base, end, t, e, k).rest; WholeMegabyte(m) ==> m.size >= SECTION
  {
    hide Laid, Paged, Rounds;
    var _ := GoesOnWithin(base, end, t, e, k);
  }

  lemma NoRounds(base: nat, end: nat, t: Tables, e: MemorySection)
    requires |t.l1| == SLOTS && base <= t.top && end < WORD_LIMIT && e.domain < 16
    ensures Rounds(base, end, t, e, 0) == Round(Success, t, e)
  {
  }

  /** A range that ends takes no more rounds than it has pages, and one. */
  lemma RoundsBound(base: nat, end: nat, t: Tables, e: MemorySection, k: nat)
    requires Good(base, end, t) && e.domain < 16 && !Endless(base, end, t, e) && GoesOn(Rounds(base, end, t, e, k))
    ensures k <= e.size / PAGE
  {
    hide Laid, Paged, Rounds;
    var d := GoesOnWithin(base, end, t, e, k);
    ReachedAligned(e, Rounds(base, end, t, e, k).rest, d);
  }

  /** After k rounds the loop of MapMemory still goes on. */
  ghost predicate OnAfter(base: nat, end: nat, t: Tables, e: MemorySection, k: nat)
    requires |t.l1| == SLOTS && base <= t.top && end < WORD_LIMIT && e.domain < 16
  {
    GoesOn(Rounds(base, end, t, e, k))
  }

  /** The loop of MapMemory never ends, exactly if the range runs away and nothing is in the way of
      the pages before its first whole megabyte. */
  lemma NeverEndsExactly(base: nat, end: nat, t: Tables, e: MemorySection)
    requires Good(base, end, t) && e.domain < 16
    ensures (forall k: nat :: OnAfter(base, end, t, e, k)) <==> Endless(base, end, t, e)
  {
    hide Laid, Paged, Rounds, Endless;
    if Endless(base, end, t, e) {
      forall k: nat ensures OnAfter(base, end, t, e, k) { RunsAwayGoesOn(base, end, t, e, k); }
    } else {
      var k := e.size / PAGE + 1;
      if OnAfter(base, end, t, e, k) { RoundsBound(base, end, t, e, k); }
      assert !OnAfter(base, end, t, e, k);
    }
  }

  /** For a range of unmapped pages with room for the tables: exactly if it runs away. */
  lemma UnusedNeverEnds(base: nat, end: nat, t: Tables, e: MemorySection)
    requires Good(base, end, t) && e.domain < 16
    requires Unused(e, FramesOf(base, t)) && t.top + TABLE_BYTES * SlotsOf(e, 0) <= end
    ensures (forall k: nat :: OnAfter(base, end, t, e, k)) <==> RunsAway(e)
  {
    hide Laid, Paged, OnAfter, FramesOf;
    NeverEndsExactly(base, end, t, e);
    if RunsAway(e) {
      UnusedHead(base, end, t, e);
    }
  }

  lemma UnusedHead(base: nat, end: nat, t: Tables, e: MemorySection)
    requires Good(base, end, t) && RunsAway(e)
    requires Unused(e, FramesOf(base, t)) && t.top + TABLE_BYTES * SlotsOf(e, 0) <= end
    ensures HeadFree(base, end, t, e)
  {
    hide Laid, Paged, FramesOf, HeadPages;
    var h := HeadPages(e);
    HeadInside(e);
    HeadWithin(e, h);
    assert SlotsOf(e, 0) >= 1;
    forall n: nat | e.virtual / PAGE <= n < e.virtual / PAGE + h && n < PAGES
      ensures FramesOf(base, t)[n].Unmapped?
    {
      assert Offset(e, n) == n - e.virtual / PAGE < h <= e.size / PAGE;
    }
  }

  const FIRST_MEGABYTE_LESS_ONE := MemorySection(0, 0, SECTION - 1, 0, 0, false)

  /** A range for which mapping never ends, whatever the tables: the first megabyte less one byte. */
  lemma RunsAwayExample(base: nat, end: nat, t: Tables, k: nat)
    requires Good(base, end, t)
    ensures RunsAway(FIRST_MEGABYTE_LESS_ONE) && GoesOn(Rounds(base, end, t, FIRST_MEGABYTE_LESS_ONE, k))
  {
    hide Laid, Paged, Rounds;
    RunsAwayGoesOn(base, end, t, FIRST_MEGABYTE_LESS_ONE, k);
  }
}
