/** Mapping a whole range, round by round: what is mapped, when there is room, and when it ends. */
module PageRanges {
  import opened Arithmetic
  import opened PageTables

  /** What is left of a range after d pages. */
  ghost predicate Reached(e: MemorySection, m: MemorySection, d: nat) {
    d * PAGE <= e.size && m == After(e, d)
  }

  lemma ReachedNothing(e: MemorySection)
    ensures Reached(e, e, 0)
  {
  }

  /** A page more or less, in 32 bits, leaves the place in the page. */
  lemma SamePlace(x: nat, d: nat)
    ensures (x + d * PAGE) % WORD_LIMIT % PAGE == x % PAGE
    ensures (x + d * PAGE) % WORD_LIMIT % SECTION == (x + d * PAGE) % SECTION
  {
    var y := x + d * PAGE;
    var q, z := y / WORD_LIMIT, y % WORD_LIMIT;
    SameRest(q, z);
    Quotient(y, PAGE, x / PAGE + d, x % PAGE);
  }

  lemma SameRest(q: nat, z: Word)
    ensures (q * WORD_LIMIT + z) % SECTION == z % SECTION && (q * WORD_LIMIT + z) % PAGE == z % PAGE
  {
    Quotient(q * WORD_LIMIT + z, SECTION, q * SLOTS + z / SECTION, z % SECTION);
    Quotient(q * WORD_LIMIT + z, PAGE, q * PAGES + z / PAGE, z % PAGE);
  }

  lemma ReachedAligned(e: MemorySection, m: MemorySection, d: nat)
    requires Reached(e, m, d)
    ensures m.domain == e.domain && m.access == e.access && m.cached == e.cached && m.size == e.size - d * PAGE && m.size % PAGE == e.size % PAGE
    ensures Aligned(m) <==> Aligned(e)
    ensures m.virtual % SECTION == (e.virtual + d * PAGE) % SECTION && m.physical % SECTION == (e.physical + d * PAGE) % SECTION
    ensures d <= e.size / PAGE < PAGES
  {
    SamePlace(e.virtual, d);
    SamePlace(e.physical, d);
    LessPages(e.size, d);
  }

  lemma LessPages(x: Word, d: nat)
    requires d * PAGE <= x
    ensures (x - d * PAGE) % WORD_LIMIT == x - d * PAGE && (x - d * PAGE) % PAGE == x % PAGE && d <= x / PAGE < PAGES
  {
    Quotient(x - d * PAGE, PAGE, x / PAGE - d, x % PAGE);
  }

  lemma ReachedAfter(e: MemorySection, m: MemorySection, d: nat, k: nat)
    requires Reached(e, m, d) && k * PAGE <= m.size
    ensures Reached(e, After(m, k), d + k)
  {
    hide SlotsOf;
    Further(e.virtual, m.virtual, d, k);
    Further(e.physical, m.physical, d, k);
    Shorter(e.size, m.size, d, k);
  }

  lemma Further(x: Word, y: Word, d: nat, k: nat)
    requires y == (x + d * PAGE) % WORD_LIMIT
    ensures (y + k * PAGE) % WORD_LIMIT == (x + (d + k) * PAGE) % WORD_LIMIT
  {
    assert (d + k) * PAGE == d * PAGE + k * PAGE;
    Wraps(x, d * PAGE, k * PAGE);
  }

  lemma Shorter(x: Word, y: Word, d: nat, k: nat)
    requires d * PAGE <= x && y == x - d * PAGE && k * PAGE <= y
    ensures (y - k * PAGE) % WORD_LIMIT == x - (d + k) * PAGE && (d + k) * PAGE <= x
  {
    assert (d + k) * PAGE == d * PAGE + k * PAGE;
  }

  lemma Wraps(x: nat, a: nat, b: nat)
    ensures ((x + a) % WORD_LIMIT + b) % WORD_LIMIT == (x + (a + b)) % WORD_LIMIT
  {
  }

  lemma ShiftedNothing(e: MemorySection, frames: seq<Frame>)
    requires |frames| == PAGES
    ensures Shifted(e, frames, frames, 0)
  {
  }

  /** The first page of what is left. */
  lemma ReachedPage(e: MemorySection, m: MemorySection, d: nat)
    requires Reached(e, m, d) && Aligned(e)
    ensures m.access == e.access && m.cached == e.cached
    ensures m.virtual / PAGE == (e.virtual / PAGE + d) % PAGES && m.physical / PAGE == (e.physical / PAGE + d) % PAGES
  {
    PageWraps(e.virtual, d);
    PageWraps(e.physical, d);
  }

  lemma PageWraps(x: nat, d: nat)
    requires x % PAGE == 0
    ensures (x + d * PAGE) % WORD_LIMIT / PAGE == (x / PAGE + d) % PAGES
  {
    var n := x / PAGE + d;
    assert x + d * PAGE == n * PAGE;
    assert n == n / PAGES * PAGES + n % PAGES;
    assert n * PAGE == n / PAGES * WORD_LIMIT + n % PAGES * PAGE;
    Quotient(n * PAGE, WORD_LIMIT, n / PAGES, n % PAGES * PAGE);
  }

  lemma ShiftedMore(e: MemorySection, m: MemorySection, was: seq<Frame>, now: seq<Frame>, next: seq<Frame>, d: nat, k: nat)
    requires |was| == |now| == |next| == PAGES && Shifted(e, was, now, d) && Shifted(m, now, next, k)
    requires Reached(e, m, d) && Aligned(e) && d + k <= PAGES
    ensures Shifted(e, was, next, d + k)
  {
    hide Reached, Offset;
    ReachedPage(e, m, d);
    forall n: nat | n < PAGES
      ensures next[n] == if Offset(e, n) < d + k then Mapped((e.physical / PAGE + Offset(e, n)) % PAGES, e.access % 4, e.cached) else was[n]
    {
      FurtherOffset(e, m, d, n);
    }
  }

  /** Page n, as counted from what is left of the range. */
  lemma FurtherOffset(e: MemorySection, m: MemorySection, d: nat, n: nat)
    requires m.virtual / PAGE == (e.virtual / PAGE + d) % PAGES && m.physical / PAGE == (e.physical / PAGE + d) % PAGES
    requires d <= PAGES && n < PAGES
    ensures Offset(e, n) < d && d < PAGES ==> Offset(m, n) == Offset(e, n) - d + PAGES
    ensures Offset(e, n) >= d ==>
              Offset(m, n) == Offset(e, n) - d && (m.physical / PAGE + Offset(m, n)) % PAGES == (e.physical / PAGE + Offset(e, n)) % PAGES
    ensures Offset(e, n) < PAGES
  {
    OffsetFurther(e.virtual / PAGE, e.physical / PAGE, d, n);
  }

  lemma OffsetFurther(v: nat, p: nat, d: nat, n: nat)
    requires v < PAGES && p < PAGES && d <= PAGES && n < PAGES
    ensures var o, o' := (n + PAGES - v) % PAGES, (n + PAGES - (v + d) % PAGES) % PAGES;
            && (o < d && d < PAGES ==> o' == o - d + PAGES)
            && (o >= d ==> o' == o - d && ((p + d) % PAGES + o') % PAGES == (p + o) % PAGES)
  {
    ghost var o, w, q := (n + PAGES - v) % PAGES, (v + d) % PAGES, (p + d) % PAGES;
    OnceAround(n + PAGES - v);
    OnceAround(v + d);
    OnceAround(n + PAGES - w);
    OnceAround(p + d);
    OnceAround(p + o);
    if o >= d { OnceAround(q + (o - d)); }
  }

  lemma OnceAround(x: nat)
    requires x < 2 * PAGES
    ensures x % PAGES == if x < PAGES then x else x - PAGES
  {
  }

  /** Once d pages of a range are mapped, an address in them translates to the base plus its offset,
      round the end of both address spaces, and every other address as before. */
  lemma Translates(e: MemorySection, was: seq<Frame>, now: seq<Frame>, d: nat, v: Word)
    requires |was| == |now| == PAGES && Shifted(e, was, now, d) && Aligned(e)
    ensures v / PAGE < PAGES
    ensures (v + WORD_LIMIT - e.virtual) % WORD_LIMIT < d * PAGE ==>
              now[v / PAGE].Mapped? && now[v / PAGE].access == e.access % 4 && now[v / PAGE].cached == e.cached
    ensures var offset := (v + WORD_LIMIT - e.virtual) % WORD_LIMIT;
            Translated(now[v / PAGE], v) == if offset < d * PAGE then (e.physical + offset) % WORD_LIMIT else Translated(was[v / PAGE], v)
  {
    SlotOfPage(v);
    OffsetOfAddress(e, v);
    PageOfSum(e.physical / PAGE, Offset(e, v / PAGE), v % PAGE);
    assert e.physical == e.physical / PAGE * PAGE;
  }

  lemma OffsetOfAddress(e: MemorySection, v: Word)
    requires e.virtual % PAGE == 0
    ensures (v + WORD_LIMIT - e.virtual) % WORD_LIMIT == Offset(e, v / PAGE) * PAGE + v % PAGE
  {
    var n, b, r := v / PAGE, e.virtual / PAGE, v % PAGE;
    PageOfSum(0, n + PAGES - b, r);
    assert v + WORD_LIMIT - e.virtual == (n + PAGES - b) * PAGE + r;
  }

  lemma PageOfSum(p: nat, k: nat, r: nat)
    requires r < PAGE
    ensures (p * PAGE + (k * PAGE + r)) % WORD_LIMIT == (p + k) % PAGES * PAGE + r
  {
    var n := p + k;
    assert n == n / PAGES * PAGES + n % PAGES;
    assert p * PAGE + (k * PAGE + r) == n / PAGES * WORD_LIMIT + (n % PAGES * PAGE + r);
    Quotient(p * PAGE + (k * PAGE + r), WORD_LIMIT, n / PAGES, n % PAGES * PAGE + r);
  }

  /** Page n belongs to the range. */
  predicate InRange(e: MemorySection, n: nat) { Offset(e, n) < e.size / PAGE }

  ghost predicate Unused(e: MemorySection, frames: seq<Frame>)
    requires |frames| == PAGES
  {
    forall n: nat :: n < PAGES && InRange(e, n) ==> frames[n].Unmapped?
  }

  /** A page of an unused range still to come is not mapped. */
  lemma PageFree(m: MemorySection, was: seq<Frame>, now: seq<Frame>, e: MemorySection, d: nat)
    requires |was| == |now| == PAGES && Unused(e, was) && Shifted(e, was, now, d)
    requires Aligned(e) && Reached(e, m, d) && m.size >= PAGE
    ensures m.virtual / PAGE < PAGES && now[m.virtual / PAGE].Unmapped?
  {
    hide Reached;
    ReachedAligned(e, m, d);
    ReachedPage(e, m, d);
    LessPages(e.size, d + 1);
    OffsetOf(e, d);
  }

  lemma OffsetOf(e: MemorySection, d: nat)
    requires d < PAGES
    ensures Offset(e, (e.virtual / PAGE + d) % PAGES) == d
  {
  }

  // ---------------------------------------------------------------- room for the tables

  /** The number of megabytes the range touches from its page d on. */
  function SlotsOf(e: MemorySection, d: nat): nat {
    if e.size <= d * PAGE then 0 else (e.virtual + e.size - 1) / SECTION - (e.virtual + d * PAGE) / SECTION + 1
  }

  /** An aligned range of unmapped pages, with memory for every table it may need. */
  ghost predicate Fits(e: MemorySection, frames: seq<Frame>, heap: nat, end: nat)
    requires |frames| == PAGES
  {
    e.size % PAGE == 0 && Aligned(e) && Unused(e, frames) && heap + TABLE_BYTES * SlotsOf(e, 0) <= end
  }

  /** In other words. */
  lemma FitsIs(e: MemorySection, frames: seq<Frame>, heap: nat, end: nat)
    requires |frames| == 0x10_0000
    ensures Fits(e, frames, heap, end) <==>
            && e.virtual % 0x1000 == e.physical % 0x1000 == e.size % 0x1000 == 0
            && (forall n: nat :: n < 0x10_0000 && (n + 0x10_0000 - e.virtual / 0x1000) % 0x10_0000 < e.size / 0x1000 ==> frames[n].Unmapped?)
            && heap + 0x400 * (if e.size == 0 then 0 else (e.virtual + e.size - 1) / 0x10_0000 - e.virtual / 0x10_0000 + 1) <= end
  {
  }

  predicate RoomLeft(e: MemorySection, d: nat, heap: nat, end: nat, started: bool) {
    heap + TABLE_BYTES * SlotsOf(e, d) <= end + if started then TABLE_BYTES else 0
  }

  lemma StartRoom(e: MemorySection, heap: nat, end: nat, started: bool)
    ensures heap + TABLE_BYTES * SlotsOf(e, 0) <= end ==> RoomLeft(e, 0, heap, end, started)
  {
  }

  /** A page that starts a megabyte takes a table, and there was room for it. */
  lemma RoomAfter(e: MemorySection, m: MemorySection, d: nat, heap: nat, end: nat, started: bool)
    requires Reached(e, m, d) && m.size > 0 && RoomLeft(e, d, heap, end, started)
    ensures !started ==> heap + TABLE_BYTES <= end
    ensures m.virtual % SECTION == 0 && m.size >= SECTION ==>
              RoomLeft(e, d + TABLE_WORDS, heap, end, true) && RoomLeft(e, d + TABLE_WORDS, heap, end, false)
    ensures m.size >= PAGE ==>
              var next := heap + if started then 0 else TABLE_BYTES;
              && RoomLeft(e, d + 1, next, end, true)
              && (m.size == PAGE || After(m, 1).virtual / SECTION != m.virtual / SECTION ==> RoomLeft(e, d + 1, next, end, false))
  {
    NextSlots(e, m, d);
    hide SlotsOf, Reached;
  }

  /** What a step leaves of the megabytes to come. */
  lemma NextSlots(e: MemorySection, m: MemorySection, d: nat)
    requires Reached(e, m, d) && m.size > 0
    ensures SlotsOf(e, d) >= 1
    ensures m.virtual % SECTION == 0 && m.size >= SECTION ==> SlotsOf(e, d + TABLE_WORDS) == SlotsOf(e, d) - 1
    ensures m.size >= PAGE ==>
              SlotsOf(e, d + 1) == if m.size == PAGE then 0
                                   else if After(m, 1).virtual / SECTION != m.virtual / SECTION then SlotsOf(e, d) - 1
                                   else SlotsOf(e, d)
  {
    hide Aligned;
    ReachedAligned(e, m, d);
    var x := e.virtual + d * PAGE;
    SlotWraps(x);
    SlotWraps(x + PAGE);
    Wraps(e.virtual, d * PAGE, PAGE);
    NextSlot(x);
    assert e.virtual + (d + 1) * PAGE == x + PAGE && e.virtual + (d + TABLE_WORDS) * PAGE == x + SECTION;
  }

  lemma SlotWraps(x: nat)
    ensures x % WORD_LIMIT / SECTION == x / SECTION % SLOTS
  {
    var q, s := x / WORD_LIMIT, x / SECTION;
    assert x == s * SECTION + x % SECTION && s == s / SLOTS * SLOTS + s % SLOTS;
    assert s * SECTION == s / SLOTS * WORD_LIMIT + s % SLOTS * SECTION;
    Quotient(x, WORD_LIMIT, s / SLOTS, s % SLOTS * SECTION + x % SECTION);
    Quotient(s % SLOTS * SECTION + x % SECTION, SECTION, s % SLOTS, x % SECTION);
  }

  lemma NextSlot(x: nat)
    ensures (x + PAGE) / SECTION == x / SECTION || (x + PAGE) / SECTION == x / SECTION + 1
    ensures (x + PAGE) / SECTION % SLOTS == x / SECTION % SLOTS <==> (x + PAGE) / SECTION == x / SECTION
  {
  }

  // ---------------------------------------------------------------- the end of the loop

  /** The remaining size comes to 0xFFFFF at a megabyte boundary, where the code takes a whole
      megabyte off it. */
  predicate RunsAway(e: MemorySection) {
    && Aligned(e)
    && e.size >= SECTION - 1
    && e.size % PAGE == PAGE - 1
    && (e.virtual + (e.size - (SECTION - 1))) % SECTION == 0
    && (e.physical + (e.size - (SECTION - 1))) % SECTION == 0
  }

  /** The pages of the range before its first whole megabyte. */
  function HeadPages(e: MemorySection): nat { (TABLE_WORDS - e.virtual / PAGE % TABLE_WORDS) % TABLE_WORDS }

  /** The first j pages of the range, all in one megabyte, are not mapped, and the megabyte has a
      second-level table or there is room for one. */
  ghost predicate HeadOpen(base: nat, end: nat, t: Tables, e: MemorySection, j: nat)
    requires |t.l1| == SLOTS
  {
    j > 0 ==>
      && (t.l1[e.virtual / SECTION] != 0 || t.top + TABLE_BYTES <= end)
      && forall n: nat :: e.virtual / PAGE <= n < e.virtual / PAGE + j && n < PAGES ==> FramesOf(base, t)[n].Unmapped?
  }

  /** Nothing is in the way of the pages before the first whole megabyte. */
  ghost predicate HeadFree(base: nat, end: nat, t: Tables, e: MemorySection)
    requires |t.l1| == SLOTS
  {
    HeadOpen(base, end, t, e, HeadPages(e))
  }

  ghost predicate Endless(base: nat, end: nat, t: Tables, e: MemorySection)
    requires |t.l1| == SLOTS
  {
    RunsAway(e) && HeadFree(base, end, t, e)
  }

  lemma HeadWithin(e: MemorySection, j: nat)
    requires Aligned(e) && j <= HeadPages(e)
    ensures e.virtual / PAGE + j <= PAGES
    ensures if j == HeadPages(e) then (e.virtual + j * PAGE) % SECTION == 0
            else (e.virtual + j * PAGE) % SECTION != 0 && e.virtual + j * PAGE < WORD_LIMIT
                 && (e.virtual + j * PAGE) / SECTION == e.virtual / SECTION && (e.virtual + j * PAGE) / PAGE == e.virtual / PAGE + j
  {
    var n := e.virtual / PAGE;
    var s, r := n / TABLE_WORDS, n % TABLE_WORDS;
    assert e.virtual == s * SECTION + r * PAGE;
    PlaceInMegabyte(s, r);
    if r + j < TABLE_WORDS { PlaceInMegabyte(s, r + j); } else { PlaceInMegabyte(s + 1, 0); }
  }

  lemma PlaceInMegabyte(s: nat, r: nat)
    requires r < TABLE_WORDS
    ensures var x := s * SECTION + r * PAGE;
            x / SECTION == s && x % SECTION == r * PAGE && x / PAGE == s * TABLE_WORDS + r
  {
    var x := s * SECTION + r * PAGE;
    Quotient(x, SECTION, s, r * PAGE);
    Quotient(x, PAGE, s * TABLE_WORDS + r, 0);
  }

  /** Where the head of a range that runs away ends. */
  lemma HeadInside(e: MemorySection)
    requires RunsAway(e)
    ensures HeadPages(e) * PAGE <= e.size - (SECTION - 1)
    ensures (e.size - HeadPages(e) * PAGE) % SECTION == SECTION - 1
    ensures (e.physical + HeadPages(e) * PAGE) % SECTION == 0
  {
    var h := HeadPages(e);
    HeadWithin(e, h);
    var n := (e.size - (SECTION - 1)) / PAGE;
    assert e.size - (SECTION - 1) == n * PAGE;
    MegabytesApart(e.virtual, h, n);
    var q := (n - h) / TABLE_WORDS;
    assert n == h + q * TABLE_WORDS;
    assert e.size - h * PAGE == q * SECTION + (SECTION - 1);
    Quotient(e.size - h * PAGE, SECTION, q, SECTION - 1);
    var p := (e.physical + n * PAGE) / SECTION;
    assert e.physical + h * PAGE == (p - q) * SECTION;
    MultipleOf(e.physical + h * PAGE, p - q);
  }

  lemma MultipleOf(x: nat, q: int)
    requires x == q * SECTION
    ensures x % SECTION == 0
  {
  }

  lemma MegabytesApart(v: nat, h: nat, n: nat)
    requires v % PAGE == 0 && h < TABLE_WORDS && (v + h * PAGE) % SECTION == 0 && (v + n * PAGE) % SECTION == 0
    ensures n >= h && (n - h) % TABLE_WORDS == 0
  {
    var a, b := (v + h * PAGE) / SECTION, (v + n * PAGE) / SECTION;
    assert (n - h) * PAGE == (b - a) * SECTION;
    assert n - h == (b - a) * TABLE_WORDS;
  }
}
