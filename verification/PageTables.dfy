/** Building the two-level page tables of the MMU, and looking addresses up in them. */
module PageTables {
  import opened Arithmetic

  const WORD_LIMIT := 0x1_0000_0000

  type Word = x: int | 0 <= x < 0x1_0000_0000

  const PAGE := 0x1000
  const SECTION := 0x10_0000
  const SLOTS := 4096          // first-level entries, one for each megabyte
  const TABLE_WORDS := 256     // second-level entries, one for each page
  const TABLE_BYTES := 0x400
  const PAGES := 0x10_0000       // pages of the address space

  const SECTION_PAGE := 0x12
  const COURSE_PAGE := 0x11
  const COURSE_SECTION := 2
  const CACHED := 0xC

  datatype MemorySection = MemorySection(physical: Word, virtual: Word, size: Word, domain: Word, access: Word, cached: bool)

  datatype Answer = Success | Invalid | NoMemory

  // ---------------------------------------------------------------- entries

  /** The bits of a first-level entry that tell its kind: e & 0x13. */
  function Kind(e: Word): nat { e % 4 + 16 * ((e / 16) % 2) }

  function Cache(cached: bool): nat { if cached then CACHED else 0 }

  lemma RoundedDown(x: Word, n: nat, k: nat)
    requires n > 0 && k * n == WORD_LIMIT
    ensures 0 <= x / n * n <= WORD_LIMIT - n
  {
    var q := x / n;
    assert x == n * q + x % n && n * q == q * n;
    if q < k { Spread(q, k, n); } else { Spread(k - 1, q, n); }
  }

  function SectionEntry(physical: Word, access: Word, domain: Word, cached: bool): (e: Word)
    requires domain < 16
  {
    RoundedDown(physical, SECTION, SLOTS);
    physical / SECTION * SECTION + (access % 4) * 0x400 + domain * 0x20 + SECTION_PAGE + Cache(cached)
  }

  function CourseEntry(table: Word, domain: Word): (e: Word)
    requires domain < 16
  {
    RoundedDown(table, TABLE_BYTES, 0x40_0000);
    table / TABLE_BYTES * TABLE_BYTES + domain * 0x20 + COURSE_PAGE
  }

  /** A page has its access rights four times, once for each quarter. */
  function PageEntry(physical: Word, access: Word, cached: bool): (e: Word) {
    RoundedDown(physical, PAGE, 0x10_0000);
    physical / PAGE * PAGE + (access % 4) * 0x550 + COURSE_SECTION + Cache(cached)
  }

  lemma SectionDecodes(physical: Word, access: Word, domain: Word, cached: bool)
    requires domain < 16
    ensures var e := SectionEntry(physical, access, domain, cached);
            && Kind(e) == SECTION_PAGE && e / SECTION == physical / SECTION
            && e / 0x400 % 4 == access % 4 && e / 0x20 % 16 == domain && e / 4 % 4 == (if cached then 3 else 0)
  {
    var q, a, c := physical / SECTION, access % 4, if cached then 3 else 0;
    var low := a * 0x400 + domain * 0x20 + SECTION_PAGE + Cache(cached);
    Quotient(q * SECTION + low, SECTION, q, low);
    Quotient(q * SECTION + low, 4, q * 0x4_0000 + a * 0x100 + domain * 8 + 4 + c, 2);
    Quotient(q * SECTION + low, 16, q * 0x1_0000 + a * 0x40 + domain * 2 + 1, 2 + Cache(cached));
    Quotient(q * 0x1_0000 + a * 0x40 + domain * 2 + 1, 2, q * 0x8000 + a * 0x20 + domain, 1);
    Quotient(q * SECTION + low, 0x400, q * 0x400 + a, low - a * 0x400);
    Quotient(q * 0x400 + a, 4, q * 0x100, a);
    Quotient(q * SECTION + low, 0x20, q * 0x8000 + a * 0x20 + domain, SECTION_PAGE + Cache(cached));
    Quotient(q * 0x8000 + a * 0x20 + domain, 16, q * 0x800 + a * 2, domain);
    Quotient(q * 0x4_0000 + a * 0x100 + domain * 8 + 4 + c, 4, q * 0x1_0000 + a * 0x40 + domain * 2 + 1, c);
  }

  lemma CourseDecodes(table: Word, domain: Word)
    requires domain < 16
    ensures var e := CourseEntry(table, domain);
            Kind(e) == COURSE_PAGE && e / TABLE_BYTES == table / TABLE_BYTES && e / 0x20 % 16 == domain
  {
    var q := table / TABLE_BYTES;
    var low := domain * 0x20 + COURSE_PAGE;
    Quotient(q * TABLE_BYTES + low, TABLE_BYTES, q, low);
    Quotient(q * TABLE_BYTES + low, 4, q * 0x100 + domain * 8 + 4, 1);
    Quotient(q * TABLE_BYTES + low, 16, q * 0x40 + domain * 2 + 1, 1);
    Quotient(q * 0x40 + domain * 2 + 1, 2, q * 0x20 + domain, 1);
    Quotient(q * TABLE_BYTES + low, 0x20, q * 0x20 + domain, COURSE_PAGE);
    Quotient(q * 0x20 + domain, 16, q * 2, domain);
  }

  lemma PageDecodes(physical: Word, access: Word, cached: bool)
    ensures var e := PageEntry(physical, access, cached);
            && e % 4 == COURSE_SECTION && e / PAGE == physical / PAGE && e != 0 && e / 4 % 4 == (if cached then 3 else 0)
            && e / 0x10 % 4 == e / 0x40 % 4 == e / 0x100 % 4 == e / 0x400 % 4 == access % 4
  {
    PageAccess(physical / PAGE, access % 4, if cached then 3 else 0);
    var q, a, c := physical / PAGE, access % 4, if cached then 3 else 0;
    var low := a * 0x550 + COURSE_SECTION + Cache(cached);
    assert low == 4 * (a * 0x154 + c) + 2 && low < PAGE;
    Quotient(q * PAGE + low, PAGE, q, low);
    Quotient(q * PAGE + low, 4, q * 0x400 + a * 0x154 + c, 2);
    Quotient(q * 0x400 + a * 0x154 + c, 4, q * 0x100 + a * 0x55, c);
  }

  /** The four access fields of a page entry. */
  lemma PageAccess(q: nat, a: nat, c: nat)
    requires a < 4 && c < 4
    ensures var e := q * PAGE + a * 0x550 + COURSE_SECTION + 4 * c;
            e / 0x10 % 4 == e / 0x40 % 4 == e / 0x100 % 4 == e / 0x400 % 4 == a
  {
    var e := q * PAGE + a * 0x550 + COURSE_SECTION + 4 * c;
    Quotient(e, 0x10, q * 0x100 + a * 0x55, COURSE_SECTION + 4 * c);
    Quotient(q * 0x100 + a * 0x55, 4, q * 0x40 + a * 0x15, a);
    Quotient(e, 0x40, q * 0x40 + a * 0x15, a * 0x10 + COURSE_SECTION + 4 * c);
    Quotient(q * 0x40 + a * 0x15, 4, q * 0x10 + a * 5, a);
    Quotient(e, 0x100, q * 0x10 + a * 5, a * 0x50 + COURSE_SECTION + 4 * c);
    Quotient(q * 0x10 + a * 5, 4, q * 4 + a, a);
    Quotient(e, 0x400, q * 4 + a, a * 0x150 + COURSE_SECTION + 4 * c);
    Quotient(q * 4 + a, 4, q, a);
  }

  /** The examples the code gives: 0xFFF00000 as a cached section, and 0x13A70000 by a page of a table. */
  lemma EntryExamples()
    ensures SectionEntry(0xFFF0_0000, 1, 0xF, true) == 0xFFF0_05FE
    ensures CourseEntry(0x1385_4000, 0xF) == 0x1385_41F1
    ensures PageEntry(0x13A7_0000, 1, true) == 0x13A7_055E && PageEntry(0x13A7_0000, 1, false) == 0x13A7_0552
  {
  }

  // ---------------------------------------------------------------- what the tables mean

  /** What a page is mapped to, with its access rights and whether it is cached. */
  datatype Frame = Unmapped | Mapped(number: nat, access: nat, cached: bool)

  /** Both cache bits are set. */
  predicate IsCached(e: Word) { e / 4 % 4 == 3 }

  /** Entry k of the second-level table at an address of the table area. */
  function EntryAt(area: seq<Word>, base: nat, table: nat, k: nat): Word {
    if base <= table && (table - base) / 4 + k < |area| then area[(table - base) / 4 + k] else 0
  }

  /** The second-level table a first-level entry points to. */
  function TableOf(e: Word): nat { e / TABLE_BYTES * TABLE_BYTES }

  /** Where page n of the address space lies. */
  function FrameOf(l1: seq<Word>, area: seq<Word>, base: nat, n: nat): Frame
    requires |l1| == SLOTS && n < PAGES
  {
    var e := l1[n / TABLE_WORDS];
    if Kind(e) == SECTION_PAGE then Mapped(e / SECTION * TABLE_WORDS + n % TABLE_WORDS, e / 0x400 % 4, IsCached(e))
    else if Kind(e) == COURSE_PAGE then
      var page := EntryAt(area, base, TableOf(e), n % TABLE_WORDS);
      if page % 4 == COURSE_SECTION then Mapped(page / PAGE, page / 0x10 % 4, IsCached(page)) else Unmapped
    else Unmapped
  }

  /** The walk of the MMU: the first-level entry of the megabyte, with bits 4, 1 and 0 as 1, 1, 0 for a
      section and 1, 0, 1 for a table, and there the word of the page, with bits 1 and 0 as 1, 0. */
  lemma FrameIs(l1: seq<Word>, area: seq<Word>, base: nat, n: nat)
    requires |l1| == 4096 && n < 0x10_0000
    ensures var e := l1[n / 256];
            var table := e / 0x400 * 0x400;
            && (e / 16 % 2 == 1 && e % 4 == 2 ==>
                  FrameOf(l1, area, base, n) == Mapped(e / 0x10_0000 * 256 + n % 256, e / 0x400 % 4, e / 4 % 4 == 3))
            && (e / 16 % 2 == 1 && e % 4 == 1 && base <= table && (table - base) / 4 + n % 256 < |area| ==>
                  var page := area[(table - base) / 4 + n % 256];
                  FrameOf(l1, area, base, n) == if page % 4 == 2 then Mapped(page / 0x1000, page / 0x10 % 4, page / 4 % 4 == 3) else Unmapped)
            && (e / 16 % 2 == 0 || e % 4 == 0 || e % 4 == 3 ==> FrameOf(l1, area, base, n) == Unmapped)
  {
  }

  /** The second view of the internal memory at the top of the address space. */
  function Alias(physical: Word): Word {
    if physical < 0xFFFE_0000 then physical
    else (physical + if physical < 0xFFFF_0000 then 0x0D43_0000 else 0x0D41_0000) % WORD_LIMIT
  }

  /** The 64 kilobytes at the top of the address space are 0x0D400000, and those below 0x0D410000. */
  lemma AliasIs(physical: Word)
    ensures Alias(physical) == if physical >= 0xFFFF_0000 then 0x0D40_0000 + (physical - 0xFFFF_0000)
                               else if physical >= 0xFFFE_0000 then 0x0D41_0000 + (physical - 0xFFFE_0000)
                               else physical
  {
  }

  /** What an address translates to: 0 if it is not mapped. */
  function Translated(frame: Frame, virtual: Word): nat {
    match frame
    case Unmapped => 0
    case Mapped(number, _, _) => number * PAGE + virtual % PAGE
  }

  /** Every entry is empty, a section, or points to a table of its own below top. */
  ghost predicate Laid(l1: seq<Word>, base: nat, top: nat, limit: nat) {
    && (forall i :: 0 <= i < |l1| ==> l1[i] == 0 || Kind(l1[i]) == SECTION_PAGE || Kind(l1[i]) == COURSE_PAGE)
    && (forall i :: 0 <= i < |l1| && Kind(l1[i]) == COURSE_PAGE ==>
          base <= TableOf(l1[i]) && TableOf(l1[i]) + TABLE_BYTES <= top && TableOf(l1[i]) + TABLE_BYTES <= limit)
    && (forall i, j :: 0 <= i < j < |l1| && Kind(l1[i]) == COURSE_PAGE && Kind(l1[j]) == COURSE_PAGE ==> TableOf(l1[i]) != TableOf(l1[j]))
  }

  /** Second-level entries are empty or pages. */
  ghost predicate Paged(l1: seq<Word>, area: seq<Word>, base: nat) {
    forall i, k :: 0 <= i < |l1| && 0 <= k < TABLE_WORDS && Kind(l1[i]) == COURSE_PAGE ==>
      EntryAt(area, base, TableOf(l1[i]), k) == 0 || EntryAt(area, base, TableOf(l1[i]), k) % 4 == COURSE_SECTION
  }

  /** Different entries of different tables are different words. */
  lemma SlotsDistinct(base: nat, t: nat, k: nat, u: nat, l: nat)
    requires base % TABLE_BYTES == 0 && t % TABLE_BYTES == 0 && u % TABLE_BYTES == 0 && base <= t && base <= u
    requires k < TABLE_WORDS && l < TABLE_WORDS
    ensures (t - base) / 4 + k == (u - base) / 4 + l ==> t == u && k == l
  {
    var a, b := (t - base) / TABLE_BYTES, (u - base) / TABLE_BYTES;
    assert t - base == a * TABLE_BYTES && u - base == b * TABLE_BYTES;
    Quotient(t - base, 4, a * TABLE_WORDS, 0);
    Quotient(u - base, 4, b * TABLE_WORDS, 0);
    if a < b { Spread(a, b, TABLE_WORDS); }
    if b < a { Spread(b, a, TABLE_WORDS); }
  }

  lemma TableAligned(e: Word)
    ensures TableOf(e) % TABLE_BYTES == 0 && TableOf(e) <= e
  {
    Quotient(TableOf(e), TABLE_BYTES, e / TABLE_BYTES, 0);
  }

  /** A table below top does not change when words from top on do. */
  lemma BelowTop(area: seq<Word>, area': seq<Word>, base: nat, top: nat, e: Word, k: nat)
    requires |area| == |area'| && base % TABLE_BYTES == 0 && top % TABLE_BYTES == 0 && base <= top && k < TABLE_WORDS
    requires base <= TableOf(e) && TableOf(e) + TABLE_BYTES <= top
    requires forall i :: 0 <= i < |area| && i < (top - base) / 4 ==> area'[i] == area[i]
    ensures EntryAt(area', base, TableOf(e), k) == EntryAt(area, base, TableOf(e), k)
  {
    TableAligned(e);
    hide TableOf;
    Apart(TableOf(e), base);
    Apart(top, base);
    WordsBelow(TableOf(e) - base, top - base);
  }

  lemma Apart(x: nat, y: nat)
    requires y <= x && x % TABLE_BYTES == 0 && y % TABLE_BYTES == 0
    ensures (x - y) % TABLE_BYTES == 0
  {
  }

  /** The words of a table that ends before y. */
  lemma WordsBelow(x: nat, y: nat)
    requires x % TABLE_BYTES == 0 && y % TABLE_BYTES == 0 && x + TABLE_BYTES <= y
    ensures x / 4 + TABLE_WORDS <= y / 4
  {
    Quotient(x, 4, x / TABLE_BYTES * TABLE_WORDS, 0);
    Quotient(y, 4, y / TABLE_BYTES * TABLE_WORDS, 0);
  }

  /** A new empty table changes nothing that is mapped. */
  lemma TableAdded(l1: seq<Word>, area: seq<Word>, area': seq<Word>, base: nat, top: nat, limit: nat, i: nat, e: Word)
    requires |l1| == SLOTS && i < SLOTS && l1[i] == 0 && |area| == |area'| && limit == base + 4 * |area|
    requires base % TABLE_BYTES == 0 && top % TABLE_BYTES == 0 && base <= top && top + TABLE_BYTES <= limit
    requires Laid(l1, base, top, limit) && Paged(l1, area, base)
    requires Kind(e) == COURSE_PAGE && TableOf(e) == top
    requires forall k :: 0 <= k < |area| ==> area'[k] == if (top - base) / 4 <= k < (top - base) / 4 + TABLE_WORDS then 0 else area[k]
    ensures Laid(l1[i := e], base, top + TABLE_BYTES, limit) && Paged(l1[i := e], area', base)
    ensures forall n: nat :: n < PAGES ==> FrameOf(l1[i := e], area', base, n) == FrameOf(l1, area, base, n)
    ensures forall k: nat :: k < TABLE_WORDS ==> EntryAt(area', base, top, k) == 0
  {
    hide Kind, TableOf;
    forall j: nat, k: nat | j < SLOTS && Kind(l1[j]) == COURSE_PAGE && k < TABLE_WORDS
      ensures EntryAt(area', base, TableOf(l1[j]), k) == EntryAt(area, base, TableOf(l1[j]), k)
    {
      BelowTop(area, area', base, top, l1[j], k);
    }
    forall n: nat | n < PAGES
      ensures FrameOf(l1[i := e], area', base, n) == FrameOf(l1, area, base, n)
    {
      EmptyKind();
    }
  }

  lemma EmptyKind()
    ensures Kind(0) == 0
  {
  }

  /** The place in a section is the place of the page in it and the place in the page. */
  lemma AddressParts(virtual: Word, q: nat)
    ensures q * SECTION + virtual % SECTION == (q * TABLE_WORDS + virtual / PAGE % TABLE_WORDS) * PAGE + virtual % PAGE
  {
    var n, o := virtual / PAGE, virtual % PAGE;
    var s, k := n / TABLE_WORDS, n % TABLE_WORDS;
    Quotient(virtual, SECTION, s, k * PAGE + o);
  }

  lemma SlotOfPage(virtual: Word)
    ensures virtual / PAGE / TABLE_WORDS == virtual / SECTION < SLOTS && virtual / PAGE < PAGES
  {
  }

  /** A page entry changes the frame of its page only. */
  lemma PageAdded(l1: seq<Word>, area: seq<Word>, area': seq<Word>, base: nat, top: nat, limit: nat, n: nat, page: Word)
    requires |l1| == SLOTS && n < PAGES && base % TABLE_BYTES == 0 && limit == base + 4 * |area|
    requires Laid(l1, base, top, limit) && Paged(l1, area, base)
    requires Kind(l1[n / TABLE_WORDS]) == COURSE_PAGE && page % 4 == COURSE_SECTION
    requires var w := (TableOf(l1[n / TABLE_WORDS]) - base) / 4 + n % TABLE_WORDS; w < |area| && area' == area[w := page]
    ensures Paged(l1, area', base)
    ensures forall j: nat :: j < PAGES ==>
              FrameOf(l1, area', base, j) == if j == n then Mapped(page / PAGE, page / 0x10 % 4, IsCached(page)) else FrameOf(l1, area, base, j)
  {
    hide Kind, TableOf;
    forall i: nat, k: nat | i < SLOTS && Kind(l1[i]) == COURSE_PAGE && k < TABLE_WORDS
      ensures EntryAt(area', base, TableOf(l1[i]), k) ==
              if i == n / TABLE_WORDS && k == n % TABLE_WORDS then page else EntryAt(area, base, TableOf(l1[i]), k)
    {
      TableAligned(l1[i]);
      TableAligned(l1[n / TABLE_WORDS]);
      SlotsDistinct(base, TableOf(l1[i]), k, TableOf(l1[n / TABLE_WORDS]), n % TABLE_WORDS);
    }
    forall j: nat | j < PAGES
      ensures FrameOf(l1, area', base, j) == if j == n then Mapped(page / PAGE, page / 0x10 % 4, IsCached(page)) else FrameOf(l1, area, base, j)
    {
      if j != n { PageParts(j, n); }
    }
  }

  lemma PageParts(j: nat, n: nat)
    requires j != n
    ensures j / TABLE_WORDS != n / TABLE_WORDS || j % TABLE_WORDS != n % TABLE_WORDS
  {
  }

  // ---------------------------------------------------------------- one round of mapping

  predicate Aligned(e: MemorySection) { e.virtual % PAGE == 0 && e.physical % PAGE == 0 }

  /** The first-level table, the words of the table area, and where its free part begins. */
  datatype Tables = Tables(l1: seq<Word>, area: seq<Word>, top: nat)

  /** Tables lie aligned and apart below top. */
  ghost predicate Good(base: nat, end: nat, t: Tables) {
    && |t.l1| == SLOTS
    && base % TABLE_BYTES == 0 && 0 < base
    && base <= end <= base + 4 * |t.area| < WORD_LIMIT
    && base <= t.top && t.top % TABLE_BYTES == 0
    && Laid(t.l1, base, t.top, base + 4 * |t.area|)
    && Paged(t.l1, t.area, base)
  }

  /** Where every page of the address space lies. */
  ghost function FramesOf(base: nat, t: Tables): (fs: seq<Frame>)
    requires |t.l1| == SLOTS
    ensures |fs| == PAGES
  {
    seq(PAGES, n requires 0 <= n < PAGES => FrameOf(t.l1, t.area, base, n))
  }

  /** What one round of the loop of MapMemory leaves: the answer, the tables, and the rest of the
      range, in 32-bit arithmetic. */
  datatype Round = Round(ret: Answer, tables: Tables, rest: MemorySection)

  /** What is left of a range after k pages of it. */
  function After(m: MemorySection, k: nat): MemorySection {
    m.(size := (m.size - k * PAGE) % WORD_LIMIT, virtual := (m.virtual + k * PAGE) % WORD_LIMIT,
       physical := (m.physical + k * PAGE) % WORD_LIMIT)
  }

  function TakeSection(t: Tables, m: MemorySection): (r: Round)
    requires |t.l1| == SLOTS && m.domain < 16
  {
    Round(Success, t.(l1 := t.l1[m.virtual / SECTION := SectionEntry(m.physical, m.access, m.domain, m.cached)]), After(m, TABLE_WORDS))
  }

  function Zeroed(area: seq<Word>, first: nat, count: nat): (r: seq<Word>)
    ensures |r| == |area|
  {
    seq(|area|, k requires 0 <= k < |area| => if first <= k < first + count then 0 else area[k])
  }

  /** Slot i given a second-level table of its own. */
  function WithTable(base: nat, t: Tables, i: nat, domain: Word): Tables
    requires i < |t.l1| && base <= t.top < WORD_LIMIT && domain < 16
  {
    Tables(t.l1[i := CourseEntry(t.top, domain)], Zeroed(t.area, (t.top - base) / 4, TABLE_WORDS), t.top + TABLE_BYTES)
  }

  function PutEntry(area: seq<Word>, base: nat, table: nat, k: nat, e: Word): seq<Word> {
    if base <= table && (table - base) / 4 + k < |area| then area[(table - base) / 4 + k := e] else area
  }

  function TakePage(base: nat, end: nat, t: Tables, m: MemorySection): Round
    requires |t.l1| == SLOTS && base <= t.top && end < WORD_LIMIT && m.domain < 16
  {
    var i := m.virtual / SECTION;
    if t.l1[i] == 0 && t.top + TABLE_BYTES > end then Round(NoMemory, t.(top := t.top + TABLE_BYTES), m)
    else
      var u := if t.l1[i] == 0 then WithTable(base, t, i, m.domain) else t;
      var k := m.virtual / PAGE % TABLE_WORDS;
      if Kind(u.l1[i]) != COURSE_PAGE || EntryAt(u.area, base, TableOf(u.l1[i]), k) != 0 then Round(Invalid, u, m)
      else Round(Success, u.(area := PutEntry(u.area, base, TableOf(u.l1[i]), k, PageEntry(m.physical, m.access, m.cached))), After(m, 1))
  }

  predicate WholeMegabyte(m: MemorySection) { m.virtual % SECTION == 0 && m.physical % SECTION == 0 && m.size >= SECTION - 1 }

  /** A megabyte, a page, or nothing. */
  function OneRound(base: nat, end: nat, t: Tables, m: MemorySection): (r: Round)
    requires |t.l1| == SLOTS && base <= t.top && end < WORD_LIMIT && m.domain < 16
    ensures |r.tables.l1| == SLOTS && base <= r.tables.top && r.rest.domain == m.domain
  {
    if WholeMegabyte(m) then TakeSection(t, m)
    else if !Aligned(m) || m.size < PAGE then Round(Invalid, t, m)
    else TakePage(base, end, t, m)
  }

  /** The loop of MapMemory after at most k rounds. */
  function Rounds(base: nat, end: nat, t: Tables, m: MemorySection, k: nat): (r: Round)
    requires |t.l1| == SLOTS && base <= t.top && end < WORD_LIMIT && m.domain < 16
    ensures |r.tables.l1| == SLOTS && base <= r.tables.top && r.rest.domain == m.domain
  {
    if k == 0 then Round(Success, t, m)
    else
      var r := Rounds(base, end, t, m, k - 1);
      if GoesOn(r) then OneRound(base, end, r.tables, r.rest) else r
  }

  predicate GoesOn(r: Round) { r.ret.Success? && r.rest.size > 0 }

  /** A page round succeeds exactly if the page is not mapped and its megabyte has a table or room
      for one; then it maps that page and no other, and otherwise none. */
  lemma PageRound(base: nat, end: nat, t: Tables, m: MemorySection)
    requires Good(base, end, t) && m.domain < 16
    ensures var r, n, i := TakePage(base, end, t, m), m.virtual / PAGE, m.virtual / SECTION;
            && Good(base, end, r.tables)
            && (r.ret.Success? <==> (t.l1[i] != 0 || t.top + TABLE_BYTES <= end) && FramesOf(base, t)[n].Unmapped?)
            && (r.ret.NoMemory? <==> t.l1[i] == 0 && t.top + TABLE_BYTES > end)
            && FramesOf(base, r.tables) == (if r.ret.Success? then FramesOf(base, t)[n := Mapped(m.physical / PAGE, m.access % 4, m.cached)] else FramesOf(base, t))
            && r.tables.top == t.top + (if t.l1[i] == 0 then TABLE_BYTES else 0)
            && (r.ret.Success? ==> r.tables.l1[i] != 0 && forall j :: 0 <= j < SLOTS && j != i ==> r.tables.l1[j] == t.l1[j])
  {
    hide Kind, PageEntry, CourseEntry, Laid, Paged, FrameOf;
    var n, i := m.virtual / PAGE, m.virtual / SECTION;
    SlotOfPage(m.virtual);
    if t.l1[i] == 0 && t.top + TABLE_BYTES <= end {
      NewTable(base, end, t, i, m.domain);
    }
    if t.l1[i] != 0 || t.top + TABLE_BYTES <= end {
      var u := if t.l1[i] == 0 then WithTable(base, t, i, m.domain) else t;
      EntryOfPage(base, end, u, n, i, m.physical, m.access, m.cached);
    } else {
      EmptyMegabyte(base, end, t, n);
    }
  }

  /** Empty tables. */
  lemma NothingMapped(base: nat, end: nat, t: Tables)
    requires |t.l1| == SLOTS && 0 < base && base % TABLE_BYTES == 0 && base <= end <= base + 4 * |t.area| < WORD_LIMIT && t.top == base
    requires forall i :: 0 <= i < SLOTS ==> t.l1[i] == 0
    ensures Good(base, end, t) && forall n :: 0 <= n < PAGES ==> FramesOf(base, t)[n] == Unmapped
  {
    EmptyKind();
    hide Kind;
  }

  /** No room for a table: the page is not mapped, and the memory asked for is gone. */
  lemma EmptyMegabyte(base: nat, end: nat, t: Tables, n: nat)
    requires Good(base, end, t) && n < PAGES && t.l1[n / TABLE_WORDS] == 0
    ensures Good(base, end, t.(top := t.top + TABLE_BYTES)) && FramesOf(base, t)[n].Unmapped?
    ensures FramesOf(base, t.(top := t.top + TABLE_BYTES)) == FramesOf(base, t)
  {
    EmptyKind();
    Quotient(t.top + TABLE_BYTES, TABLE_BYTES, t.top / TABLE_BYTES + 1, 0);
  }

  lemma NewTable(base: nat, end: nat, t: Tables, i: nat, domain: Word)
    requires Good(base, end, t) && i < SLOTS && t.l1[i] == 0 && domain < 16 && t.top + TABLE_BYTES <= end
    ensures var u := WithTable(base, t, i, domain);
            && Good(base, end, u) && FramesOf(base, u) == FramesOf(base, t)
            && Kind(u.l1[i]) == COURSE_PAGE && u.l1[i] != 0
            && forall k: nat :: k < TABLE_WORDS ==> EntryAt(u.area, base, TableOf(u.l1[i]), k) == 0
  {
    hide Kind, CourseEntry, Laid, Paged, FrameOf, EntryAt;
    CourseDecodes(t.top, domain);
    Quotient(t.top, TABLE_BYTES, t.top / TABLE_BYTES, 0);
    Quotient(t.top + TABLE_BYTES, TABLE_BYTES, t.top / TABLE_BYTES + 1, 0);
    EmptyKind();
    var u := WithTable(base, t, i, domain);
    TableAdded(t.l1, t.area, u.area, base, t.top, base + 4 * |t.area|, i, u.l1[i]);
  }

  /** A page of a megabyte that has an entry: whether it is mapped, and what mapping it does. */
  lemma EntryOfPage(base: nat, end: nat, u: Tables, n: nat, i: nat, physical: Word, access: Word, cached: bool)
    requires Good(base, end, u) && n < PAGES && i == n / TABLE_WORDS && u.l1[i] != 0
    ensures Kind(u.l1[i]) == COURSE_PAGE && EntryAt(u.area, base, TableOf(u.l1[i]), n % TABLE_WORDS) == 0
            <==> FramesOf(base, u)[n].Unmapped?
    ensures Kind(u.l1[i]) == COURSE_PAGE ==>
              var v := u.(area := PutEntry(u.area, base, TableOf(u.l1[i]), n % TABLE_WORDS, PageEntry(physical, access, cached)));
              Good(base, end, v) && FramesOf(base, v) == FramesOf(base, u)[n := Mapped(physical / PAGE, access % 4, cached)]
  {
    hide Kind, PageEntry;
    assert FramesOf(base, u)[n] == FrameOf(u.l1, u.area, base, n);
    if Kind(u.l1[i]) == COURSE_PAGE {
      PageDecodes(physical, access, cached);
      var e := PageEntry(physical, access, cached);
      var area' := PutEntry(u.area, base, TableOf(u.l1[i]), n % TABLE_WORDS, e);
      PageAdded(u.l1, u.area, area', base, u.top, base + 4 * |u.area|, n, e);
    }
  }

  /** A megabyte round maps the 256 pages of a megabyte and no others. */
  lemma SectionRound(base: nat, end: nat, t: Tables, m: MemorySection)
    requires Good(base, end, t) && m.domain < 16
    ensures var r := TakeSection(t, m);
            && Good(base, end, r.tables)
            && forall n :: 0 <= n < PAGES ==>
                 FramesOf(base, r.tables)[n] ==
                 if n / TABLE_WORDS == m.virtual / SECTION then Mapped(m.physical / SECTION * TABLE_WORDS + n % TABLE_WORDS, m.access % 4, m.cached)
                 else FramesOf(base, t)[n]
  {
    hide Kind, SectionEntry;
    SectionDecodes(m.physical, m.access, m.domain, m.cached);
  }

  /** A round that takes no more than there is: it maps the pages it takes, or none. */
  lemma RoundShifts(base: nat, end: nat, t: Tables, m: MemorySection)
    requires Good(base, end, t) && m.domain < 16 && m.size > 0
    ensures var r, pages := OneRound(base, end, t, m), PagesTaken(m);
            && Good(base, end, r.tables)
            && (!r.ret.Success? ==> r.rest == m && FramesOf(base, r.tables) == FramesOf(base, t))
            && (r.ret.Success? ==>
                  && Aligned(m) && r.rest == After(m, pages) && (WholeMegabyte(m) || m.size >= PAGE)
                  && Shifted(m, FramesOf(base, t), FramesOf(base, r.tables), pages)
                  && r.tables.top == t.top + (if WholeMegabyte(m) || Started(t, m) then 0 else TABLE_BYTES)
                  && (!WholeMegabyte(m) && r.rest.size > 0 && r.rest.virtual / SECTION == m.virtual / SECTION ==> Started(r.tables, r.rest)))
            && (Aligned(m) && m.size >= PAGE && FramesOf(base, t)[m.virtual / PAGE].Unmapped? && (Started(t, m) || t.top + TABLE_BYTES <= end) ==>
                  r.ret.Success?)
  {
    hide Kind, Laid, Paged, FramesOf, TakePage, TakeSection;
    SlotOfPage(m.virtual);
    if WholeMegabyte(m) {
      SectionAligned(m.virtual);
      SectionAligned(m.physical);
      MegabyteShifts(base, end, t, m);
    } else if Aligned(m) && m.size >= PAGE {
      PageRound(base, end, t, m);
      PageRest(base, end, t, m);
      ShiftedPage(m, FramesOf(base, t));
    }
  }

  lemma PageRest(base: nat, end: nat, t: Tables, m: MemorySection)
    requires |t.l1| == SLOTS && base <= t.top && end < WORD_LIMIT && m.domain < 16
    ensures var r := TakePage(base, end, t, m); r.rest == if r.ret.Success? then After(m, 1) else m
  {
  }

  lemma MegabyteShifts(base: nat, end: nat, t: Tables, m: MemorySection)
    requires Good(base, end, t) && m.domain < 16 && WholeMegabyte(m)
    ensures var r := TakeSection(t, m);
            && r.ret.Success? && Good(base, end, r.tables) && r.rest == After(m, TABLE_WORDS) && r.tables.top == t.top
            && Shifted(m, FramesOf(base, t), FramesOf(base, r.tables), TABLE_WORDS)
  {
    hide Kind, Laid, Paged, FramesOf, SectionEntry;
    SectionRound(base, end, t, m);
    ShiftedMegabyte(m, FramesOf(base, t), FramesOf(base, TakeSection(t, m).tables));
  }

  function PagesTaken(m: MemorySection): nat { if WholeMegabyte(m) then TABLE_WORDS else 1 }

  /** The megabyte that comes next has an entry. */
  predicate Started(t: Tables, m: MemorySection) {
    m.size > 0 && m.virtual / SECTION < |t.l1| && t.l1[m.virtual / SECTION] != 0
  }

  /** The word of a page in its table. */
  lemma TableInside(base: nat, end: nat, t: Tables, i: nat, k: nat)
    requires Good(base, end, t) && i < SLOTS && k < TABLE_WORDS && Kind(t.l1[i]) == COURSE_PAGE
    ensures base <= TableOf(t.l1[i]) && (TableOf(t.l1[i]) - base) / 4 + k < |t.area|
  {
    hide Kind;
  }

  /** How many pages after the first page of the range page n is, round the end of the address space. */
  function Offset(e: MemorySection, n: nat): nat { (n + PAGES - e.virtual / PAGE) % PAGES }

  /** The first d pages of the range are mapped, and nothing else changed. */
  ghost predicate Shifted(e: MemorySection, was: seq<Frame>, now: seq<Frame>, d: nat)
    requires |was| == |now| == PAGES
  {
    forall n: nat :: n < PAGES ==>
      now[n] == if Offset(e, n) < d then Mapped((e.physical / PAGE + Offset(e, n)) % PAGES, e.access % 4, e.cached) else was[n]
  }

  lemma ShiftedMegabyte(m: MemorySection, was: seq<Frame>, now: seq<Frame>)
    requires |was| == |now| == PAGES && m.virtual % SECTION == 0 && m.physical % SECTION == 0
    requires forall n :: 0 <= n < PAGES ==>
               now[n] == if n / TABLE_WORDS == m.virtual / SECTION then Mapped(m.physical / SECTION * TABLE_WORDS + n % TABLE_WORDS, m.access % 4, m.cached) else was[n]
    ensures Shifted(m, was, now, TABLE_WORDS)
  {
    forall n: nat | n < PAGES
      ensures now[n] == if Offset(m, n) < TABLE_WORDS then Mapped((m.physical / PAGE + Offset(m, n)) % PAGES, m.access % 4, m.cached) else was[n]
    {
      MegabyteOffset(m, n);
    }
  }

  lemma MegabyteOffset(m: MemorySection, n: nat)
    requires n < PAGES && m.virtual % SECTION == 0 && m.physical % SECTION == 0
    ensures n / TABLE_WORDS == m.virtual / SECTION <==> Offset(m, n) < TABLE_WORDS
    ensures Offset(m, n) < TABLE_WORDS ==>
              (m.physical / PAGE + Offset(m, n)) % PAGES == m.physical / SECTION * TABLE_WORDS + n % TABLE_WORDS
  {
    var v, p := m.virtual / SECTION, m.physical / SECTION;
    Quotient(m.virtual, PAGE, v * TABLE_WORDS, 0);
    Quotient(m.physical, PAGE, p * TABLE_WORDS, 0);
  }

  lemma ShiftedPage(m: MemorySection, was: seq<Frame>)
    requires |was| == PAGES && m.virtual / PAGE < PAGES && m.physical / PAGE < PAGES
    ensures Shifted(m, was, was[m.virtual / PAGE := Mapped(m.physical / PAGE, m.access % 4, m.cached)], 1)
  {
  }

  lemma SectionAligned(x: nat)
    ensures x % SECTION == 0 ==> x % PAGE == 0
  {
  }
}
