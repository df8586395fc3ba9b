/** The page tables in memory, and the bump allocator they come from. */
module Mapping {
  import opened Arithmetic
  import opened PageTables
  import opened PageRanges
  import opened PageRounds

  class Mmu {
    const base: nat
    const l1: array<Word>
    const area: array<Word>
    var heapCurrent: nat
    var heapEnd: nat

    ghost predicate Shape()
      reads this`heapEnd
    {
      && l1.Length == SLOTS && l1 != area
      && base % TABLE_BYTES == 0 && 0 < base
      && base <= heapEnd <= base + 4 * area.Length < WORD_LIMIT
    }

    ghost function View(): Tables
      reads this, l1, area
    {
      Tables(l1[..], area[..], heapCurrent)
    }

    ghost predicate Valid()
      reads this, l1, area
      ensures Valid() ==> Shape() && base <= heapCurrent
    {
      l1 != area && Good(base, heapEnd, View())
    }

    ghost function Frames(): (fs: seq<Frame>)
      reads this, l1, area
      requires Valid()
      ensures |fs| == PAGES
    {
      FramesOf(base, View())
    }

    constructor (start: nat, words: nat)
      requires 0 < start && start % TABLE_BYTES == 0 && start + 4 * words < WORD_LIMIT
      ensures Valid() && base == start && heapCurrent == start && heapEnd == start + 4 * words
      ensures forall n :: 0 <= n < PAGES ==> Frames()[n] == Unmapped
    {
      base, heapCurrent, heapEnd := start, start, start + 4 * words;
      l1 := new Word[SLOTS](_ => 0);
      area := new Word[words](_ => 0);
      new;
      hide Good;
      NothingMapped(base, heapEnd, View());
    }

    method VirtualToPhysical(virtual: Word) returns (physical: Word)
      requires Valid()
      ensures Translated(Frames()[virtual / PAGE], virtual) < WORD_LIMIT
      ensures physical == Alias(Translated(Frames()[virtual / PAGE], virtual))
    {
      hide Kind;
      SlotOfPage(virtual);
      var entry := l1[virtual / SECTION];
      AddressParts(virtual, entry / SECTION);
      assert Frames()[virtual / PAGE] == FrameOf(l1[..], area[..], base, virtual / PAGE);
      physical := 0;
      if Kind(entry) == SECTION_PAGE {
        physical := virtual % SECTION + entry / SECTION * SECTION;
      } else if Kind(entry) == COURSE_PAGE {
        var page := area[(TableOf(entry) - base) / 4 + virtual / PAGE % TABLE_WORDS];
        if page % 4 == COURSE_SECTION {
          physical := virtual % PAGE + page / PAGE * PAGE;
        }
      }
      if physical < 0xFFFE_0000 { return; }
      var offset := if physical < 0xFFFF_0000 then 0x0D43_0000 else 0x0D41_0000;
      physical := (physical + offset) % WORD_LIMIT;
    }

    /** The bump allocator: aligned, zeroed memory from the low end, 0 if there is none left. */
    method KmallocMemorySection(size: nat) returns (ptr: nat)
      requires Shape() && base <= heapCurrent && heapCurrent % TABLE_BYTES == 0 && size in {0x4000, 0x1000, 0x400}
      modifies this`heapCurrent, area
      ensures heapCurrent == old(heapCurrent) + size && heapCurrent % TABLE_BYTES == 0
      ensures ptr == if heapCurrent > heapEnd then 0 else old(heapCurrent)
      ensures forall i :: 0 <= i < area.Length ==>
                area[i] == if ptr != 0 && (ptr - base) / 4 <= i < (ptr - base) / 4 + size / 4 then 0 else old(area[i])
    {
      ptr := heapCurrent;
      var end := ptr + size;
      assert size == 16 * TABLE_BYTES || size == 4 * TABLE_BYTES || size == TABLE_BYTES;
      Quotient(end, TABLE_BYTES, ptr / TABLE_BYTES + size / TABLE_BYTES, 0);
      if end > heapEnd {
        heapCurrent := end;
        return 0;
      }
      heapCurrent := end;
      var first := (ptr - base) / 4;
      for i := 0 to size / 4
        invariant heapCurrent == end
        invariant forall k :: 0 <= k < area.Length ==> area[k] == if first <= k < first + i then 0 else old(area[k])
      {
        area[first + i] := 0;
      }
    }

    /** Map one megabyte with a single first-level entry. */
    method MapMemoryAsSection(m: MemorySection) returns (rest: MemorySection)
      requires Valid() && m.domain < 16
      modifies l1
      ensures Valid()
      ensures Round(Success, View(), rest) == TakeSection(old(View()), m)
      ensures forall n :: 0 <= n < PAGES ==>
                Frames()[n] == if n / TABLE_WORDS == m.virtual / SECTION then Mapped(m.physical / SECTION * TABLE_WORDS + n % TABLE_WORDS, m.access % 4, m.cached)
                               else old(Frames())[n]
      ensures l1[m.virtual / SECTION] / 0x20 % 16 == m.domain
    {
      hide Kind, SectionEntry, Good;
      SectionDecodes(m.physical, m.access, m.domain, m.cached);
      SectionRound(base, heapEnd, View(), m);
      l1[m.virtual / SECTION] := SectionEntry(m.physical, m.access, m.domain, m.cached);
      rest := After(m, TABLE_WORDS);
    }

    /** Map one page with a second-level entry, if nothing is mapped there. */
    method MapMemoryAsCoursePage(m: MemorySection) returns (ret: Answer, rest: MemorySection)
      requires Valid() && m.domain < 16
      modifies this`heapCurrent, l1, area
      ensures Valid()
      ensures Round(ret, View(), rest) == TakePage(base, heapEnd, old(View()), m)
      ensures var n, i := m.virtual / PAGE, m.virtual / SECTION;
              && (ret.Success? <==> (old(l1[i]) != 0 || old(heapCurrent) + TABLE_BYTES <= heapEnd) && old(Frames())[n].Unmapped?)
              && (ret.NoMemory? <==> old(l1[i]) == 0 && old(heapCurrent) + TABLE_BYTES > heapEnd)
              && Frames() == (if ret.Success? then old(Frames())[n := Mapped(m.physical / PAGE, m.access % 4, m.cached)] else old(Frames()))
              && (old(l1[i]) == 0 && ret.Success? ==> l1[i] / 0x20 % 16 == m.domain)
    {
      hide TableOf, Kind, PageEntry, CourseEntry, Laid, Paged, FrameOf;
      ghost var t := View();
      PageRound(base, heapEnd, t, m);
      var i := m.virtual / SECTION;
      SlotOfPage(m.virtual);
      if l1[i] == 0 {
        var table := KmallocMemorySection(TABLE_BYTES);
        if table == 0 {
          assert area[..] == t.area;
          return NoMemory, m;
        }
        l1[i] := CourseEntry(table, m.domain);
        CourseDecodes(table, m.domain);
        NewTable(base, heapEnd, t, i, m.domain);
        assert View() == WithTable(base, t, i, m.domain);
      } else if Kind(l1[i]) != COURSE_PAGE {
        return Invalid, m;
      }
      var k := m.virtual / PAGE % TABLE_WORDS;
      TableInside(base, heapEnd, View(), i, k);
      var word := (TableOf(l1[i]) - base) / 4 + k;
      if area[word] != 0 { return Invalid, m; }
      area[word] := PageEntry(m.physical, m.access, m.cached);
      return Success, After(m, 1);
    }

    /** Map a range, by megabytes where it is aligned and by pages elsewhere. */
    method MapMemory(entry: MemorySection) returns (ret: Answer, ghost rounds: nat, ghost done: nat)
      requires Valid() && entry.domain < 16 && !Endless(base, heapEnd, View(), entry)
      modifies this`heapCurrent, l1, area
      ensures Valid()
      ensures var r := Rounds(base, heapEnd, old(View()), entry, rounds); r.ret == ret && r.tables == View() && !GoesOn(r)
      ensures Shifted(entry, old(Frames()), Frames(), done) && done * PAGE <= entry.size && (done > 0 ==> Aligned(entry))
      ensures ret.Success? ==> done * PAGE == entry.size
      ensures Fits(entry, old(Frames()), old(heapCurrent), heapEnd) ==> ret.Success?
    {
      hide Laid, Paged, Shifted, Reached, SlotsOf, Kind, RoomLeft, Started, OneRound, FramesOf, Endless, Rounds;
      StartRoom(entry, heapCurrent, heapEnd, Started(View(), entry));
      ReachedNothing(entry);
      ShiftedNothing(entry, Frames());
      ret, rounds, done := Success, 0, 0;
      var m := entry;
      ghost var t, frames := View(), Frames();
      ghost var fits := Fits(entry, frames, heapCurrent, heapEnd);
      NoRounds(base, heapEnd, t, entry);
      while ret.Success? && m.size > 0
        invariant Valid() && Reached(entry, m, done) && rounds <= entry.size / PAGE + 1
        invariant Round(ret, View(), m) == Rounds(base, heapEnd, t, entry, rounds)
        invariant Shifted(entry, frames, Frames(), done) && (done > 0 ==> Aligned(entry))
        invariant fits ==> ret.Success? && RoomLeft(entry, done, heapCurrent, heapEnd, Started(View(), m))
        decreases entry.size / PAGE + 1 - rounds
      {
        ghost var u, at := View(), m;
        RoundsBound(base, heapEnd, t, entry, rounds);
        RoundFits(base, heapEnd, t, entry, rounds);
        ReachedAligned(entry, m, done);
        if fits {
          RoomAfter(entry, m, done, heapCurrent, heapEnd, Started(u, m));
          PageFree(m, frames, Frames(), entry, done);
        }
        RoundShifts(base, heapEnd, u, m);
        NextRound(base, heapEnd, t, entry, rounds);
        ret, m := MapNext(m);
        rounds := rounds + 1;
        if ret.Success? {
          ReachedAfter(entry, at, done, PagesTaken(at));
          ReachedAligned(entry, m, done + PagesTaken(at));
          ShiftedMore(entry, at, frames, FramesOf(base, u), Frames(), done, PagesTaken(at));
          done := done + PagesTaken(at);
        }
      }
      ReachedAligned(entry, m, done);
    }

    /** One round of the loop of MapMemory. */
    method MapNext(m: MemorySection) returns (ret: Answer, rest: MemorySection)
      requires Valid() && m.domain < 16
      modifies this`heapCurrent, l1, area
      ensures Valid()
      ensures Round(ret, View(), rest) == OneRound(base, heapEnd, old(View()), m)
    {
      hide Good, TakePage, TakeSection;
      if m.virtual % SECTION == 0 && m.physical % SECTION == 0 && m.size >= SECTION - 1 {
        rest := MapMemoryAsSection(m);
        ret := Success;
      } else if m.virtual % PAGE != 0 || m.physical % PAGE != 0 || m.size < PAGE {
        ret, rest := Invalid, m;
      } else {
        ret, rest := MapMemoryAsCoursePage(m);
      }
    }
  }
}
