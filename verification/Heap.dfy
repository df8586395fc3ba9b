/** Giving a block back to a heap: the free list stays sorted and its blocks apart. */
module Heap {

  const HEADER := 0x10

  datatype BlockState = BlockInit | BlockInUse | BlockAligned | BlockOther

  /** The header before each block; 0 is the null pointer. */
  datatype Block = Block(state: BlockState, size: nat, prev: nat, next: nat)

  datatype Answer = Success | Invalid

  // ---------------------------------------------------------------- the free list as spans

  datatype Span = Span(start: nat, size: nat)
  {
    function End(): nat { start + size }
  }

  /** The start of the i-th span; 0 before the first and after the last. */
  function At(s: seq<Span>, i: int): nat { if 0 <= i < |s| then s[i].start else 0 }

  ghost predicate Sorted(s: seq<Span>) {
    && (forall i :: 0 <= i < |s| ==> s[i].start > 0 && s[i].size > 0)
    && (forall i, j :: 0 <= i < j < |s| ==> s[i].End() <= s[j].start)
  }

  /** Span i and the next do not touch. */
  ghost predicate Gap(s: seq<Span>, i: nat) { i + 1 < |s| ==> s[i].End() < s[i + 1].start }

  ghost predicate Apart(s: seq<Span>) { forall i: nat {:trigger Gap(s, i)} :: Gap(s, i) }

  ghost predicate Covers(s: seq<Span>, x: nat) { exists i :: 0 <= i < |s| && s[i].start <= x < s[i].End() }

  /** The header of the i-th span. */
  function Header(s: seq<Span>, i: nat): Block
    requires i < |s|
  {
    Block(BlockInit, s[i].size, At(s, i - 1), At(s, i + 1))
  }

  /** The list in memory: every header has its size and links both ways. */
  ghost predicate Linked(mem: map<nat, Block>, first: nat, s: seq<Span>) {
    && Sorted(s)
    && first == At(s, 0)
    && (forall i :: 0 <= i < |s| ==>
          s[i].start in mem && mem[s[i].start] == Header(s, i))
  }

  /** The list in plain terms: each free block has its size in its header and links to the next and the one
      before, 0 at the ends; they lie in rising order and apart. */
  lemma LinkedIs(mem: map<nat, Block>, first: nat, s: seq<Span>, i: nat)
    requires Linked(mem, first, s) && i < |s|
    ensures first == s[0].start && s[i].start in mem
    ensures var b := mem[s[i].start];
            && b.state.BlockInit? && b.size == s[i].size > 0
            && b.next == (if i + 1 < |s| then s[i + 1].start else 0) && b.prev == (if i > 0 then s[i - 1].start else 0)
            && (i + 1 < |s| ==> 0 < s[i].start < s[i].start + s[i].size <= s[i + 1].start)
  {
  }

  function Inserted(s: seq<Span>, p: nat, b: Span): seq<Span>
    requires p <= |s|
  {
    s[..p] + [b] + s[p..]
  }

  function Joined(s: seq<Span>, k: nat): seq<Span>
    requires k + 1 < |s|
  {
    s[..k] + [Span(s[k].start, s[k].size + s[k + 1].size)] + s[k + 2..]
  }

  /** The first place whose span does not start before b. */
  ghost predicate Place(s: seq<Span>, p: nat, b: Span) {
    && p <= |s|
    && b.start > 0 && b.size > 0
    && (forall i :: 0 <= i < p ==> s[i].End() <= b.start)
    && (forall i :: p <= i < |s| ==> b.End() <= s[i].start)
  }

  lemma InsertedAt(s: seq<Span>, p: nat, b: Span, i: nat)
    requires p <= |s| && i <= |s|
    ensures |Inserted(s, p, b)| == |s| + 1
    ensures Inserted(s, p, b)[i] == if i < p then s[i] else if i == p then b else s[i - 1]
  {
  }

  lemma InsertedSorted(s: seq<Span>, p: nat, b: Span)
    requires Sorted(s) && Place(s, p, b)
    ensures Sorted(Inserted(s, p, b))
  {
    var t := Inserted(s, p, b);
    assert |t| == |s| + 1;
    forall i, j | 0 <= i < j < |t|
      ensures t[i].End() <= t[j].start
    {
      InsertedAt(s, p, b, i);
      InsertedAt(s, p, b, j);
    }
    forall i | 0 <= i < |t|
      ensures t[i].start > 0 && t[i].size > 0
    {
      InsertedAt(s, p, b, i);
    }
  }

  lemma InsertedCovers(s: seq<Span>, p: nat, b: Span, x: nat)
    requires p <= |s|
    ensures Covers(Inserted(s, p, b), x) <==> Covers(s, x) || b.start <= x < b.End()
  {
    var t := Inserted(s, p, b);
    assert t[p] == b;
    if Covers(s, x) {
      var i :| 0 <= i < |s| && s[i].start <= x < s[i].End();
      assert t[if i < p then i else i + 1] == s[i];
    }
  }

  lemma JoinedAt(s: seq<Span>, k: nat, i: nat)
    requires k + 1 < |s| && i + 1 < |s|
    ensures |Joined(s, k)| == |s| - 1
    ensures Joined(s, k)[i] == if i < k then s[i] else if i == k then Span(s[k].start, s[k].size + s[k + 1].size) else s[i + 1]
    ensures At(Joined(s, k), i - 1) == if i <= k + 1 then At(s, i - 1) else At(s, i)
    ensures At(Joined(s, k), i + 1) == if i < k then At(s, i + 1) else At(s, i + 2)
  {
  }

  lemma JoinedSorted(s: seq<Span>, k: nat)
    requires Sorted(s) && k + 1 < |s| && s[k].End() == s[k + 1].start
    ensures Sorted(Joined(s, k))
  {
    var t := Joined(s, k);
    hide At;
    forall i, j | 0 <= i < j < |t|
      ensures t[i].End() <= t[j].start
    {
      JoinedAt(s, k, i);
      JoinedAt(s, k, j);
    }
    forall i | 0 <= i < |t|
      ensures t[i].start > 0 && t[i].size > 0
    {
      JoinedAt(s, k, i);
    }
  }

  lemma JoinedCovers(s: seq<Span>, k: nat, x: nat)
    requires k + 1 < |s| && s[k].End() == s[k + 1].start
    ensures Covers(Joined(s, k), x) <==> Covers(s, x)
  {
    hide At;
    var t := Joined(s, k);
    JoinedAt(s, k, k);
    if Covers(s, x) {
      var i :| 0 <= i < |s| && s[i].start <= x < s[i].End();
      if i != k && i != k + 1 { assert t[if i < k then i else i - 1] == s[i]; }
    }
    if Covers(t, x) {
      var i :| 0 <= i < |t| && t[i].start <= x < t[i].End();
      if i == k {
        assert s[k].start <= x < s[k].End() || s[k + 1].start <= x < s[k + 1].End();
      } else {
        assert t[i] == s[if i < k then i else i + 1];
      }
    }
  }

  lemma JoinedGaps(s: seq<Span>, k: nat, i: nat)
    requires Sorted(s) && k + 1 < |s| && s[k].End() == s[k + 1].start
    requires i < k ==> Gap(s, i)
    requires i >= k ==> Gap(s, i + 1)
    ensures Gap(Joined(s, k), i)
  {
  }

  // ---------------------------------------------------------------- memory

  /** The headers after block k took in the next. */
  function JoinedMem(mem: map<nat, Block>, s: seq<Span>, k: nat): map<nat, Block>
    requires k + 1 < |s| && s[k].start in mem
  {
    var p, e := s[k].start, At(s, k + 2);
    var m := mem[p := mem[p].(size := s[k].size + s[k + 1].size, next := e)];
    if e != 0 && e in mem then m[e := mem[e].(prev := p)] else m
  }

  lemma JoinedLinked(mem: map<nat, Block>, first: nat, s: seq<Span>, k: nat)
    requires Linked(mem, first, s) && k + 1 < |s| && s[k].End() == s[k + 1].start
    ensures Linked(JoinedMem(mem, s, k), first, Joined(s, k))
  {
    JoinedSorted(s, k);
    var m, t := JoinedMem(mem, s, k), Joined(s, k);
    forall i | 0 <= i < |t|
      ensures t[i].start in m && m[t[i].start] == Header(t, i)
    {
      JoinedHeader(mem, first, s, k, i);
    }
    assert first == At(t, 0);
  }

  lemma DistinctStarts(s: seq<Span>, i: nat, j: nat)
    requires Sorted(s) && i < |s| && j < |s| && i != j
    ensures s[i].start != s[j].start && s[i].start > 0
  {
    assert s[i].size > 0 && s[j].size > 0;
  }

  lemma LinkedHeader(mem: map<nat, Block>, first: nat, s: seq<Span>, i: nat)
    requires Linked(mem, first, s) && i < |s|
    ensures s[i].start in mem && mem[s[i].start] == Header(s, i) && s[i].start > 0
  {
  }

  /** The headers of two spans in memory, and their addresses apart. */
  lemma TwoHeaders(mem: map<nat, Block>, first: nat, s: seq<Span>, i: nat, j: nat)
    requires Linked(mem, first, s) && i < |s|
    ensures s[i].start in mem && mem[s[i].start] == Header(s, i) && s[i].start > 0
    ensures j < |s| && j != i ==> s[j].start in mem && s[j].start > 0 && s[i].start != s[j].start
  {
    LinkedHeader(mem, first, s, i);
    if j < |s| && j != i {
      LinkedHeader(mem, first, s, j);
      DistinctStarts(s, i, j);
    }
  }

  lemma JoinedHeader(mem: map<nat, Block>, first: nat, s: seq<Span>, k: nat, i: nat)
    requires Linked(mem, first, s) && k + 1 < |s| && s[k].End() == s[k + 1].start && i + 1 < |s|
    ensures |Joined(s, k)| == |s| - 1 && s[k].start in mem
    ensures var m, t := JoinedMem(mem, s, k), Joined(s, k);
            t[i].start in m && m[t[i].start] == Header(t, i)
  {
    hide Linked, Sorted, Joined, At;
    var o := if i <= k then i else i + 1;
    TwoHeaders(mem, first, s, k, k + 2);
    TwoHeaders(mem, first, s, o, k);
    TwoHeaders(mem, first, s, o, k + 2);
    JoinedAt(s, k, i);
    AtAfter(s, k);
    AtAfter(s, k + 2);
  }

  lemma AtAfter(s: seq<Span>, i: int)
    ensures At(s, i) == if 0 <= i < |s| then s[i].start else 0
  {
  }

  /** The headers after b was put in at place p. */
  function InsertedMem(mem: map<nat, Block>, s: seq<Span>, p: nat, b: Span): map<nat, Block>
    requires p <= |s|
  {
    var before, after := At(s, p - 1), At(s, p);
    var m := mem[b.start := Block(BlockInit, b.size, before, after)];
    var m' := if before != 0 && before in m then m[before := m[before].(next := b.start)] else m;
    if after != 0 && after in m' then m'[after := m'[after].(prev := b.start)] else m'
  }

  lemma InsertedLinked(mem: map<nat, Block>, first: nat, s: seq<Span>, p: nat, b: Span)
    requires Linked(mem, first, s) && Place(s, p, b)
    ensures Linked(InsertedMem(mem, s, p, b), if p == 0 then b.start else first, Inserted(s, p, b))
  {
    InsertedSorted(s, p, b);
    var m, t := InsertedMem(mem, s, p, b), Inserted(s, p, b);
    forall i | 0 <= i < |t|
      ensures t[i].start in m && m[t[i].start] == Header(t, i)
    {
      InsertedHeader(mem, first, s, p, b, i);
    }
    assert (if p == 0 then b.start else first) == At(t, 0);
  }

  lemma NewStart(mem: map<nat, Block>, first: nat, s: seq<Span>, p: nat, b: Span, i: nat)
    requires Linked(mem, first, s) && Place(s, p, b)
    ensures p <= |s| && b.start > 0
    ensures i < |s| ==> s[i].start != b.start
  {
    hide At;
    if i < |s| { assert s[i].size > 0; }
  }

  lemma InsertedHeader(mem: map<nat, Block>, first: nat, s: seq<Span>, p: nat, b: Span, i: nat)
    requires Linked(mem, first, s) && Place(s, p, b) && i <= |s|
    ensures |Inserted(s, p, b)| == |s| + 1
    ensures var m, t := InsertedMem(mem, s, p, b), Inserted(s, p, b);
            t[i].start in m && m[t[i].start] == Header(t, i)
  {
    hide Linked, Sorted, Inserted, At, Place;
    NewStart(mem, first, s, p, b, p);
    InsertedNeighbours(s, p, b, i);
    AtAfter(s, p);
    AtAfter(s, p - 1);
    if p > 0 {
      NewStart(mem, first, s, p, b, p - 1);
      TwoHeaders(mem, first, s, p - 1, p);
    }
    if p < |s| { TwoHeaders(mem, first, s, p, p); }
    if i < p {
      NewStart(mem, first, s, p, b, i);
      TwoHeaders(mem, first, s, i, p - 1);
      TwoHeaders(mem, first, s, i, p);
    } else if i > p {
      NewStart(mem, first, s, p, b, i - 1);
      TwoHeaders(mem, first, s, i - 1, p);
      if p > 0 { TwoHeaders(mem, first, s, i - 1, p - 1); }
    }
  }

  lemma InsertedNeighbours(s: seq<Span>, p: nat, b: Span, i: nat)
    requires p <= |s| && i <= |s|
    ensures |Inserted(s, p, b)| == |s| + 1
    ensures Inserted(s, p, b)[i] == if i < p then s[i] else if i == p then b else s[i - 1]
    ensures At(Inserted(s, p, b), i - 1) == if i <= p then At(s, i - 1) else if i == p + 1 then b.start else At(s, i - 2)
    ensures At(Inserted(s, p, b), i + 1) == if i + 1 < p then At(s, i + 1) else if i + 1 == p then b.start else At(s, i)
  {
  }

  // ---------------------------------------------------------------- the heap

  ghost predicate InUse(mem: map<nat, Block>, b: nat) { b in mem && mem[b].state.BlockInUse? }

  /** Blocks in use are apart from each other and from the free ones. */
  ghost predicate Allotted(mem: map<nat, Block>, s: seq<Span>) {
    && (forall b: nat :: InUse(mem, b) ==> b > 0 && mem[b].size > 0 && Uncovered(s, b, mem[b].size))
    && (forall b: nat, c: nat :: InUse(mem, b) && InUse(mem, c) && b < c ==> b + mem[b].size <= c)
  }

  ghost predicate Uncovered(s: seq<Span>, b: nat, size: nat) { forall x: nat :: b <= x < b + size ==> !Covers(s, x) }

  lemma UncoveredSpan(s: seq<Span>, b: nat, size: nat, i: nat)
    requires Sorted(s) && size > 0 && Uncovered(s, b, size) && i < |s|
    ensures b + size <= s[i].start || s[i].End() <= b
  {
    var x := if b < s[i].start then s[i].start else b;
    assert s[i].start <= x < s[i].End() ==> Covers(s, x);
  }

  /** A header that marks no free block. */
  ghost predicate Taken(mem: map<nat, Block>, b: nat) { b in mem && !mem[b].state.BlockInit? }

  /** The headers of blocks that are not free are the same in m as in mem, except b's, which
      is that of a free block now. */
  ghost predicate OthersTaken(mem: map<nat, Block>, m: map<nat, Block>, b: nat) {
    && !Taken(m, b)
    && forall c: nat {:trigger Taken(m, c)} {:trigger Taken(mem, c)} ::
         c != b ==> (Taken(m, c) <==> Taken(mem, c)) && (Taken(mem, c) ==> m[c] == mem[c])
  }

  lemma OthersTakenIs(mem: map<nat, Block>, m: map<nat, Block>, b: nat)
    requires OthersTaken(mem, m, b)
    ensures forall c :: c != b && c in mem && !mem[c].state.BlockInit? ==> c in m && m[c] == mem[c]
    ensures b in m ==> m[b].state.BlockInit?
  {
    forall c | c != b && c in mem && !mem[c].state.BlockInit?
      ensures c in m && m[c] == mem[c]
    {
      assert Taken(mem, c);
    }
  }

  class HeapInfo {
    const heap: nat
    const size: nat
    var firstBlock: nat
    var mem: map<nat, Block>
    ghost var free: seq<Span>

    ghost predicate Valid()
      reads this
    {
      Linked(mem, firstBlock, free) && Apart(free) && Allotted(mem, free)
    }

    /** A new heap is one free block. */
    constructor (start: nat, bytes: nat)
      requires 0 < start && 0x30 <= bytes
      ensures Valid() && heap == start && size == bytes
      ensures free == [Span(start, bytes - HEADER)]
    {
      heap, size, firstBlock, free := start, bytes, start, [Span(start, bytes - HEADER)];
      mem := map[start := Block(BlockInit, bytes - HEADER, 0, 0)];
    }

    /** What is at an address, taken for a header. */
    function HeaderAt(a: nat): Block
      reads this`mem
    {
      if a in mem then mem[a] else Block(BlockOther, 0, 0, 0)
    }

    /** The block a pointer belongs to: past an alignment header if there is one. */
    function BlockOf(ptr: nat): nat
      requires HEADER <= ptr
      reads this`mem
    {
      if HeaderAt(ptr - HEADER).state.BlockAligned? then HeaderAt(ptr - HEADER).next else ptr - HEADER
    }

    predicate Accepts(ptr: nat)
      reads this`mem
    {
      ptr != 0 && heap + HEADER <= ptr < heap + size && BlockOf(ptr) != 0 && HeaderAt(BlockOf(ptr)).state.BlockInUse?
    }

    /** Take the next free block into parent if it begins where parent ends. */
    method MergeNextBlockIfUnused(parent: nat, ghost k: nat) returns (merged: bool)
      requires Linked(mem, firstBlock, free)
      requires parent != 0 ==> k < |free| && free[k].start == parent
      modifies this`mem, this`free
      ensures Linked(mem, firstBlock, free)
      ensures merged <==> parent != 0 && k + 1 < |old(free)| && old(free)[k].End() == old(free)[k + 1].start
      ensures if merged then free == Joined(old(free), k) && mem == JoinedMem(old(mem), old(free), k)
              else free == old(free) && mem == old(mem)
    {
      hide Sorted, Linked, At, Joined;
      if parent == 0 { return false; }
      TwoHeaders(mem, firstBlock, free, k, k + 1);
      AtAfter(free, k + 1);
      if mem[parent].next == 0 { return false; }
      var blockSize := mem[parent].size;
      var toMerge := mem[parent].next;
      if toMerge != parent + blockSize { return false; }
      TwoHeaders(mem, firstBlock, free, k, k + 2);
      TwoHeaders(mem, firstBlock, free, k + 1, k + 2);
      AtAfter(free, k + 2);
      JoinedLinked(mem, firstBlock, free, k);
      ghost var joined := JoinedMem(mem, free, k);
      var next := mem[toMerge].next;
      mem := mem[parent := mem[parent].(next := next)];
      if next != 0 {
        mem := mem[next := mem[next].(prev := parent)];
      }
      mem := mem[parent := mem[parent].(size := blockSize + mem[toMerge].size)];
      assert mem == joined;
      free := Joined(free, k);
      return true;
    }

    /** The last block of the list that does not lie behind b, or the first. */
    method FindBefore(b: nat) returns (curr: nat, ghost k: nat)
      requires Linked(mem, firstBlock, free)
      ensures free == [] <==> curr == 0
      ensures free != [] ==> k < |free| && curr == free[k].start && (k + 1 < |free| ==> b < free[k + 1].start)
                             && forall i :: 0 < i <= k ==> free[i].start <= b
    {
      hide Linked, At, Sorted;
      FirstOf(mem, firstBlock, free);
      curr := firstBlock;
      k := 0;
      while curr != 0
        invariant free == [] <==> curr == 0
        invariant free != [] ==> k < |free| && curr == free[k].start && forall i :: 0 < i <= k ==> free[i].start <= b
        decreases |free| - k
      {
        TwoHeaders(mem, firstBlock, free, k, k + 1);
        AtAfter(free, k + 1);
        var next := mem[curr].next;
        if next == 0 || b < next { break; }
        curr, k := next, k + 1;
      }
    }

    /** Put a block into the list, behind curr or before all others. */
    method Insert(b: nat, curr: nat, ghost p: nat, ghost was: map<nat, Block>)
      requires b in was && mem == was[b := was[b].(state := BlockInit)]
      requires Linked(was, firstBlock, free) && Place(free, p, Span(b, was[b].size))
      requires curr == 0 || b <= firstBlock <==> p == 0
      requires p > 0 ==> curr == free[p - 1].start
      modifies this`mem, this`firstBlock, this`free
      ensures Linked(mem, firstBlock, free)
      ensures free == Inserted(old(free), p, Span(b, was[b].size)) && mem == InsertedMem(was, old(free), p, Span(b, was[b].size))
    {
      hide Linked, At, Sorted, Place, Inserted;
      ghost var span := Span(b, was[b].size);
      NewStart(was, firstBlock, free, p, span, p);
      if p > 0 {
        NewStart(was, firstBlock, free, p, span, p - 1);
        TwoHeaders(was, firstBlock, free, p - 1, p);
      }
      if p < |free| { TwoHeaders(was, firstBlock, free, p, p); }
      FirstOf(was, firstBlock, free);
      AtAfter(free, p);
      AtAfter(free, p - 1);
      InsertedLinked(was, firstBlock, free, p, span);
      ghost var inserted := InsertedMem(was, free, p, span);
      if curr == 0 || b <= firstBlock {
        mem := mem[b := mem[b].(next := firstBlock, prev := 0)];
        firstBlock := b;
      } else {
        mem := mem[b := mem[b].(prev := curr, next := mem[curr].next)];
        mem := mem[curr := mem[curr].(next := b)];
      }
      var next := mem[b].next;
      if next != 0 {
        mem := mem[next := mem[next].(prev := b)];
      }
      assert mem == inserted;
      free := Inserted(free, p, span);
    }

    /** Merge a block just put in with its neighbours. */
    method MergeAround(b: nat, ghost p: nat)
      requires Linked(mem, firstBlock, free) && p < |free| && free[p].start == b
      requires forall i: nat {:trigger Gap(free, i)} :: i != p && i + 1 != p ==> Gap(free, i)
      modifies this`mem, this`free
      ensures Linked(mem, firstBlock, free) && Apart(free)
      ensures forall x: nat :: Covers(free, x) <==> Covers(old(free), x)
      ensures SameTaken(old(mem), mem)
    {
      hide Linked, At, Sorted, Joined, Gap, Covers;
      ghost var m, s := mem, free;
      TwoHeaders(mem, firstBlock, free, p, p);
      var merged := MergeNextBlockIfUnused(b, p);
      MergedGaps(m, firstBlock, s, p, p - 1, merged);
      MergedCovers(s, p, merged);
      if merged { JoinedTaken(m, firstBlock, s, p); JoinedAt(s, p, p); }
      ghost var m1, s1 := mem, free;
      TwoHeaders(mem, firstBlock, free, p, p);
      if p > 0 { TwoHeaders(mem, firstBlock, free, p - 1, p); }
      AtAfter(free, p - 1);
      var prev := mem[b].prev;
      ghost var q := if p == 0 then 0 else p - 1;
      merged := MergeNextBlockIfUnused(prev, q);
      if p > 0 { MergedGaps(m1, firstBlock, s1, q, -1, merged); }
      MergedCovers(s1, q, merged);
      if merged { JoinedTaken(m1, firstBlock, s1, q); }
    }

    /** Free the block a pointer belongs to. */
    method FreeOnHeap(ptr: nat) returns (ret: Answer)
      requires Valid()
      modifies this
      ensures Valid()
      ensures ret == if old(Accepts(ptr)) then Success else Invalid
      ensures ret.Success? ==> ptr != 0 && heap + 0x10 <= ptr < heap + size
      ensures ret.Invalid? && ptr != 0 && heap + 0x10 <= ptr < heap + size ==>
                var head := old(HeaderAt(ptr - 0x10));
                !head.state.BlockInUse?
                && (head.state.BlockAligned? ==> head.next == 0 || !old(HeaderAt(head.next)).state.BlockInUse?)
      ensures ret.Invalid? ==> mem == old(mem) && firstBlock == old(firstBlock) && free == old(free)
      ensures ret.Success? ==>
                var head := old(HeaderAt(ptr - 0x10));
                var b := if head.state.BlockAligned? then head.next else ptr - 0x10;
                && b != 0 && old(HeaderAt(b)).state.BlockInUse?
                && (forall x: nat :: Covers(free, x) <==> Covers(old(free), x) || b <= x < b + old(mem)[b].size)
                && OthersTaken(old(mem), mem, b)
                && (forall c :: c != b && c in old(mem) && !old(mem)[c].state.BlockInit? ==> c in mem && mem[c] == old(mem)[c])
                && (b in mem ==> mem[b].state.BlockInit?)
                && !Accepts(ptr)
    {
      hide Linked, At, Sorted, Place, Inserted, Joined, Gap, Covers, Uncovered;
      if ptr == 0 { return Invalid; }
      if ptr < heap + HEADER || ptr >= heap + size { return Invalid; }
      var b := ptr - HEADER;
      if HeaderAt(b).state.BlockAligned? { b := HeaderAt(b).next; }
      if b == 0 || !HeaderAt(b).state.BlockInUse? { return Invalid; }
      ghost var was, s, span := mem, free, Span(b, mem[b].size);
      assert InUse(mem, b);
      FrameLinked(mem, firstBlock, free, b);
      mem := mem[b := mem[b].(state := BlockInit)];
      var curr, k := FindBefore(b);
      ghost var p := PlaceFor(was, firstBlock, s, span, k);
      Insert(b, curr, p, was);
      InsertedAt(s, p, span, p);
      InsertedGaps(s, p, span);
      MergeAround(b, p);
      forall x: nat ensures Covers(free, x) <==> Covers(s, x) || b <= x < span.End() { InsertedCovers(s, p, span, x); }
      InsertedTaken(was, old(firstBlock), s, p, span);
      StillAllotted(was, s, mem, free, span);
      OthersTakenIs(was, mem, b);
      assert Taken(was, ptr - HEADER);
      assert !Taken(mem, b);
      return Success;
    }
  }

  lemma FirstOf(mem: map<nat, Block>, first: nat, s: seq<Span>)
    requires Linked(mem, first, s)
    ensures if s == [] then first == 0 else first == s[0].start > 0
  {
  }

  /** A block in use is no block of the list. */
  lemma FrameLinked(mem: map<nat, Block>, first: nat, s: seq<Span>, b: nat)
    requires Linked(mem, first, s) && InUse(mem, b)
    ensures Linked(mem[b := mem[b].(state := BlockInit)], first, s)
  {
    hide At, Sorted;
    forall i | 0 <= i < |s|
      ensures s[i].start != b
    {
      LinkedHeader(mem, first, s, i);
    }
  }

  /** Where a block in use belongs in the list. */
  lemma PlaceFor(mem: map<nat, Block>, first: nat, s: seq<Span>, b: Span, k: nat) returns (p: nat)
    requires Linked(mem, first, s) && Allotted(mem, s) && InUse(mem, b.start) && b.size == mem[b.start].size
    requires s != [] ==> k < |s| && (k + 1 < |s| ==> b.start < s[k + 1].start) && forall i :: 0 < i <= k ==> s[i].start <= b.start
    ensures p == if s == [] || b.start <= first then 0 else k + 1
    ensures Place(s, p, b)
  {
    hide At;
    FirstOf(mem, first, s);
    p := if s == [] || b.start <= first then 0 else k + 1;
    forall i | 0 <= i < |s|
      ensures if i < p then s[i].End() <= b.start else b.End() <= s[i].start
    {
      UncoveredSpan(s, b.start, b.size, i);
      assert s[i].size > 0;
      if i >= p && i > 0 { Later(s, p, i); }
    }
  }

  lemma Later(s: seq<Span>, p: nat, i: nat)
    requires Sorted(s) && p <= i < |s|
    ensures s[p].start <= s[i].start
  {
    if p < i { assert s[p].End() <= s[i].start; }
  }

  lemma InsertedGaps(s: seq<Span>, p: nat, b: Span)
    requires Apart(s) && p <= |s|
    ensures forall i: nat {:trigger Gap(Inserted(s, p, b), i)} :: i != p && i + 1 != p ==> Gap(Inserted(s, p, b), i)
  {
    forall i: nat {:trigger Gap(Inserted(s, p, b), i)} | i != p && i + 1 != p
      ensures Gap(Inserted(s, p, b), i)
    {
      if i + 1 <= |s| {
        InsertedAt(s, p, b, i);
        InsertedAt(s, p, b, i + 1);
        assert Gap(s, if i < p then i else i - 1);
      }
    }
  }

  ghost predicate SameTaken(mem: map<nat, Block>, m: map<nat, Block>) {
    forall c: nat {:trigger Taken(m, c)} {:trigger Taken(mem, c)} :: (Taken(m, c) <==> Taken(mem, c)) && (Taken(mem, c) ==> m[c] == mem[c])
  }

  /** What a try to merge block k with the next leaves: a gap after it, and the gaps that were. */
  lemma MergedGaps(mem: map<nat, Block>, first: nat, s: seq<Span>, k: nat, touching: int, merged: bool)
    requires Linked(mem, first, s) && k < |s| && touching < k
    requires merged <==> k + 1 < |s| && s[k].End() == s[k + 1].start
    requires forall i: nat {:trigger Gap(s, i)} :: i != k && i != touching ==> Gap(s, i)
    ensures var t := if merged then Joined(s, k) else s;
            forall i: nat {:trigger Gap(t, i)} :: i != touching ==> Gap(t, i)
  {
    if merged {
      hide Gap;
      forall i: nat {:trigger Gap(Joined(s, k), i)} | i != touching
        ensures Gap(Joined(s, k), i)
      {
        JoinedGaps(s, k, i);
      }
    } else if k + 1 < |s| {
      assert s[k].End() <= s[k + 1].start;
    }
  }

  lemma MergedCovers(s: seq<Span>, k: nat, merged: bool)
    requires merged ==> k + 1 < |s| && s[k].End() == s[k + 1].start
    ensures var t := if merged then Joined(s, k) else s; forall x: nat :: Covers(t, x) <==> Covers(s, x)
  {
    if merged {
      forall x: nat ensures Covers(Joined(s, k), x) <==> Covers(s, x) { JoinedCovers(s, k, x); }
    }
  }

  lemma JoinedTaken(mem: map<nat, Block>, first: nat, s: seq<Span>, k: nat)
    requires Linked(mem, first, s) && k + 1 < |s|
    ensures s[k].start in mem && SameTaken(mem, JoinedMem(mem, s, k))
  {
    hide Linked, Sorted, At;
    TwoHeaders(mem, first, s, k, k + 2);
    if k + 2 < |s| { TwoHeaders(mem, first, s, k + 2, k); }
    AtAfter(s, k + 2);
  }

  lemma InsertedTaken(mem: map<nat, Block>, first: nat, s: seq<Span>, p: nat, b: Span)
    requires Linked(mem, first, s) && p <= |s|
    ensures OthersTaken(mem, InsertedMem(mem, s, p, b), b.start)
  {
    hide Linked, Sorted, At;
    if p > 0 { TwoHeaders(mem, first, s, p - 1, p); }
    if p < |s| { TwoHeaders(mem, first, s, p, p); }
    AtAfter(s, p);
    AtAfter(s, p - 1);
  }

  /** The other blocks in use stay apart from the free ones. */
  lemma StillAllotted(mem: map<nat, Block>, s: seq<Span>, m: map<nat, Block>, t: seq<Span>, b: Span)
    requires Allotted(mem, s) && InUse(mem, b.start) && mem[b.start].size == b.size && OthersTaken(mem, m, b.start)
    requires forall x: nat :: Covers(t, x) <==> Covers(s, x) || b.start <= x < b.End()
    ensures Allotted(m, t)
  {
    hide Covers;
    forall c: nat | InUse(m, c)
      ensures c > 0 && m[c].size > 0 && Uncovered(t, c, m[c].size)
    {
      assert Taken(m, c);
      assert InUse(mem, c) && InUse(mem, b.start);
    }
    forall c: nat, d: nat | InUse(m, c) && InUse(m, d) && c < d
      ensures c + m[c].size <= d
    {
      assert Taken(m, c) && Taken(m, d);
      assert InUse(mem, c) && InUse(mem, d);
    }
  }
}
