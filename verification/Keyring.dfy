/** Keys stored in chunks: entries linked by index, handles that name the first of them. */
module Keyring {

  type Byte = x: int | 0 <= x < 256

  const ENTRIES := 64
  const HANDLES := 32
  const PART := 0x20
  const CUSTOM_START := 0x0C
  const ROOT_KEY := 0x0FFF_FFFF
  const FAIL_ALLOC := -2013

  type Part = s: seq<Byte> | |s| == 0x20 witness seq(0x20, i => 0)

  datatype Entry = Entry(isUsed: bool, key: Part, next: nat)

  function NoKey(): Part { seq<Byte>(PART, i => 0) }

  function Cleared(): Entry { Entry(false, NoKey(), 0) }

  datatype Handle = Handle(isUsed: bool, index: int)

  datatype Answer = Success | Invalid | NoAccess | NoRoom

  // ---------------------------------------------------------------- chains of entries

  /** The entries of ch, in rising order, each linked to the next and the last to 0. */
  ghost predicate IsChain(es: seq<Entry>, ch: seq<nat>) {
    && ch != []
    && (forall i: nat :: i < |ch| ==> ch[i] < |es| && es[ch[i]].isUsed && es[ch[i]].next == NextIn(ch, i))
    && (forall i, j :: 0 <= i < j < |ch| ==> ch[i] < ch[j])
  }

  function NextIn(ch: seq<nat>, i: nat): nat { if i + 1 < |ch| then ch[i + 1] else 0 }

  /** The bytes of a chain, part after part. */
  ghost function Bytes(es: seq<Entry>, ch: seq<nat>): (b: seq<Byte>)
    ensures |b| == |ch| * PART
  {
    if ch == [] then [] else Bytes(es, ch[..|ch| - 1]) + PartAt(es, ch[|ch| - 1])
  }

  function PartAt(es: seq<Entry>, e: nat): Part { if e < |es| then es[e].key else NoKey() }

  lemma SliceLeft(a: seq<Byte>, b: seq<Byte>, x: nat, y: nat)
    requires x <= y <= |a|
    ensures (a + b)[x..y] == a[x..y]
  {
  }

  lemma {:induction false} BytesAt(es: seq<Entry>, ch: seq<nat>, i: nat)
    requires i < |ch|
    ensures Bytes(es, ch)[i * PART..(i + 1) * PART] == PartAt(es, ch[i])
    decreases |ch|
  {
    if i + 1 < |ch| {
      var front := ch[..|ch| - 1];
      BytesAt(es, front, i);
      var b, last := Bytes(es, front), PartAt(es, ch[|ch| - 1]);
      assert Bytes(es, ch) == b + last && (i + 1) * PART <= |b|;
      SliceLeft(b, last, i * PART, (i + 1) * PART);
    } else {
      assert Bytes(es, ch)[i * PART..(i + 1) * PART] == PartAt(es, ch[i]);
    }
  }

  lemma {:induction false} BytesFrame(es: seq<Entry>, es': seq<Entry>, ch: seq<nat>)
    requires forall i :: 0 <= i < |ch| ==> PartAt(es, ch[i]) == PartAt(es', ch[i])
    ensures Bytes(es, ch) == Bytes(es', ch)
    decreases |ch|
  {
    if ch != [] { BytesFrame(es, es', ch[..|ch| - 1]); }
  }

  /** The free entries from i on, in rising order. */
  function FreeFrom(es: seq<Entry>, i: nat): (f: seq<nat>)
    requires i <= |es|
    ensures forall k :: 0 <= k < |f| ==> i <= f[k] < |es| && !es[f[k]].isUsed
    ensures forall k, l :: 0 <= k < l < |f| ==> f[k] < f[l]
    ensures forall e :: i <= e < |es| && !es[e].isUsed ==> e in f
    decreases |es| - i
  {
    if i == |es| then [] else if es[i].isUsed then FreeFrom(es, i + 1) else [i] + FreeFrom(es, i + 1)
  }

  /** Byte i of a chain is byte i % 32 of its entry i / 32. */
  lemma ByteOfChain(es: seq<Entry>, ch: seq<nat>, i: nat)
    requires i < 32 * |ch| && ch[i / 32] < |es|
    ensures |Bytes(es, ch)| == 32 * |ch| && Bytes(es, ch)[i] == es[ch[i / 32]].key[i % 32]
  {
    var k := i / 32;
    BytesAt(es, ch, k);
    hide Bytes;
    assert Bytes(es, ch)[k * PART..(k + 1) * PART][i - k * PART] == Bytes(es, ch)[i];
  }

  /** A cleared entry is all zeros. */
  lemma ClearedIs()
    ensures !Cleared().isUsed && Cleared().next == 0 && forall i :: 0 <= i < 32 ==> Cleared().key[i] == 0
  {
  }

  /** The number of parts a key of the given size takes. */
  function Parts(size: nat): nat { (size + PART - 1) / PART }

  lemma NextFree(es: seq<Entry>, i: nat)
    requires i < |es|
    ensures FreeFrom(es, i) == if es[i].isUsed then FreeFrom(es, i + 1) else [i] + FreeFrom(es, i + 1)
  {
  }

  lemma NothingFree(es: seq<Entry>)
    ensures FreeFrom(es, |es|) == []
  {
  }

  /** es' differs from es in the entries of ch only, and these hold no key yet. */
  ghost predicate OnlyClaimed(es: seq<Entry>, es': seq<Entry>, ch: seq<nat>) {
    |es| == |es'| && forall e: nat :: e < |es| ==> if e in ch then es'[e].key == NoKey() else es'[e] == es[e]
  }

  lemma NothingClaimed(es: seq<Entry>)
    ensures OnlyClaimed(es, es, [])
  {
  }

  predicate AllBelow(ch: seq<nat>, n: nat) { forall i :: 0 <= i < |ch| ==> ch[i] < n }

  lemma AllBelowMore(ch: seq<nat>, n: nat)
    ensures AllBelow([], n)
    ensures AllBelow(ch, n) ==> AllBelow(ch, n + 1) && AllBelow(ch + [n], n + 1)
  {
  }

  lemma OneMore(es: seq<Entry>, now: seq<Entry>, ch: seq<nat>, cur: nat)
    requires OnlyClaimed(es, now, ch) && cur < |es| && AllBelow(ch, cur)
    ensures |now| == |es| && now[cur] == es[cur] && (ch != [] ==> ch[|ch| - 1] < |es|)
    ensures OnlyClaimed(es, Appended(now, ch, cur), ch + [cur])
  {
    Below(ch, cur);
    InLonger(ch, cur);
    if ch != [] { assert ch[|ch| - 1] in ch; }
  }

  lemma Below(ch: seq<nat>, cur: nat)
    requires forall i :: 0 <= i < |ch| ==> ch[i] < cur
    ensures cur !in ch
  {
  }

  lemma InLonger(ch: seq<nat>, cur: nat)
    ensures forall e: nat :: e in ch + [cur] <==> e in ch || e == cur
  {
  }

  /** ch is a chain from head to previous, or empty. */
  ghost predicate Linked(es: seq<Entry>, ch: seq<nat>, head: int, previous: int) {
    if ch == [] then previous == -1 == head else head == ch[0] && previous == ch[|ch| - 1] && IsChain(es, ch)
  }

  lemma LinkedNone(es: seq<Entry>)
    ensures Linked(es, [], -1, -1)
  {
  }

  lemma LinkedChain(es: seq<Entry>, ch: seq<nat>, head: int, previous: int)
    requires Linked(es, ch, head, previous)
    ensures if ch == [] then head == -1 else head == ch[0] && IsChain(es, ch)
  {
  }

  /** ch are the first of the free entries f, those before cur. */
  predicate Scanned(es: seq<Entry>, f: seq<nat>, ch: seq<nat>, cur: nat)
    requires cur <= |es|
  {
    f == ch + FreeFrom(es, cur)
  }

  lemma ScannedNone(es: seq<Entry>)
    ensures Scanned(es, FreeFrom(es, 0), [], 0)
  {
  }

  lemma ScannedMore(es: seq<Entry>, f: seq<nat>, ch: seq<nat>, cur: nat)
    requires cur < |es| && Scanned(es, f, ch, cur)
    ensures if es[cur].isUsed then Scanned(es, f, ch, cur + 1) else Scanned(es, f, ch + [cur], cur + 1)
  {
    hide FreeFrom;
    NextFree(es, cur);
    Regroup(ch, cur, FreeFrom(es, cur + 1));
  }

  lemma ScannedSoFar(es: seq<Entry>, f: seq<nat>, ch: seq<nat>, cur: nat)
    requires cur <= |es| && Scanned(es, f, ch, cur)
    ensures ch <= f && (cur == |es| ==> ch == f)
  {
    hide FreeFrom;
    NothingFree(es);
  }

  lemma Regroup(a: seq<nat>, x: nat, b: seq<nat>)
    ensures a + ([x] + b) == (a + [x]) + b
  {
  }

  lemma LastOf(es: seq<Entry>, ch: seq<nat>)
    requires ch != [] ==> IsChain(es, ch)
    ensures ch != [] ==> ch[|ch| - 1] < |es|
  {
  }

  /** The entries after cur was claimed and linked behind ch. */
  function Appended(es: seq<Entry>, ch: seq<nat>, cur: nat): seq<Entry>
    requires cur < |es| && (ch != [] ==> ch[|ch| - 1] < |es|)
  {
    var es' := es[cur := Entry(true, NoKey(), 0)];
    if ch == [] then es' else es'[ch[|ch| - 1] := es'[ch[|ch| - 1]].(next := cur)]
  }

  lemma AppendedChain(es: seq<Entry>, ch: seq<nat>, cur: nat)
    requires cur < |es| && (ch != [] ==> IsChain(es, ch)) && AllBelow(ch, cur)
    ensures ch != [] ==> ch[|ch| - 1] < |es|
    ensures IsChain(Appended(es, ch, cur), ch + [cur])
  {
    LastOf(es, ch);
    var long, es' := ch + [cur], Appended(es, ch, cur);
    forall i: nat | i < |long|
      ensures long[i] < |es'| && es'[long[i]].isUsed && es'[long[i]].next == NextIn(long, i)
    {
      AppendedLink(es, ch, cur, i);
    }
    AppendedRises(ch, cur);
    hide NextIn, Appended;
  }

  lemma AppendedRises(ch: seq<nat>, cur: nat)
    requires forall i, j :: 0 <= i < j < |ch| ==> ch[i] < ch[j]
    requires forall i :: 0 <= i < |ch| ==> ch[i] < cur
    ensures forall i, j :: 0 <= i < j < |ch + [cur]| ==> (ch + [cur])[i] < (ch + [cur])[j]
  {
  }

  lemma AppendedLink(es: seq<Entry>, ch: seq<nat>, cur: nat, i: nat)
    requires cur < |es| && i <= |ch| && (ch != [] ==> IsChain(es, ch)) && forall k :: 0 <= k < |ch| ==> ch[k] < cur
    ensures ch != [] ==> ch[|ch| - 1] < |es|
    ensures var e := Appended(es, ch, cur)[(ch + [cur])[i]]; e.isUsed && e.next == NextIn(ch + [cur], i)
  {
    LastOf(es, ch);
    if i < |ch| {
      assert es[ch[i]].next == NextIn(ch, i) && es[ch[i]].isUsed;
      if i + 1 < |ch| { assert ch[i] < ch[|ch| - 1]; }
    }
    hide IsChain;
  }

  lemma PartsOf(size: nat, k: nat)
    ensures k * PART >= size && (k == 0 || k * PART < size + PART) ==> k == Parts(size)
    ensures k * PART < size <==> k < Parts(size)
    ensures size > 0 ==> Parts(size) * PART - PART < size <= Parts(size) * PART
  {
  }

  /** Keys are in chains of their own, every entry in use belongs to one, and the others are
      cleared. Only the fixed handles may name entry 0 without holding a key. */
  ghost predicate Good(es: seq<Entry>, hs: seq<Handle>, chains: map<nat, seq<nat>>) {
    && |es| == ENTRIES && |hs| == HANDLES
    && (forall h: nat :: h in chains ==> h < HANDLES && hs[h].isUsed && IsChain(es, chains[h]) && hs[h].index == chains[h][0])
    && (forall h: nat :: h < HANDLES && hs[h].isUsed && h !in chains ==> hs[h].index == -1 || (hs[h].index == 0 && h < CUSTOM_START))
    && Disjoint(chains)
    && AllOwned(es, chains)
  }

  ghost predicate Disjoint(chains: map<nat, seq<nat>>) {
    forall g: nat, h: nat :: g in chains && h in chains && g != h ==> !Meet(chains[g], chains[h])
  }

  ghost predicate AllOwned(es: seq<Entry>, chains: map<nat, seq<nat>>) {
    |es| == ENTRIES && forall e: nat :: e < ENTRIES ==> if es[e].isUsed then Owned(chains, e) else es[e] == Cleared()
  }

  ghost predicate Meet(a: seq<nat>, b: seq<nat>) { exists e :: e in a && e in b }

  ghost predicate Owned(chains: map<nat, seq<nat>>, e: nat) { exists h :: h in chains && e in chains[h] }

  lemma InChain(es: seq<Entry>, ch: seq<nat>, i: nat)
    requires IsChain(es, ch) && i < |ch|
    ensures ch[i] < |es| && es[ch[i]].isUsed && es[ch[i]].next == NextIn(ch, i)
    ensures ch[i] in ch
  {
  }

  lemma ChainFrame(es: seq<Entry>, es': seq<Entry>, ch: seq<nat>)
    requires IsChain(es, ch) && |es'| == |es|
    requires forall i: nat :: i < |ch| ==> es'[ch[i]].isUsed == es[ch[i]].isUsed && es'[ch[i]].next == es[ch[i]].next
    ensures IsChain(es', ch)
  {
  }

  /** A chain that shares no entry with the changed ones is as it was, with its bytes. */
  lemma KeptChain(es: seq<Entry>, es': seq<Entry>, ch: seq<nat>, changed: seq<nat>)
    requires IsChain(es, ch) && !Meet(ch, changed) && |es'| == |es|
    requires forall e: nat :: e < |es| && e !in changed ==> es'[e] == es[e]
    ensures IsChain(es', ch) && Bytes(es', ch) == Bytes(es, ch)
  {
    forall i: nat | i < |ch|
      ensures ch[i] < |es| && es'[ch[i]] == es[ch[i]]
    {
      InChain(es, ch, i);
    }
    ChainFrame(es, es', ch);
    BytesFrame(es, es', ch);
  }

  lemma FreeMeetsNone(es: seq<Entry>, ch: seq<nat>, free: seq<nat>)
    requires IsChain(es, ch) && forall e: nat :: e in free ==> e < |es| && !es[e].isUsed
    ensures !Meet(ch, free) && !Meet(free, ch)
  {
    forall e: nat | e in ch
      ensures e < |es| && es[e].isUsed
    {
      var i: nat :| i < |ch| && ch[i] == e;
      InChain(es, ch, i);
    }
  }

  lemma OwnedMore(chains: map<nat, seq<nat>>, h: nat, ch: seq<nat>, e: nat)
    requires h !in chains && (Owned(chains, e) || e in ch)
    ensures Owned(chains[h := ch], e)
  {
    if e in ch {
      assert e in chains[h := ch][h];
    } else {
      var g: nat :| g in chains && e in chains[g];
      assert chains[h := ch][g] == chains[g];
    }
  }

  /** A new chain of entries that were free. */
  lemma GoodAdd(es: seq<Entry>, hs: seq<Handle>, chains: map<nat, seq<nat>>, es': seq<Entry>, h: nat, ch: seq<nat>)
    requires Good(es, hs, chains) && h < HANDLES && !hs[h].isUsed
    requires OnlyClaimed(es, es', ch) && IsChain(es', ch)
    requires forall e: nat :: e in ch ==> e < |es| && !es[e].isUsed
    ensures Good(es', hs[h := Handle(true, ch[0])], chains[h := ch]) && h !in chains
    ensures forall g: nat :: g in chains ==> Bytes(es', chains[g]) == Bytes(es, chains[g])
  {
    hide IsChain, Meet, Owned, Bytes, NoKey;
    forall g: nat | g in chains
      ensures IsChain(es', chains[g]) && !Meet(chains[g], ch) && !Meet(ch, chains[g]) && Bytes(es', chains[g]) == Bytes(es, chains[g])
    {
      FreeMeetsNone(es, chains[g], ch);
      KeptChain(es, es', chains[g], ch);
    }
    forall e: nat | e < ENTRIES
      ensures if es'[e].isUsed then Owned(chains[h := ch], e) else es'[e] == Cleared()
    {
      UsedInChain(es', ch, e);
      if es'[e].isUsed { OwnedMore(chains, h, ch, e); }
    }
  }

  lemma UsedInChain(es: seq<Entry>, ch: seq<nat>, e: nat)
    requires IsChain(es, ch) && e < |es|
    ensures e in ch ==> es[e].isUsed
  {
    if e in ch {
      var i: nat :| i < |ch| && ch[i] == e;
      InChain(es, ch, i);
    }
  }

  /** The entries of one chain cleared and its handle given back. */
  lemma GoodRemove(es: seq<Entry>, hs: seq<Handle>, chains: map<nat, seq<nat>>, es': seq<Entry>, h: nat)
    requires Good(es, hs, chains) && h in chains && |es'| == |es|
    requires forall e: nat :: e < |es| ==> es'[e] == if e in chains[h] then Cleared() else es[e]
    ensures Good(es', hs[h := hs[h].(isUsed := false)], chains - {h})
    ensures forall g: nat :: g in chains && g != h ==> Bytes(es', chains[g]) == Bytes(es, chains[g])
  {
    hide IsChain, Meet, Owned, Bytes, NoKey;
    forall g: nat | g in chains && g != h
      ensures IsChain(es', chains[g]) && Bytes(es', chains[g]) == Bytes(es, chains[g])
    {
      hide AllOwned;
      KeptChain(es, es', chains[g], chains[h]);
    }
    RemovedOwned(es, chains, es', h);
    RemovedDisjoint(chains, h);
    hide Disjoint, AllOwned;
    var hs', left := hs[h := hs[h].(isUsed := false)], chains - {h};
    forall g: nat | g in left
      ensures g < HANDLES && hs'[g].isUsed && IsChain(es', left[g]) && left[g] != [] && hs'[g].index == left[g][0]
    {
      assert g in chains && left[g] == chains[g] && hs'[g] == hs[g];
      FirstOf(es', left[g]);
    }
    forall g: nat | g < HANDLES && hs'[g].isUsed && g !in left
      ensures hs'[g].index == -1 || (hs'[g].index == 0 && g < CUSTOM_START)
    {
      assert g != h && g !in chains && hs'[g] == hs[g];
    }
  }

  lemma RemovedOwned(es: seq<Entry>, chains: map<nat, seq<nat>>, es': seq<Entry>, h: nat)
    requires AllOwned(es, chains) && h in chains && |es'| == |es|
    requires forall e: nat :: e < |es| ==> es'[e] == if e in chains[h] then Cleared() else es[e]
    ensures AllOwned(es', chains - {h})
  {
    hide Owned, NoKey;
    forall e: nat | e < ENTRIES
      ensures if es'[e].isUsed then Owned(chains - {h}, e) else es'[e] == Cleared()
    {
      if es'[e].isUsed { OwnedLess(chains, h, e); }
    }
  }

  lemma RemovedDisjoint(chains: map<nat, seq<nat>>, h: nat)
    requires Disjoint(chains)
    ensures Disjoint(chains - {h})
  {
    hide Meet;
    forall g: nat, k: nat | g in chains - {h} && k in chains - {h} && g != k
      ensures !Meet((chains - {h})[g], (chains - {h})[k])
    {
      assert !Meet(chains[g], chains[k]);
    }
  }

  lemma OwnedLess(chains: map<nat, seq<nat>>, h: nat, e: nat)
    requires h in chains && Owned(chains, e) && e !in chains[h]
    ensures Owned(chains - {h}, e)
  {
    var g: nat :| g in chains && e in chains[g];
    assert (chains - {h})[g] == chains[g];
  }

  /** An unused handle holds no chain; it can be taken without one, or left with any index. */
  lemma GoodBare(es: seq<Entry>, hs: seq<Handle>, chains: map<nat, seq<nat>>, h: nat, index: int)
    requires Good(es, hs, chains) && h < |hs| && !hs[h].isUsed
    ensures h !in chains
    ensures Good(es, hs[h := Handle(true, -1)], chains) && Good(es, hs[h := Handle(false, index)], chains)
  {
    hide IsChain, Disjoint, AllOwned;
  }

  /** New key bytes in the entries of one chain. */
  lemma GoodKeys(es: seq<Entry>, hs: seq<Handle>, chains: map<nat, seq<nat>>, es': seq<Entry>, h: nat)
    requires Good(es, hs, chains) && h in chains && |es'| == |es|
    requires SameLinks(es, es', chains[h])
    ensures Good(es', hs, chains)
    ensures forall g: nat :: g in chains && g != h ==> Bytes(es', chains[g]) == Bytes(es, chains[g])
  {
    hide IsChain, Meet, Owned, Bytes, NoKey;
    forall g: nat | g in chains && g != h
      ensures IsChain(es', chains[g]) && Bytes(es', chains[g]) == Bytes(es, chains[g])
    {
      KeptChain(es, es', chains[g], chains[h]);
    }
    LinksKept(es, es', chains[h]);
    forall e: nat | e < ENTRIES
      ensures if es'[e].isUsed then Owned(chains, e) else es'[e] == Cleared()
    {
      UsedInChain(es, chains[h], e);
    }
  }

  lemma LinksKept(es: seq<Entry>, es': seq<Entry>, ch: seq<nat>)
    requires IsChain(es, ch) && |es'| == |es|
    requires forall e: nat :: e < |es| ==> es'[e].isUsed == es[e].isUsed && es'[e].next == es[e].next
    ensures IsChain(es', ch)
  {
  }

  class Keyring {
    const entries: array<Entry>
    const handles: array<Handle>
    // The entries of each handle that holds a key.
    ghost var chains: map<nat, seq<nat>>

    ghost predicate Shape()
    {
      entries.Length == ENTRIES && handles.Length == HANDLES
    }

    ghost predicate Valid()
      reads this, entries, handles
    {
      Shape() && Good(entries[..], handles[..], chains)
    }

    /** The bytes of the key a handle holds, in whole parts. */
    ghost function KeyBytes(h: nat): seq<Byte>
      reads this, entries, handles
      requires Valid() && h in chains
    {
      Bytes(entries[..], chains[h])
    }

    /** Claim and link free entries from the first on, until they hold size bytes or none is left. */
    method ClaimParts(size: nat) returns (ret: int, running: nat, ghost ch: seq<nat>)
      requires Shape()
      modifies entries
      ensures running == |ch| * PART && (ch == [] || running < size + PART)
      ensures var f := old(FreeFrom(entries[..], 0)); ch <= f && (running < size ==> ch == f)
      ensures if ch == [] then ret == -1 else ret == ch[0] && IsChain(entries[..], ch)
      ensures OnlyClaimed(old(entries[..]), entries[..], ch)
    {
      hide IsChain, FreeFrom, NoKey, OnlyClaimed, Appended, AllBelow, Scanned, Linked;
      ghost var es := entries[..];
      ghost var f := FreeFrom(es, 0);
      ScannedNone(es);
      NothingClaimed(es);
      AllBelowMore([], 0);
      LinkedNone(es);
      var previous: int, cur: nat := -1, 0;
      ret, running, ch := -1, 0, [];
      while cur < ENTRIES && running < size
        invariant cur <= ENTRIES && running == |ch| * PART && (ch == [] || running < size + PART)
        invariant Scanned(es, f, ch, cur)
        invariant Linked(entries[..], ch, ret, previous)
        invariant AllBelow(ch, cur)
        invariant OnlyClaimed(es, entries[..], ch)
      {
        ScannedMore(es, f, ch, cur);
        OneMore(es, entries[..], ch, cur);
        AllBelowMore(ch, cur);
        if entries[cur].isUsed {
          cur := cur + 1;
          continue;
        }
        Claim(previous, cur, ch, ret);
        if running == 0 { ret := cur; }
        ch := ch + [cur];
        previous := cur;
        running := running + PART;
        cur := cur + 1;
      }
      ScannedSoFar(es, f, ch, cur);
      LinkedChain(entries[..], ch, ret, previous);
    }

    /** Claim and link as many free entries as a key needs; all or none. */
    method GetKeyIndexFitSize(size: nat) returns (ret: int, ghost ch: seq<nat>)
      requires Valid() && (size > 0 ==> FreeFrom(entries[..], 0) != [])
      modifies entries
      ensures var f := old(FreeFrom(entries[..], 0)); ch == if Parts(size) <= |f| then f[..Parts(size)] else []
      ensures ch == [] ==> ret == (if size == 0 then -1 else -2013) && entries[..] == old(entries[..])
      ensures ch != [] ==> ret == ch[0] && IsChain(entries[..], ch) && |ch| * 32 - 32 < size <= |ch| * 32
      ensures ch == [] && size > 0 ==> |old(FreeFrom(entries[..], 0))| * 32 < size
      ensures OnlyClaimed(old(entries[..]), entries[..], ch)
    {
      hide IsChain, FreeFrom, NoKey, Owned, Meet;
      ghost var es := entries[..];
      var running;
      ret, running, ch := ClaimParts(size);
      PartsOf(size, |ch|);
      if running < size {
        Rollback(ret, ch);
        assert forall e: nat :: e < ENTRIES && e in ch ==> !es[e].isUsed;
        assert entries[..] == es;
        ret, ch := FAIL_ALLOC, [];
      }
    }

    /** Claim one entry and link it behind the previous one, if there is one. */
    method Claim(previous: int, cur: nat, ghost ch: seq<nat>, ghost head: int)
      requires Shape() && cur < ENTRIES && AllBelow(ch, cur)
      requires Linked(entries[..], ch, head, previous)
      modifies entries
      ensures ch != [] ==> ch[|ch| - 1] < ENTRIES
      ensures Linked(entries[..], ch + [cur], if ch == [] then cur else head, cur) && entries[..] == Appended(old(entries[..]), ch, cur)
    {
      hide IsChain, NoKey;
      ghost var es := entries[..];
      LastOf(es, ch);
      entries[cur] := Entry(true, NoKey(), 0);
      if previous >= 0 {
        entries[previous] := entries[previous].(next := cur);
      }
      assert entries[..] == Appended(es, ch, cur);
      AppendedChain(es, ch, cur);
    }

    /** Give a chain of claimed entries back. */
    method Rollback(head: nat, ghost ch: seq<nat>)
      requires Shape() && IsChain(entries[..], ch) && head == ch[0]
      modifies entries
      ensures forall e: nat :: e < ENTRIES ==> entries[e] == if e in ch then Cleared() else old(entries[e])
    {
      hide IsChain, NoKey;
      ghost var es := entries[..];
      FirstOf(es, ch);
      var index := head;
      ghost var k := 0;
      while true
        invariant k < |ch| && index == ch[k]
        invariant forall e: nat :: e < ENTRIES ==> entries[e] == if e in ch[..k] then Cleared() else es[e]
        decreases |ch| - k
      {
        InChain(es, ch, k);
        LastLink(es, ch, k);
        Walked(es, ch, k);
        var current := index;
        index := entries[current].next;
        entries[current] := Cleared();
        k := k + 1;
        if index == 0 { return; }
      }
    }

    constructor ()
      ensures Valid() && chains == map[]
      ensures entries.Length == 64 && handles.Length == 32
      ensures fresh(entries) && fresh(handles)
    {
      entries := new Entry[ENTRIES](_ => Cleared());
      handles := new Handle[HANDLES](_ => Handle(false, 0));
      chains := map[];
    }

    /** The first handle that is not used. */
    method FirstUnused() returns (h: nat)
      requires Shape()
      ensures h <= HANDLES && (forall i: nat :: i < h ==> handles[i].isUsed) && (h < HANDLES ==> !handles[h].isUsed)
    {
      h := 0;
      while h < HANDLES && handles[h].isUsed
        invariant h <= HANDLES && forall i: nat :: i < h ==> handles[i].isUsed
      {
        h := h + 1;
      }
    }

    /** Take the first unused handle, with room for a key of the given size. */
    method GetHandleFitSize(size: nat) returns (ans: Answer, h: nat)
      requires Valid() && (size > 0 ==> FreeFrom(entries[..], 0) != [])
      modifies this, entries, handles
      ensures Valid()
      ensures ans == if h < 32 && size <= |old(FreeFrom(entries[..], 0))| * 32 then Success else NoRoom
      ensures h <= 32 && (forall i: nat :: i < h ==> old(handles[i]).isUsed) && (h < 32 ==> !old(handles[h]).isUsed)
      ensures ans.NoRoom? ==> chains == old(chains) && entries[..] == old(entries[..])
      ensures ans.Success? ==>
                && h !in old(chains) && handles[h].isUsed
                && (size == 0 ==> chains == old(chains))
                && (size > 0 ==> h in chains && chains == old(chains)[h := chains[h]] && |chains[h]| * 32 - 32 < size <= |chains[h]| * 32)
      ensures forall g: nat :: g in old(chains) ==> g in chains && KeyBytes(g) == old(KeyBytes(g))
    {
      hide IsChain, Meet, Owned, Bytes, NoKey, FreeFrom, OnlyClaimed, Good;
      h := FirstUnused();
      ghost var hs := handles[..];
      if h == HANDLES { return NoRoom, h; }
      GoodBare(entries[..], hs, chains, h, size);
      if size == 0 {
        handles[h] := Handle(true, -1);
        assert handles[..] == hs[h := Handle(true, -1)];
        return Success, h;
      }
      ghost var es := entries[..];
      var index;
      ghost var ch;
      index, ch := GetKeyIndexFitSize(size);
      PartsOf(size, 0);
      if index < 0 {
        GoodBare(es, hs, chains, h, index);
        handles[h] := Handle(false, index);
        assert handles[..] == hs[h := Handle(false, index)];
        return NoRoom, h;
      }
      handles[h] := Handle(true, index);
      assert handles[..] == hs[h := Handle(true, index)];
      GoodAdd(es, hs, chains, entries[..], h, ch);
      chains := chains[h := ch];
      return Success, h;
    }

    /** The handle whose key begins where handle h points. */
    ghost predicate Names(h: nat, g: nat)
      reads this, handles
      requires Shape()
    {
      h < HANDLES && handles[h].isUsed && g in chains && chains[g] != [] && handles[h].index == chains[g][0]
    }

    /** A handle leads to a key exactly if its index is that of an entry in use. */
    lemma FindKey(h: nat) returns (g: nat)
      requires Valid() && h < HANDLES && handles[h].isUsed
      ensures 0 <= handles[h].index < ENTRIES && entries[handles[h].index].isUsed ==> Names(h, g)
      ensures (exists k: nat :: Names(h, k)) ==> 0 <= handles[h].index < ENTRIES && entries[handles[h].index].isUsed
      ensures h in chains ==> g == h && Names(h, h)
    {
      g := h;
      forall k: nat | Names(h, k)
        ensures 0 <= handles[h].index < ENTRIES && entries[handles[h].index].isUsed
      {
        InChain(entries[..], chains[k], 0);
      }
      if h in chains {
        InChain(entries[..], chains[h], 0);
      } else if handles[h].index == 0 && entries[..][0].isUsed {
        assert Owned(chains, 0);
        g :| g in chains && 0 in chains[g];
        FirstIsLeast(entries[..], chains[g]);
      }
    }

    /** Store a key, part after part, as far as the chain reaches. */
    method SetKey(h: nat, data: seq<Byte>) returns (ans: Answer, ghost g: nat)
      requires Valid()
      modifies entries
      ensures Valid()
      ensures ans == if exists k: nat :: Names(h, k) then Success else Invalid
      ensures h in chains ==> ans.Success? && g == h
      ensures ans.Invalid? ==> entries[..] == old(entries[..])
      ensures ans.Success? ==>
                && Names(h, g)
                && |KeyBytes(g)| == |old(KeyBytes(g))|
                && (forall i :: 0 <= i < |KeyBytes(g)| ==> KeyBytes(g)[i] == if i < |data| then data[i] else old(KeyBytes(g))[i])
                && (forall k: nat :: k in chains && k != g ==> KeyBytes(k) == old(KeyBytes(k)))
    {
      hide Meet, Owned, Bytes, NoKey, IsChain, Good;
      ans, g := Invalid, 0;
      if h >= HANDLES || !handles[h].isUsed { NoSuchHandle(h); return; }
      g := FindKey(h);
      var index := handles[h].index;
      if index < 0 || index >= ENTRIES || !entries[index].isUsed { return; }
      ChainOf(g);
      StoreParts(index, data, chains[g]);
      GoodKeys(old(entries[..]), handles[..], chains, entries[..], g);
      OverwrittenAt(old(KeyBytes(g)), data);
      hide Overwritten;
      ans := Success;
      assert Names(h, g);
    }

    /** Fetch the first size bytes of a key, or all of its chain if that is less. */
    method GetKey(h: nat, size: nat) returns (ans: Answer, data: seq<Byte>, ghost g: nat)
      requires Valid()
      ensures ans == if exists k: nat :: Names(h, k) then Success else Invalid
      ensures h in chains ==> ans.Success? && g == h
      ensures ans.Invalid? ==> data == []
      ensures ans.Success? ==> Names(h, g) && data == (if size <= |KeyBytes(g)| then KeyBytes(g)[..size] else KeyBytes(g))
    {
      hide Meet, Owned, Bytes, NoKey, IsChain, Good;
      ans, data, g := Invalid, [], 0;
      if h >= HANDLES || !handles[h].isUsed { NoSuchHandle(h); return; }
      g := FindKey(h);
      var index := handles[h].index;
      if index < 0 || index >= ENTRIES || !entries[index].isUsed { return; }
      ChainOf(g);
      data := FetchParts(index, size, chains[g]);
      ans := Success;
      assert Names(h, g);
    }

    /** The loop of Keyring_GetKey. */
    method FetchParts(head: nat, size: nat, ghost ch: seq<nat>) returns (data: seq<Byte>)
      requires Shape() && IsChain(entries[..], ch) && head == ch[0]
      ensures var b := Bytes(entries[..], ch); data == if size <= |b| then b[..size] else b
    {
      hide Bytes, NoKey, IsChain;
      ghost var es, b := entries[..], Bytes(entries[..], ch);
      var index := head;
      ghost var k: nat := 0;
      data := [];
      FirstOf(es, ch);
      while true
        invariant k < |ch| && index == ch[k] && k * PART <= |b|
        invariant data == if k * PART < size then b[..k * PART] else b[..size]
        decreases |ch| - k
      {
        InChain(es, ch, k);
        BytesAt(es, ch, k);
        var n := if size - |data| <= PART then size - |data| else PART;
        FetchedPart(b, size, k, |data|, n);
        data := data + entries[index].key[..n];
        index := entries[index].next;
        LastLink(es, ch, k);
        k := k + 1;
        if index == 0 { return; }
      }
    }

    /** Give a key's entries and its handle back. */
    method DeleteKeyringEntry(h: nat) returns (ans: Answer)
      requires Valid()
      requires h < HANDLES && handles[h].isUsed ==> h in chains || handles[h].index == -1
      modifies this, entries, handles
      ensures Valid()
      ensures ans == if h < HANDLES && old(handles[h]).isUsed then Success else Invalid
      ensures ans.Invalid? ==> handles[..] == old(handles[..])
      ensures ans.Success? ==> handles[..] == old(handles[..])[h := handles[h]] && !handles[h].isUsed
      ensures chains == if ans.Success? then old(chains) - {h} else old(chains)
      ensures forall e: nat :: e < ENTRIES ==> entries[e] == if h in old(chains) && e in old(chains)[h] then Cleared() else old(entries[e])
      ensures forall g: nat :: g in chains ==> KeyBytes(g) == old(KeyBytes(g))
    {
      hide IsChain, Meet, Owned, Bytes, NoKey;
      if h >= HANDLES || !handles[h].isUsed { return Invalid; }
      ghost var es, hs := entries[..], handles[..];
      handles[h] := handles[h].(isUsed := false);
      var index := handles[h].index;
      if index == -1 {
        if h in chains { FirstOf(es, chains[h]); }
        return Success;
      }
      FirstOf(es, chains[h]);
      if index >= ENTRIES { return Invalid; }
      ReleaseParts(index, chains[h]);
      GoodRemove(es, hs, chains, entries[..], h);
      chains := chains - {h};
      return Success;
    }

    /** The loop of IOSC_DeleteKeyringEntry. */
    method ReleaseParts(head: nat, ghost ch: seq<nat>)
      requires Shape() && IsChain(entries[..], ch) && head == ch[0]
      modifies entries
      ensures forall e: nat :: e < ENTRIES ==> entries[e] == if e in ch then Cleared() else old(entries[e])
    {
      hide IsChain, NoKey;
      ghost var es := entries[..];
      FirstOf(es, ch);
      var index := head;
      ghost var k := 0;
      while index < ENTRIES
        invariant k < |ch| && index == ch[k] && index < ENTRIES
        invariant forall e: nat :: e < ENTRIES ==> entries[e] == if e in ch[..k] then Cleared() else es[e]
        decreases |ch| - k
      {
        InChain(es, ch, k);
        Walked(es, ch, k);
        if !entries[index].isUsed { assert false; return; }
        var next := entries[index].next;
        entries[index] := Cleared();
        LastLink(es, ch, k);
        k := k + 1;
        index := next;
        if index == 0 { break; }
        InChain(es, ch, k);
      }
    }

    /** Only keys that were made for a caller can be deleted. */
    method DeleteCustomKey(h: nat) returns (ans: Answer)
      requires Valid()
      modifies this, entries, handles
      ensures Valid()
      ensures ans == if h < 12 || h == 0x0FFF_FFFF then NoAccess else if h < 32 && old(handles[h]).isUsed then Success else NoRoom
      ensures chains == if ans.Success? then old(chains) - {h} else old(chains)
      ensures forall e: nat :: e < ENTRIES ==>
                entries[e] == if ans.Success? && h in old(chains) && e in old(chains)[h] then Cleared() else old(entries[e])
      ensures forall g: nat :: g in chains ==> KeyBytes(g) == old(KeyBytes(g))
    {
      hide IsChain, Meet, Owned, Bytes, NoKey;
      if h < CUSTOM_START { return NoAccess; }
      if h == ROOT_KEY { return NoAccess; }
      ans := DeleteKeyringEntry(h);
      if !ans.Success? { ans := NoRoom; }
    }

    lemma NoSuchHandle(h: nat)
      requires Valid() && (h >= HANDLES || !handles[h].isUsed)
      ensures h !in chains && forall k: nat :: !Names(h, k)
    {
    }

    lemma ChainOf(g: nat)
      requires Valid() && g in chains
      ensures IsChain(entries[..], chains[g])
    {
    }

    /** The loop of Keyring_SetKey. */
    method StoreParts(head: nat, data: seq<Byte>, ghost ch: seq<nat>)
      requires Shape() && IsChain(entries[..], ch) && head == ch[0]
      modifies entries
      ensures SameLinks(old(entries[..]), entries[..], ch)
      ensures Bytes(entries[..], ch) == Overwritten(old(Bytes(entries[..], ch)), data)
    {
      hide Bytes, NoKey, IsChain, Overwritten, SameLinks, PartsDone;
      ghost var es, b := entries[..], Bytes(entries[..], ch);
      ghost var w := Overwritten(b, data);
      var index, copied: nat := head, 0;
      ghost var k: nat := 0;
      FirstOf(es, ch);
      BytesAt(es, ch, 0);
      NoPartsDone(es, ch, w);
      while true
        invariant k < |ch| && index == ch[k] && copied == if k * PART < |data| then k * PART else |data|
        invariant SameLinks(es, entries[..], ch) && PartsDone(es, entries[..], ch, w, k)
        decreases |ch| - k
      {
        InChain(es, ch, k);
        OnePart(es, entries[..], ch, w, k);
        var n := if |data| - copied <= PART then |data| - copied else PART;
        BytesAt(es, ch, k);
        PartOverwritten(b, data, k, copied, n);
        ghost var before := entries[..];
        entries[index] := entries[index].(key := data[copied..copied + n] + entries[index].key[n..]);
        assert entries[..] == before[ch[k] := before[ch[k]].(key := PartOf(w, k))];
        PartDone(es, before, ch, w, k);
        copied := copied + n;
        index := entries[index].next;
        k := k + 1;
        if index == 0 {
          LastLink(es, ch, k - 1);
          AllPartsDone(es, entries[..], ch, w);
          return;
        }
        LastLink(es, ch, k - 1);
      }
    }
  }

  /** es' has the links of es, and outside ch its keys. */
  ghost predicate SameLinks(es: seq<Entry>, es': seq<Entry>, ch: seq<nat>) {
    && |es| == |es'|
    && forall e: nat :: e < |es| ==> if e in ch then es'[e].isUsed == es[e].isUsed && es'[e].next == es[e].next else es'[e] == es[e]
  }

  /** Part j of a string of bytes. */
  function PartOf(w: seq<Byte>, j: nat): Part { if (j + 1) * PART <= |w| then w[j * PART..(j + 1) * PART] else NoKey() }

  /** The first k parts of a chain are those of w, the others as in es. */
  ghost predicate PartsDone(es: seq<Entry>, es': seq<Entry>, ch: seq<nat>, w: seq<Byte>, k: nat) {
    && k <= |ch| && |w| == |ch| * PART
    && (forall j: nat :: j < k ==> PartAt(es', ch[j]) == PartOf(w, j))
    && (forall j: nat :: k <= j < |ch| ==> PartAt(es', ch[j]) == PartAt(es, ch[j]))
  }

  lemma NoPartsDone(es: seq<Entry>, ch: seq<nat>, w: seq<Byte>)
    requires |w| == |ch| * PART
    ensures SameLinks(es, es, ch) && PartsDone(es, es, ch, w, 0)
  {
    hide PartAt;
  }

  /** The entry that holds part k is still the one of es. */
  lemma OnePart(es: seq<Entry>, es': seq<Entry>, ch: seq<nat>, w: seq<Byte>, k: nat)
    requires IsChain(es, ch) && SameLinks(es, es', ch) && PartsDone(es, es', ch, w, k) && k < |ch|
    ensures ch[k] < |es'| && es'[ch[k]] == es[ch[k]]
  {
    hide IsChain;
    InChain(es, ch, k);
    assert ch[k] in ch && PartAt(es', ch[k]) == PartAt(es, ch[k]);
  }

  lemma PartDone(es: seq<Entry>, es': seq<Entry>, ch: seq<nat>, w: seq<Byte>, k: nat)
    requires IsChain(es, ch) && k < |ch| && ch[k] < |es'|
    requires SameLinks(es, es', ch) && PartsDone(es, es', ch, w, k)
    ensures SameLinks(es, es'[ch[k] := es'[ch[k]].(key := PartOf(w, k))], ch)
    ensures PartsDone(es, es'[ch[k] := es'[ch[k]].(key := PartOf(w, k))], ch, w, k + 1)
  {
    hide NextIn;
    OthersApart(es, ch, k);
    hide IsChain, NoKey, PartOf;
    assert ch[k] in ch;
  }

  lemma AllPartsDone(es: seq<Entry>, es': seq<Entry>, ch: seq<nat>, w: seq<Byte>)
    requires PartsDone(es, es', ch, w, |ch|)
    ensures Bytes(es', ch) == w
  {
    hide Bytes, PartAt;
    BytesFromParts(es', ch, w);
  }

  lemma FirstOf(es: seq<Entry>, ch: seq<nat>)
    requires IsChain(es, ch)
    ensures |ch| > 0 && ch[0] < |es|
  {
  }

  /** Walking a chain: the next entry was not met before. */
  lemma Walked(es: seq<Entry>, ch: seq<nat>, k: nat)
    requires IsChain(es, ch) && k < |ch|
    ensures ch[k] !in ch[..k] && forall e: nat :: e in ch[..k + 1] <==> e in ch[..k] || e == ch[k]
    ensures k + 1 == |ch| ==> ch[..k + 1] == ch
  {
    forall i: nat | i < k ensures ch[..k][i] != ch[k] { assert ch[i] < ch[k]; }
    assert ch[..k + 1] == ch[..k] + [ch[k]];
  }

  lemma OthersApart(es: seq<Entry>, ch: seq<nat>, k: nat)
    requires IsChain(es, ch) && k < |ch|
    ensures forall j: nat :: j < |ch| && j != k ==> ch[j] != ch[k]
  {
  }

  /** The link 0 ends a chain, and nothing else does: links only lead upwards. */
  lemma LastLink(es: seq<Entry>, ch: seq<nat>, k: nat)
    requires IsChain(es, ch) && k < |ch|
    ensures es[ch[k]].next == NextIn(ch, k) && (NextIn(ch, k) == 0 <==> k + 1 == |ch|)
  {
    if k + 1 < |ch| { assert ch[k] < ch[k + 1]; }
  }

  lemma FirstIsLeast(es: seq<Entry>, ch: seq<nat>)
    requires IsChain(es, ch) && 0 in ch
    ensures ch[0] == 0
  {
  }

  /** bytes with data put over its beginning, as far as it reaches. */
  function Overwritten(bytes: seq<Byte>, data: seq<Byte>): (r: seq<Byte>)
    ensures |r| == |bytes|
  {
    if |data| <= |bytes| then data + bytes[|data|..] else data[..|bytes|]
  }

  lemma OverwrittenAt(bytes: seq<Byte>, data: seq<Byte>)
    ensures forall i :: 0 <= i < |bytes| ==> Overwritten(bytes, data)[i] == if i < |data| then data[i] else bytes[i]
  {
  }

  lemma {:induction false} BytesFromParts(es: seq<Entry>, ch: seq<nat>, b: seq<Byte>)
    requires |b| == |ch| * PART && forall j: nat :: j < |ch| ==> PartAt(es, ch[j]) == b[j * PART..(j + 1) * PART]
    ensures Bytes(es, ch) == b
    decreases |ch|
  {
    hide Bytes, PartAt;
    if ch == [] {
      BytesOfNone(es);
    } else {
      var n := |ch| - 1;
      var front := b[..n * PART];
      forall j: nat | j < n
        ensures PartAt(es, ch[..n][j]) == front[j * PART..(j + 1) * PART]
      {
        SliceOfPrefix(b, n * PART, j * PART, (j + 1) * PART);
      }
      BytesFromParts(es, ch[..n], front);
      BytesOfMore(es, ch);
      assert b == front + b[n * PART..(n + 1) * PART];
    }
  }

  lemma BytesOfNone(es: seq<Entry>)
    ensures Bytes(es, []) == []
  {
  }

  lemma BytesOfMore(es: seq<Entry>, ch: seq<nat>)
    requires ch != []
    ensures Bytes(es, ch) == Bytes(es, ch[..|ch| - 1]) + PartAt(es, ch[|ch| - 1])
  {
  }

  lemma SliceOfPrefix(b: seq<Byte>, m: nat, x: nat, y: nat)
    requires x <= y <= m <= |b|
    ensures b[..m][x..y] == b[x..y]
  {
  }

  /** What the j-th part of the bytes becomes. */
  lemma PartOverwritten(b: seq<Byte>, data: seq<Byte>, j: nat, copied: nat, n: nat)
    requires (j + 1) * PART <= |b| && copied == (if j * PART < |data| then j * PART else |data|)
    requires n == (if |data| - copied <= PART then |data| - copied else PART)
    ensures data[copied..copied + n] + b[j * PART..(j + 1) * PART][n..] == Overwritten(b, data)[j * PART..(j + 1) * PART]
  {
    var x, y := j * PART, (j + 1) * PART;
    var left, right := data[copied..copied + n] + b[x..y][n..], Overwritten(b, data)[x..y];
    assert |left| == PART == |right|;
    forall i | 0 <= i < PART
      ensures left[i] == right[i]
    {
      assert right[i] == Overwritten(b, data)[x + i];
      if i >= n { assert left[i] == b[x..y][i] == b[x + i]; }
    }
  }

  lemma FetchedPart(b: seq<Byte>, size: nat, k: nat, copied: nat, n: nat)
    requires (k + 1) * PART <= |b| && copied == (if k * PART < size then k * PART else size)
    requires n == (if size - copied <= PART then size - copied else PART)
    ensures (if k * PART < size then b[..k * PART] else b[..size]) + b[k * PART..(k + 1) * PART][..n] ==
            if (k + 1) * PART < size then b[..(k + 1) * PART] else b[..size]
  {
  }

  /** A key fetched is the key stored. */
  method SetThenGet(k: Keyring, h: nat, data: seq<Byte>) returns (fetched: seq<Byte>)
    requires k.Valid() && h in k.chains && |data| <= |k.KeyBytes(h)|
    modifies k.entries
    ensures k.Valid() && fetched == data
    ensures forall g: nat :: g in k.chains && g != h ==> k.KeyBytes(g) == old(k.KeyBytes(g))
  {
    hide Meet, Owned, Bytes, NoKey, IsChain, Good;
    var ans;
    ghost var g;
    ans, g := k.SetKey(h, data);

    ans, fetched, g := k.GetKey(h, |data|);
  }
}
