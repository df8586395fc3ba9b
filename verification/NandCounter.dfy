/** The NAND generation counter: three checked records in the SEEPROM, of which an update
    overwrites one, word by word. */
module NandCounter {

  type Word = x: int | 0 <= x < 0x1_0000

  const SLOTS := 3
  const SLOT_WORDS := 3
  const FIRST_WORD := 0x5C / 2
  const SEEPROM_WORDS := 128
  const GEN_LIMIT := 0x1_0000_0000
  const LAST_GEN := GEN_LIMIT - 2

  function Sum(hi: Word, lo: Word): Word { (hi + lo) % 0x1_0000 }

  datatype Record = Record(hi: Word, lo: Word, sum: Word)
  {
    predicate Valid() { sum == Sum(hi, lo) }

    function Value(): (v: nat)
      ensures v < GEN_LIMIT
    {
      hi * 0x1_0000 + lo
    }
  }

  function RecordOf(v: nat): (r: Record)
    requires v < GEN_LIMIT
    ensures r.Valid() && r.Value() == v
  {
    Record(v / 0x1_0000, v % 0x1_0000, Sum(v / 0x1_0000, v % 0x1_0000))
  }

  /** A record of which the first k words were overwritten. */
  function Mix(was: Record, now: Record, k: nat): Record {
    Record(if k > 0 then now.hi else was.hi, if k > 1 then now.lo else was.lo, if k > 2 then now.sum else was.sum)
  }

  /** A record cut off while it was written never passes for a third one. */
  lemma MixNeverTorn(was: Record, now: Record, k: nat)
    requires was.Valid() && now.Valid() && Mix(was, now, k).Valid()
    ensures Mix(was, now, k) == was || Mix(was, now, k) == now
  {
    SumCancels(now.hi, was.hi, was.lo);
  }

  lemma SumCancels(a: Word, b: Word, c: Word)
    ensures Sum(a, c) == Sum(b, c) ==> a == b
  {
  }

  // ---------------------------------------------------------------- choosing among the slots

  /** The highest value of the valid records among the first n; -1 if there is none. */
  function Highest(rs: seq<Record>, n: nat): (h: int)
    requires n <= |rs|
    ensures -1 <= h < GEN_LIMIT
    ensures forall i :: 0 <= i < n && rs[i].Valid() ==> rs[i].Value() <= h
    ensures h >= 0 ==> exists i :: 0 <= i < n && rs[i].Valid() && rs[i].Value() == h
  {
    if n == 0 then -1
    else
      var h := Highest(rs, n - 1);
      if rs[n - 1].Valid() && h <= rs[n - 1].Value() then rs[n - 1].Value() else h
  }

  /** The slot to overwrite among the first n: the last invalid one, else the first with the
      lowest value; -1 if there is none. */
  ghost predicate IsTarget(rs: seq<Record>, n: nat, t: int)
    requires n <= |rs|
  {
    if t < 0 then forall i :: 0 <= i < n ==> rs[i].Valid() && rs[i].Value() == GEN_LIMIT - 1
    else
      && t < n
      && if !rs[t].Valid() then forall i :: t < i < n ==> rs[i].Valid()
         else
           && rs[t].Value() < GEN_LIMIT - 1
           && forall i :: 0 <= i < n ==>
                rs[i].Valid() && rs[t].Value() <= rs[i].Value() && (i < t ==> rs[t].Value() < rs[i].Value())
  }

  /** In other words, for three slots. */
  lemma TargetIs(rs: seq<Record>, t: int)
    requires |rs| == 3 && IsTarget(rs, 3, t)
    ensures t < 0 ==> forall i :: 0 <= i < 3 ==> rs[i].Valid() && rs[i].Value() == 0xFFFF_FFFF
    ensures t >= 0 && (exists i :: 0 <= i < 3 && !rs[i].Valid()) ==> t < 3 && !rs[t].Valid() && forall i :: t < i < 3 ==> rs[i].Valid()
    ensures t >= 0 && (forall i :: 0 <= i < 3 ==> rs[i].Valid()) ==>
              t < 3 && rs[t].Value() < 0xFFFF_FFFF && forall i :: 0 <= i < 3 ==> rs[t].Value() <= rs[i].Value() && (i < t ==> rs[t].Value() < rs[i].Value())
  {
  }

  /** What a slot's value has to stay below for another to be chosen after it. */
  function Lowest(rs: seq<Record>, t: int): nat
    requires t < |rs|
  {
    if t < 0 then GEN_LIMIT - 1 else if rs[t].Valid() then rs[t].Value() else 0
  }

  lemma NoTarget(rs: seq<Record>)
    ensures IsTarget(rs, 0, -1)
  {
  }

  lemma NextTarget(rs: seq<Record>, n: nat, t: int)
    requires n < |rs| && -1 <= t < n && IsTarget(rs, n, t)
    ensures IsTarget(rs, n + 1, if !rs[n].Valid() || rs[n].Value() < Lowest(rs, t) then n else t)
  {
  }

  lemma TargetUnique(rs: seq<Record>, n: nat, t: int)
    requires n <= |rs| && IsTarget(rs, n, t)
    ensures forall u :: IsTarget(rs, n, u) && -1 <= u && -1 <= t ==> t == u
  {
  }

  datatype Answer = Failed | Found(data: Record, index: nat)

  class Seeprom {
    const words: array<Word>

    ghost predicate Valid() { words.Length == SEEPROM_WORDS }

    constructor ()
      ensures Valid()
    {
      words := new Word[SEEPROM_WORDS](_ => 0);
    }

    function Slot(i: nat): Record
      requires words.Length == SEEPROM_WORDS && i < SLOTS
      reads words
    {
      var w := FIRST_WORD + i * SLOT_WORDS;
      Record(words[w], words[w + 1], words[w + 2])
    }

    ghost function Slots(): (rs: seq<Record>)
      requires Valid()
      reads words
      ensures |rs| == SLOTS
    {
      [Slot(0), Slot(1), Slot(2)]
    }

    /** Three records of three words from byte 0x5C on: the value, high word first, and the sum of its
        words. */
    lemma Layout(i: nat)
      requires Valid() && i < 3
      ensures var w, r := 0x2E + 3 * i, Slots()[i];
              && r == Record(words[w], words[w + 1], words[w + 2]) && r.Value() == 0x1_0000 * words[w] as int + words[w + 1] as int
              && (r.Valid() <==> (words[w] as int + words[w + 1] as int) % 0x1_0000 == words[w + 2])
    {
    }

    /** The current record and the slot to overwrite next. */
    method GetCounter() returns (a: Answer)
      requires Valid()
      ensures a.Found? ==> a.data.Valid() && a.data.Value() == Highest(Slots(), SLOTS) && a.index < SLOTS && IsTarget(Slots(), SLOTS, a.index)
      ensures a.Failed? <==> Highest(Slots(), SLOTS) < 0 || IsTarget(Slots(), SLOTS, -1)
    {
      hide IsTarget, Record.Valid, Record.Value;
      ghost var rs := Slots();
      NoTarget(rs);
      var index: int, found, data: Record := -1, false, Slot(0);
      var highest, lowest := 0, GEN_LIMIT - 1;
      var c := 0;
      while c < SLOTS
        invariant c <= SLOTS && -1 <= index < c
        invariant IsTarget(rs, c, index) && lowest == Lowest(rs, index)
        invariant found == (Highest(rs, c) >= 0)
        invariant if found then data.Valid() && data.Value() == highest == Highest(rs, c) else highest == 0
      {
        var r := Slot(c);
        assert rs[c] == r;
        NextTarget(rs, c, index);
        if r.Valid() {
          var current := r.Value();
          if highest <= current {
            found, data, highest := true, r, current;
          }
          if current < lowest {
            index, lowest := c, current;
          }
        } else {
          index, lowest := c, 0;
        }
        c := c + 1;
      }
      TargetUnique(rs, SLOTS, index);
      if !found || index < 0 { return Failed; }
      return Found(data, index);
    }

    /** Write a record into a slot; the power may fail after any number of words. */
    method UpdateCounter(data: Record, index: nat, power: nat)
      requires Valid() && index < SLOTS
      modifies words
      ensures Slots() == old(Slots())[index := Mix(old(Slot(index)), data, power)]
      ensures forall k :: 0 <= k < 3 && k < power ==> words[0x2E + 3 * index + k] == [data.hi, data.lo, data.sum][k]
      ensures forall w :: 0 <= w < 128 && !(0x2E + 3 * index <= w < 0x2E + 3 * index + 3) ==> words[w] == old(words[w])
    {
      var values := [data.hi, data.lo, data.sum];
      var i := 0;
      while i < SLOT_WORDS && i < power
        invariant i <= SLOT_WORDS && i <= power
        invariant forall w :: 0 <= w < SEEPROM_WORDS ==>
                    var o := w - (FIRST_WORD + index * SLOT_WORDS);
                    words[w] == if 0 <= o < i then values[o] else old(words[w])
      {
        words[FIRST_WORD + index * SLOT_WORDS + i] := values[i];
        i := i + 1;
      }
    }

    /** Read the generation; none if no slot can be read or overwritten. */
    method GetGen() returns (ok: bool, gen: nat)
      requires Valid()
      ensures ok == HasGen(Slots())
      ensures ok ==> gen == Highest(Slots(), SLOTS)
    {
      var a := GetCounter();
      return a.Found?, if a.Found? then a.data.Value() else 0;
    }

    /** Raise the generation by one, unless it has reached its end; the power may fail. */
    method UpdateGen(power: nat)
      requires Valid()
      modifies words
      ensures Attempt(old(Slots()), power, Slots())
    {
      hide IsTarget, Mix, RecordOf, Record.Valid, Record.Value;
      var ok, gen := GetGen();
      if ok && gen == LAST_GEN { return; }
      var a := GetCounter();
      if a.Failed? { return; }
      var next := RecordOf((a.data.Value() + 1) % GEN_LIMIT);
      UpdateCounter(next, a.index, power);
    }
  }

  ghost predicate HasGen(rs: seq<Record>)
    requires |rs| == SLOTS
  {
    Highest(rs, SLOTS) >= 0 && !IsTarget(rs, SLOTS, -1)
  }

  /** One update of the generation that got as far as power words. */
  ghost predicate Attempt(rs: seq<Record>, power: nat, rs': seq<Record>)
    requires |rs| == |rs'| == SLOTS
  {
    if !HasGen(rs) || Highest(rs, SLOTS) == LAST_GEN then rs' == rs
    else
      exists t :: 0 <= t < SLOTS && IsTarget(rs, SLOTS, t) &&
                  rs' == rs[t := Mix(rs[t], Successor(rs), power)]
  }

  // ---------------------------------------------------------------- runs

  ghost predicate AllValid(rs: seq<Record>) { forall i :: 0 <= i < |rs| ==> rs[i].Valid() }

  /** All slots valid, or one cut off on the way from some valid record to the successor of
      the highest value, which another slot holds. */
  ghost predicate Inv(rs: seq<Record>) {
    && |rs| == SLOTS
    && (AllValid(rs) || exists j: nat, was: Record, k: nat :: Partial(rs, j, was, k))
  }

  ghost predicate Partial(rs: seq<Record>, j: nat, was: Record, k: nat)
    requires |rs| == SLOTS
  {
    && j < SLOTS
    && !rs[j].Valid()
    && (forall i :: 0 <= i < SLOTS && i != j ==> rs[i].Valid())
    && was.Valid()
    && rs[j] == Mix(was, Successor(rs), k)
  }

  /** The slot overwritten is never the only one that holds the highest value. */
  lemma NotTheOnly(rs: seq<Record>, t: nat)
    requires Inv(rs) && t < SLOTS && IsTarget(rs, SLOTS, t)
    ensures exists i :: 0 <= i < SLOTS && i != t && rs[i].Valid() && rs[i].Value() == Highest(rs, SLOTS)
  {
    var h := Highest(rs, SLOTS);
    if AllValid(rs) {
      var i :| 0 <= i < SLOTS && rs[i].Valid() && rs[i].Value() == h;
      if i == t {
        var o := if t == 0 then 1 else 0;
        assert rs[t].Value() <= rs[o].Value() <= h;
      }
    } else {
      var j: nat, was: Record, k: nat :| Partial(rs, j, was, k);
      assert rs[if j == 0 then 1 else 0].Valid();
      assert h >= 0;
    }
  }

  lemma HighestIs(rs: seq<Record>, h: nat, i: nat)
    requires i < |rs| == SLOTS && rs[i].Valid() && rs[i].Value() == h
    requires forall k :: 0 <= k < SLOTS && rs[k].Valid() ==> rs[k].Value() <= h
    ensures Highest(rs, SLOTS) == h
  {
  }

  /** Writing over a slot that is not the only one with the highest value. */
  lemma Overwritten(rs: seq<Record>, t: nat, r: Record)
    requires Inv(rs) && t < SLOTS && IsTarget(rs, SLOTS, t)
    ensures Highest(rs[t := r], SLOTS) ==
            if r.Valid() && r.Value() > Highest(rs, SLOTS) then r.Value() else Highest(rs, SLOTS)
  {
    hide IsTarget, Record.Valid, Record.Value;
    NotTheOnly(rs, t);
    var h := Highest(rs, SLOTS);
    var i :| 0 <= i < SLOTS && i != t && rs[i].Valid() && rs[i].Value() == h;
    if r.Valid() && r.Value() > h { HighestIs(rs[t := r], r.Value(), t); } else { HighestIs(rs[t := r], h, i); }
  }

  /** Writing k words over a record cut off after m of the same words. */
  lemma MixMix(was: Record, now: Record, m: nat, k: nat)
    requires was.Valid() && now.Valid() && !Mix(was, now, m).Valid()
    ensures Mix(Mix(was, now, m), now, k) == Mix(was, now, if m > k then m else k)
    ensures Mix(Mix(was, now, m), now, k).Valid() ==> Mix(Mix(was, now, m), now, k) == now
  {
    var n := if m > k then m else k;
    if Mix(was, now, n).Valid() { MixNeverTorn(was, now, n); }
  }

  function Successor(rs: seq<Record>): Record
    requires |rs| == SLOTS
  {
    RecordOf((Highest(rs, SLOTS) + 1) % GEN_LIMIT)
  }

  /** What an update that gets as far as k words makes of a slot: the old record or the new
      one, if it is valid. */
  lemma WrittenSlot(rs: seq<Record>, t: nat, k: nat) returns (was: Record, n: nat)
    requires Inv(rs) && t < SLOTS && IsTarget(rs, SLOTS, t)
    ensures was.Valid() && Mix(rs[t], Successor(rs), k) == Mix(was, Successor(rs), n)
    ensures var r := Mix(rs[t], Successor(rs), k); r.Valid() ==> r == Successor(rs) || r == rs[t]
    ensures forall i :: 0 <= i < SLOTS && i != t ==> rs[i].Valid()
  {
    hide Highest, RecordOf, Mix, Record.Valid, Record.Value;
    var now := Successor(rs);
    if AllValid(rs) {
      was, n := rs[t], k;
      if Mix(was, now, n).Valid() { MixNeverTorn(was, now, n); }
    } else {
      var j: nat, w: Record, m: nat :| Partial(rs, j, w, m);
      was, n := w, if m > k then m else k;
      MixMix(was, now, m, k);
    }
  }

  /** One update, however far it got, keeps the invariant, and what is read after it is the
      generation before it or the next; the next for certain if it was complete. */
  lemma AttemptKeepsInv(rs: seq<Record>, power: nat, rs': seq<Record>)
    requires Inv(rs) && |rs'| == SLOTS && Attempt(rs, power, rs')
    ensures Inv(rs')
    ensures var h := Highest(rs, SLOTS);
            && h >= 0
            && (Highest(rs', SLOTS) == h || (h < 0xFFFF_FFFE && Highest(rs', SLOTS) == h + 1))
            && (power >= 3 && h < 0xFFFF_FFFE ==> Highest(rs', SLOTS) == h + 1)
  {
    hide Highest, RecordOf, Mix, Record.Valid, Record.Value, IsTarget;
    Readable(rs);
    if HasGen(rs) && Highest(rs, SLOTS) != LAST_GEN {
      var h := Highest(rs, SLOTS);
      var t :| 0 <= t < SLOTS && IsTarget(rs, SLOTS, t) && rs' == rs[t := Mix(rs[t], Successor(rs), power)];
      var was, n := WrittenSlot(rs, t, power);
      Overwritten(rs, t, rs'[t]);
      if power >= SLOT_WORDS { MixAll(rs[t], Successor(rs), power); }
      if rs'[t].Valid() {
        assert AllValid(rs');
      } else {
        assert Partial(rs', t, was, n);
      }
    }
  }

  lemma MixAll(was: Record, now: Record, k: nat)
    requires k >= SLOT_WORDS
    ensures Mix(was, now, k) == now
  {
  }

  lemma Readable(rs: seq<Record>)
    requires Inv(rs)
    ensures Highest(rs, SLOTS) >= 0
    ensures HasGen(rs) <==> exists i :: 0 <= i < SLOTS && !(rs[i].Valid() && rs[i].Value() == GEN_LIMIT - 1)
  {
    if AllValid(rs) {
      assert rs[0].Valid();
    } else {
      var j: nat, was: Record, k: nat :| Partial(rs, j, was, k);
      assert rs[if j == 0 then 1 else 0].Valid();
    }
  }

  ghost predicate Run(states: seq<seq<Record>>, powers: seq<nat>) {
    && |states| == |powers| + 1
    && (forall i :: 0 <= i < |states| ==> |states[i]| == SLOTS)
    && (forall i :: 0 <= i < |powers| ==> Attempt(states[i], powers[i], states[i + 1]))
  }

  lemma {:induction false} RunsKeepInv(states: seq<seq<Record>>, powers: seq<nat>, i: nat)
    requires Run(states, powers) && AllValid(states[0]) && i < |states|
    ensures Inv(states[i])
    decreases i
  {
    hide Attempt;
    if i > 0 {
      RunsKeepInv(states, powers, i - 1);
      assert Attempt(states[i - 1], powers[i - 1], states[i]);
      AttemptKeepsInv(states[i - 1], powers[i - 1], states[i]);
    }
  }

  /** Over any updates, each cut off anywhere, the generation read never goes back, and each
      update leaves it as it was or raises it by one. */
  lemma {:induction false} NeverBack(states: seq<seq<Record>>, powers: seq<nat>, i: nat, j: nat)
    requires Run(states, powers) && AllValid(states[0]) && i <= j < |states|
    ensures 0 <= Highest(states[i], SLOTS) <= Highest(states[j], SLOTS) <= Highest(states[i], SLOTS) + (j - i)
    decreases j
  {
    hide Attempt, Highest;
    RunsKeepInv(states, powers, j);
    Readable(states[j]);
    if i < j {
      NeverBack(states, powers, i, j - 1);
      RunsKeepInv(states, powers, j - 1);
      assert Attempt(states[j - 1], powers[j - 1], states[j]);
      AttemptKeepsInv(states[j - 1], powers[j - 1], states[j]);
    }
  }

  /** Complete updates count: from three valid slots the generation is the number of them
      further, as long as it does not reach its end. */
  lemma {:induction false} CompleteUpdatesCount(states: seq<seq<Record>>, powers: seq<nat>, j: nat)
    requires Run(states, powers) && AllValid(states[0]) && j < |states|
    requires forall i :: 0 <= i < |powers| ==> powers[i] >= SLOT_WORDS
    requires Highest(states[0], SLOTS) + j <= 0xFFFF_FFFE
    ensures Highest(states[j], SLOTS) == Highest(states[0], SLOTS) + j
    decreases j
  {
    hide Attempt, Highest;
    if j > 0 {
      CompleteUpdatesCount(states, powers, j - 1);
      RunsKeepInv(states, powers, j - 1);
      assert Attempt(states[j - 1], powers[j - 1], states[j]);
      AttemptKeepsInv(states[j - 1], powers[j - 1], states[j]);
    }
  }
}
