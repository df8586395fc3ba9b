/** Cluster chains: linked lists threaded through the table. */
module ClusterChains {

  predicate InRange(fat: seq<nat>, c: int) { 2 <= c < |fat| }

  /** ch is a chain: each cluster links to the next, the last to no cluster. */
  ghost predicate IsChain(fat: seq<nat>, ch: seq<nat>) {
    && ch != []
    && (forall i :: 0 <= i < |ch| ==> InRange(fat, ch[i]))
    && (forall i, j :: 0 <= i && j == i + 1 && j < |ch| ==> fat[ch[i]] == ch[j])
    && fat[ch[|ch| - 1]] >= |fat|
  }

  lemma Link(fat: seq<nat>, ch: seq<nat>, i: nat)
    requires IsChain(fat, ch) && i < |ch|
    ensures if i + 1 < |ch| then fat[ch[i]] == ch[i + 1] else fat[ch[i]] >= |fat|
  {
    if i + 1 < |ch| { var next := ch[i + 1]; }
  }

  ghost predicate Distinct(ch: seq<nat>) {
    forall i, j :: 0 <= i < j < |ch| ==> ch[i] != ch[j]
  }

  /** A chain never meets itself: a second visit would have to end at the same place. */
  lemma ChainDistinct(fat: seq<nat>, ch: seq<nat>)
    requires IsChain(fat, ch)
    ensures Distinct(ch)
  {
    forall i, j | 0 <= i < j < |ch|
      ensures ch[i] != ch[j]
    {
      if ch[i] == ch[j] { Repeat(fat, ch, i, j); }
    }
  }

  lemma {:induction false} Repeat(fat: seq<nat>, ch: seq<nat>, i: nat, j: nat)
    requires IsChain(fat, ch) && i < j < |ch| && ch[i] == ch[j]
    ensures false
    decreases |ch| - j
  {
    Link(fat, ch, i);
    Link(fat, ch, j);
    if j + 1 < |ch| {
      Repeat(fat, ch, i + 1, j + 1);
    }
  }

  /** The start of a chain determines it. */
  lemma {:induction false} ChainUnique(fat: seq<nat>, a: seq<nat>, b: seq<nat>)
    requires IsChain(fat, a) && IsChain(fat, b) && a[0] == b[0]
    ensures a == b
    decreases |a|
  {
    Link(fat, a, 0);
    Link(fat, b, 0);
    if |a| == 1 || |b| == 1 {
    } else {
      ChainUnique(fat, a[1..], b[1..]);
      assert a == [a[0]] + a[1..] && b == [b[0]] + b[1..];
    }
  }

  // ---------------------------------------------------------------- free clusters

  /** The number of free clusters below k. */
  ghost function FreeBelow(fat: seq<nat>, k: nat): (n: nat)
    requires k <= |fat|
    ensures n <= k
  {
    if k <= 2 then 0 else FreeBelow(fat, k - 1) + if fat[k - 1] == 0 then 1 else 0
  }

  ghost function FreeCount(fat: seq<nat>): nat { FreeBelow(fat, |fat|) }

  lemma {:induction false} FreeBelowUpdate(fat: seq<nat>, c: nat, val: nat, k: nat)
    requires InRange(fat, c) && k <= |fat|
    ensures FreeBelow(fat[c := val], k) ==
            FreeBelow(fat, k) + if c < k && fat[c] == 0 && val != 0 then -1
                                else if c < k && fat[c] != 0 && val == 0 then 1 else 0
    decreases k
  {
    if k > 2 { FreeBelowUpdate(fat, c, val, k - 1); }
  }

  lemma {:induction false} FreeBelowBound(fat: seq<nat>, k: nat)
    requires 2 <= k <= |fat|
    ensures FreeBelow(fat, k) <= k - 2
    ensures (exists c :: 2 <= c < k && fat[c] == 0) ==> 1 <= FreeBelow(fat, k)
    ensures (exists c :: 2 <= c < k && fat[c] != 0) ==> FreeBelow(fat, k) < k - 2
    ensures (forall c :: 2 <= c < k ==> fat[c] != 0) ==> FreeBelow(fat, k) == 0
    decreases k
  {
    if k > 2 { FreeBelowBound(fat, k - 1); }
  }

  // ---------------------------------------------------------------- releasing a chain

  datatype Release = Release(fat: seq<nat>, ok: bool)

  /** What releasing from c leaves, on any table, cyclic ones included: every step
      turns an entry in use into a free one, so the walk ends. */
  ghost function ReleaseFrom(fat: seq<nat>, c: nat): (r: Release)
    requires 2 <= c
    ensures |r.fat| == |fat|
    decreases |fat| - FreeCount(fat)
  {
    if c >= |fat| || fat[c] == 0 then Release(fat, true)
    else if fat[c] == 1 then Release(fat, false)
    else
      FreeBelowUpdate(fat, c, 0, |fat|);
      FreeBelowBound(fat[c := 0], |fat|);
      ReleaseFrom(fat[c := 0], fat[c])
  }

  /** One step of it. */
  lemma ReleaseStep(fat: seq<nat>, c: nat)
    requires 2 <= c < |fat|
    ensures fat[c] == 0 ==> ReleaseFrom(fat, c) == Release(fat, true)
    ensures fat[c] == 1 ==> ReleaseFrom(fat, c) == Release(fat, false)
    ensures fat[c] >= 2 ==> ReleaseFrom(fat, c) == ReleaseFrom(fat[c := 0], fat[c]) && FreeCount(fat[c := 0]) == FreeCount(fat) + 1 <= |fat|
  {
    FreeBelowUpdate(fat, c, 0, |fat|);
    FreeBelowBound(fat[c := 0], |fat|);
  }

  lemma ReleaseOutside(fat: seq<nat>, c: nat)
    requires 2 <= c && c >= |fat|
    ensures ReleaseFrom(fat, c) == Release(fat, true)
  {
  }

  ghost function Zeroed(fat: seq<nat>, cs: seq<nat>): seq<nat> {
    seq(|fat|, c requires 0 <= c < |fat| => if c in cs then 0 else fat[c])
  }

  /** Releasing from a cluster of a chain frees exactly the clusters from there on. */
  lemma {:induction false} ReleaseSuffix(fat: seq<nat>, ch: seq<nat>, i: nat)
    requires IsChain(fat, ch) && i < |ch|
    ensures ReleaseFrom(fat, ch[i]) == Release(Zeroed(fat, ch[i..]), true)
    ensures FreeCount(Zeroed(fat, ch[i..])) == FreeCount(fat) + |ch| - i
  {
    ReleasePath(fat, ch[i..], ch[i]);
  }

  /** The induction behind ReleaseSuffix: the entries before cur are already free. */
  lemma {:induction false} ReleasePath(fat: seq<nat>, path: seq<nat>, cur: nat)
    requires IsChain(fat, path) && cur == path[0]
    ensures ReleaseFrom(fat, cur) == Release(Zeroed(fat, path), true)
    ensures FreeCount(Zeroed(fat, path)) == FreeCount(fat) + |path|
    decreases |path|
  {
    ChainDistinct(fat, path);
    var next := fat[cur := 0];
    FreeBelowUpdate(fat, cur, 0, |fat|);
    if |path| == 1 {
      assert Zeroed(fat, path) == next;
    } else {
      var rest := path[1..];
      assert IsChain(next, rest);
      ReleasePath(next, rest, rest[0]);
      assert Zeroed(fat, path) == Zeroed(next, rest);
    }
  }

  /** Releasing never does anything but free entries. */
  lemma {:induction false} ReleaseOnlyFrees(fat: seq<nat>, c: nat)
    requires 2 <= c
    ensures forall d :: 0 <= d < |fat| ==> ReleaseFrom(fat, c).fat[d] == fat[d] || ReleaseFrom(fat, c).fat[d] == 0
    ensures forall d :: 0 <= d < |fat| && d < 2 ==> ReleaseFrom(fat, c).fat[d] == fat[d]
    decreases |fat| - FreeCount(fat)
  {
    if c < |fat| && fat[c] > 1 {
      FreeBelowUpdate(fat, c, 0, |fat|);
      FreeBelowBound(fat[c := 0], |fat|);
      ReleaseOnlyFrees(fat[c := 0], fat[c]);
    }
  }

  // ---------------------------------------------------------------- finding a free cluster

  /** k comes before n in the circular order that starts after scl. */
  predicate Before(scl: int, k: int, n: int) {
    if scl < n then scl < k < n else k > scl || k < n
  }

  /** n is the first free cluster after scl, and no broken entry comes before it. */
  ghost predicate FirstFree(fat: seq<nat>, scl: int, n: int) {
    InRange(fat, n) && fat[n] == 0 && forall k :: InRange(fat, k) && Before(scl, k, n) ==> fat[k] > 1
  }

  ghost predicate NoFree(fat: seq<nat>) { forall k :: InRange(fat, k) ==> fat[k] != 0 }

  ghost predicate NoOnes(fat: seq<nat>) { forall k :: InRange(fat, k) ==> fat[k] != 1 }

  // ---------------------------------------------------------------- whole tables

  ghost predicate Meet(a: seq<nat>, b: seq<nat>) { exists c :: c in a && c in b }

  ghost predicate Covered(chains: set<seq<nat>>, c: int) { exists ch :: ch in chains && c in ch }

  /** The table is exactly the given disjoint chains, every other cluster being free. */
  ghost predicate Represents(fat: seq<nat>, chains: set<seq<nat>>) {
    && (forall ch :: ch in chains ==> IsChain(fat, ch))
    && (forall a, b :: a in chains && b in chains && Meet(a, b) ==> a == b)
    && (forall c {:trigger Covered(chains, c)} :: InRange(fat, c) && fat[c] != 0 ==> Covered(chains, c))
  }

  /** The chain that holds c. */
  ghost function ChainOf(fat: seq<nat>, chains: set<seq<nat>>, c: nat): (ch: seq<nat>)
    requires Represents(fat, chains) && InRange(fat, c) && fat[c] != 0
    ensures ch in chains && c in ch && IsChain(fat, ch)
  {
    assert Covered(chains, c);
    var ch :| ch in chains && c in ch;
    ch
  }

  lemma Position(ch: seq<nat>, c: nat) returns (i: nat)
    requires c in ch
    ensures i < |ch| && ch[i] == c
  {
    i :| i < |ch| && ch[i] == c;
  }

  /** In such a table no cluster has two predecessors. */
  lemma OnePredecessor(fat: seq<nat>, chains: set<seq<nat>>, c: nat, d: nat)
    requires Represents(fat, chains) && InRange(fat, c) && InRange(fat, d)
    requires fat[c] == fat[d] && InRange(fat, fat[c])
    ensures c == d
  {
    var a, b := ChainOf(fat, chains, c), ChainOf(fat, chains, d);
    var i := Position(a, c);
    var j := Position(b, d);
    assert a[i + 1] == fat[c] && b[j + 1] == fat[c];
    assert Meet(a, b) by { assert a[i + 1] in a && b[j + 1] in b; }
    ChainDistinct(fat, a);
  }

  /** The cluster n links further on from c. */
  ghost function Follow(fat: seq<nat>, c: nat, n: nat): nat
    decreases n
  {
    if n == 0 || !InRange(fat, c) then c else Follow(fat, fat[c], n - 1)
  }

  /** In such a table no walk along the links comes back to where it started. */
  lemma Acyclic(fat: seq<nat>, chains: set<seq<nat>>, c: nat, n: nat)
    requires Represents(fat, chains) && InRange(fat, c) && fat[c] != 0 && n > 0
    ensures Follow(fat, c, n) != c
  {
    var a := ChainOf(fat, chains, c);
    var i := Position(a, c);
    FollowChain(fat, a, i, n);
    ChainDistinct(fat, a);
  }

  lemma {:induction false} FollowChain(fat: seq<nat>, ch: seq<nat>, i: nat, n: nat)
    requires IsChain(fat, ch) && i < |ch|
    ensures Follow(fat, ch[i], n) == if i + n < |ch| then ch[i + n] else fat[ch[|ch| - 1]]
    decreases n
  {
    if n > 0 && i + 1 < |ch| {
      FollowChain(fat, ch, i + 1, n - 1);
    }
  }

  /** A table of chains holds no broken entry. */
  lemma ChainsNoOnes(fat: seq<nat>, chains: set<seq<nat>>)
    requires Represents(fat, chains)
    ensures NoOnes(fat)
  {
    forall c | InRange(fat, c)
      ensures fat[c] != 1
    {
      if fat[c] != 0 {
        var ch := ChainOf(fat, chains, c);
        var i := Position(ch, c);
        Link(fat, ch, i);
      }
    }
  }

  /** No cluster of a chain is free, so setting a free entry keeps the chain. */
  lemma Untouched(fat: seq<nat>, ch: seq<nat>, n: nat, val: nat)
    requires IsChain(fat, ch) && InRange(fat, n) && fat[n] == 0
    ensures n !in ch
    ensures IsChain(fat[n := val], ch)
  {
    forall i | 0 <= i < |ch|
      ensures ch[i] != n
    {
      if i < |ch| - 1 { assert fat[ch[i]] == ch[i + 1] >= 2; }
    }
  }

  lemma MadeChain(fat: seq<nat>, chains: set<seq<nat>>, n: nat, eoc: nat)
    requires Represents(fat, chains) && InRange(fat, n) && fat[n] == 0 && eoc >= |fat|
    ensures Represents(fat[n := eoc], chains + {[n]})
  {
    var fat', chains' := fat[n := eoc], chains + {[n]};
    forall ch | ch in chains
      ensures IsChain(fat', ch) && !Meet(ch, [n]) && !Meet([n], ch)
    {
      Untouched(fat, ch, n, eoc);
    }
    assert IsChain(fat', [n]);
    forall c | InRange(fat', c) && fat'[c] != 0
      ensures Covered(chains', c)
    {
      if c == n {
        assert n in [n] && [n] in chains';
      } else {
        var ch := ChainOf(fat, chains, c);
        assert ch in chains';
      }
    }
  }

  /** Appending a free cluster to a chain. */
  lemma Stretch(fat: seq<nat>, ch: seq<nat>, n: nat, eoc: nat)
    requires IsChain(fat, ch) && InRange(fat, n) && fat[n] == 0 && eoc >= |fat|
    ensures IsChain(fat[n := eoc][ch[|ch| - 1] := n], ch + [n])
  {
    Untouched(fat, ch, n, eoc);
    ChainDistinct(fat, ch);
    var fat' := fat[n := eoc][ch[|ch| - 1] := n];
    forall i | 0 <= i < |ch|
      ensures fat'[ch[i]] == (ch + [n])[i + 1]
    {
      assert ch[i] in ch;
    }
  }

  /** A chain apart from the entries that change stays a chain. */
  lemma ChainFrame(fat: seq<nat>, fat': seq<nat>, ch: seq<nat>)
    requires IsChain(fat, ch) && |fat'| == |fat|
    requires forall c :: c in ch ==> fat'[c] == fat[c]
    ensures IsChain(fat', ch)
  {
    assert forall i :: 0 <= i < |ch| ==> ch[i] in ch;
  }

  lemma StretchedChain(fat: seq<nat>, chains: set<seq<nat>>, ch: seq<nat>, n: nat, eoc: nat)
    requires Represents(fat, chains) && ch in chains && InRange(fat, n) && fat[n] == 0 && eoc >= |fat|
    ensures Represents(fat[n := eoc][ch[|ch| - 1] := n], chains - {ch} + {ch + [n]})
  {
    var c := ch[|ch| - 1];
    var fat', long := fat[n := eoc][c := n], ch + [n];
    Stretch(fat, ch, n, eoc);
    forall a | a in chains && a != ch
      ensures !Meet(a, long) && !Meet(long, a) && IsChain(fat', a)
    {
      Untouched(fat, a, n, eoc);
      assert !Meet(a, ch);
      assert c in ch;
      assert forall d :: d in long ==> d in ch || d == n;
      ChainFrame(fat, fat', a);
    }
    forall d | InRange(fat', d) && fat'[d] != 0
      ensures Covered(chains - {ch} + {long}, d)
    {
      if d == n {
        assert long[|ch|] == n;
      } else {
        var a := ChainOf(fat, chains, d);
        if a == ch { assert d in long; }
      }
    }
  }

  lemma ReleasedChain(fat: seq<nat>, chains: set<seq<nat>>, ch: seq<nat>)
    requires Represents(fat, chains) && ch in chains
    ensures Represents(Zeroed(fat, ch), chains - {ch})
  {
    var fat' := Zeroed(fat, ch);
    forall a | a in chains && a != ch
      ensures IsChain(fat', a)
    {
      assert !Meet(a, ch);
      forall c | c in a
        ensures fat'[c] == fat[c]
      {
        var i := Position(a, c);
      }
      ChainFrame(fat, fat', a);
    }
    forall d | InRange(fat', d) && fat'[d] != 0
      ensures Covered(chains - {ch}, d)
    {
      var a := ChainOf(fat, chains, d);
      assert a != ch;
    }
  }

  // ---------------------------------------------------------------- runs

  /** One call of the two allocation routines that succeeds; a release starts at the
      first cluster of a chain, as it does in f_open. */
  datatype Event = Made(n: nat) | Stretched(c: nat, n: nat) | Released(c: nat)

  ghost predicate IsHead(fat: seq<nat>, c: nat) {
    InRange(fat, c) && fat[c] != 0 && forall d :: InRange(fat, d) ==> fat[d] != c
  }

  ghost predicate Step(fat: seq<nat>, e: Event, fat': seq<nat>, eoc: nat) {
    match e
    case Made(n) => InRange(fat, n) && fat[n] == 0 && fat' == fat[n := eoc]
    case Stretched(c, n) =>
      InRange(fat, c) && fat[c] >= |fat| && InRange(fat, n) && fat[n] == 0 && fat' == fat[n := eoc][c := n]
    case Released(c) => IsHead(fat, c) && fat' == ReleaseFrom(fat, c).fat
  }

  /** How the number of free clusters changes, and which clusters in use may change. */
  ghost function FreeChange(fat: seq<nat>, chains: set<seq<nat>>, e: Event): int
    requires Represents(fat, chains) && (e.Released? ==> InRange(fat, e.c) && fat[e.c] != 0)
  {
    if e.Released? then |ChainOf(fat, chains, e.c)| else -1
  }

  ghost function Changeable(fat: seq<nat>, chains: set<seq<nat>>, e: Event): seq<nat>
    requires Represents(fat, chains) && (e.Released? ==> InRange(fat, e.c) && fat[e.c] != 0)
  {
    if e.Released? then ChainOf(fat, chains, e.c) else if e.Stretched? then [e.c] else []
  }

  /** One call keeps the table a set of disjoint chains, and counts the free clusters right. */
  lemma StepKeepsChains(fat: seq<nat>, chains: set<seq<nat>>, e: Event, fat': seq<nat>, eoc: nat)
    returns (chains': set<seq<nat>>)
    requires Represents(fat, chains) && Step(fat, e, fat', eoc) && eoc >= |fat|
    ensures |fat'| == |fat| && Represents(fat', chains')
    ensures FreeCount(fat') == FreeCount(fat) + FreeChange(fat, chains, e)
    ensures forall d :: InRange(fat, d) && fat[d] != 0 && fat'[d] != fat[d] ==> d in Changeable(fat, chains, e)
  {
    match e
    case Made(n) =>
      MadeChain(fat, chains, n, eoc);
      FreeBelowUpdate(fat, n, eoc, |fat|);
      chains' := chains + {[n]};
    case Stretched(c, n) =>
      var ch := ChainOf(fat, chains, c);
      var i := Position(ch, c);
      Link(fat, ch, i);
      StretchedChain(fat, chains, ch, n, eoc);
      FreeBelowUpdate(fat, n, eoc, |fat|);
      FreeBelowUpdate(fat[n := eoc], c, n, |fat|);
      chains' := chains - {ch} + {ch + [n]};
    case Released(c) =>
      var ch := HeadChain(fat, chains, c);
      ReleaseSuffix(fat, ch, 0);
      assert ch[0..] == ch;
      ReleasedChain(fat, chains, ch);
      chains' := chains - {ch};
  }

  lemma HeadChain(fat: seq<nat>, chains: set<seq<nat>>, c: nat) returns (ch: seq<nat>)
    requires Represents(fat, chains) && IsHead(fat, c)
    ensures ch == ChainOf(fat, chains, c) && ch[0] == c
  {
    ch := ChainOf(fat, chains, c);
    var i := Position(ch, c);
    if i > 0 { NoPredecessor(fat, c, ch[i - 1]); }
  }

  lemma NoPredecessor(fat: seq<nat>, c: nat, d: nat)
    requires IsHead(fat, c) && InRange(fat, d)
    ensures fat[d] != c
  {
  }

  ghost predicate Run(fats: seq<seq<nat>>, events: seq<Event>, eoc: nat) {
    && |fats| == |events| + 1
    && forall i :: 0 <= i < |events| ==> Step(fats[i], events[i], fats[i + 1], eoc)
  }

  ghost predicate Chained(fat: seq<nat>) { exists chains :: Represents(fat, chains) }

  /** Every run from a table of disjoint chains stays in tables of disjoint chains. */
  lemma {:induction false} RunsKeepChains(fats: seq<seq<nat>>, events: seq<Event>, eoc: nat, i: nat)
    requires Run(fats, events, eoc) && Chained(fats[0]) && eoc >= |fats[0]| && i < |fats|
    ensures |fats[i]| == |fats[0]| && Chained(fats[i])
    decreases i
  {
    if i > 0 {
      RunsKeepChains(fats, events, eoc, i - 1);
      assert Step(fats[i - 1], events[i - 1], fats[i], eoc);
      var chains :| Represents(fats[i - 1], chains);
      var _ := StepKeepsChains(fats[i - 1], chains, events[i - 1], fats[i], eoc);
    }
  }

  /** So the search for a free cluster never meets a broken entry. */
  lemma RunsNoOnes(fats: seq<seq<nat>>, events: seq<Event>, eoc: nat, i: nat)
    requires Run(fats, events, eoc) && Chained(fats[0]) && eoc >= |fats[0]| && i < |fats|
    ensures NoOnes(fats[i])
  {
    hide Represents, Run;
    RunsKeepChains(fats, events, eoc, i);
    var chains :| Represents(fats[i], chains);
    ChainsNoOnes(fats[i], chains);
  }

  /** Released from a cluster that another links to, the table is no table of chains any more: that
      link leads to a free cluster. */
  lemma ReleasedInside(fat: seq<nat>, chains: set<seq<nat>>, c: nat)
    requires Represents(fat, chains) && InRange(fat, c) && fat[c] != 0
    ensures Chained(ReleaseFrom(fat, c).fat) <==> IsHead(fat, c)
  {
    hide Represents, Zeroed, ReleaseFrom, IsChain;
    var ch := ChainOf(fat, chains, c);
    var i := Position(ch, c);
    ReleaseSuffix(fat, ch, i);
    if IsHead(fat, c) {
      var head := HeadChain(fat, chains, c);
      ReleaseSuffix(fat, head, 0);
      assert head[0..] == head;
      ReleasedChain(fat, chains, head);
    } else {
      var d: nat :| InRange(fat, d) && fat[d] == c;
      BeforeSuffix(fat, ch, i, d);
      assert c in ch[i..];
      assert Zeroed(fat, ch[i..])[d] == c && Zeroed(fat, ch[i..])[c] == 0 by { ZeroedAt(fat, ch[i..], d); ZeroedAt(fat, ch[i..], c); }
      DanglingLink(Zeroed(fat, ch[i..]), d);
    }
  }

  lemma ZeroedAt(fat: seq<nat>, cs: seq<nat>, c: nat)
    requires c < |fat|
    ensures |Zeroed(fat, cs)| == |fat| && Zeroed(fat, cs)[c] == if c in cs then 0 else fat[c]
  {
  }

  /** What links to a cluster of a chain does not come behind it. */
  lemma BeforeSuffix(fat: seq<nat>, ch: seq<nat>, i: nat, d: nat)
    requires IsChain(fat, ch) && i < |ch| && InRange(fat, d) && fat[d] == ch[i]
    ensures d !in ch[i..]
  {
    if d in ch[i..] {
      var k := Position(ch[i..], d);
      ChainDistinct(fat, ch);
      Link(fat, ch, i + k);
      assert false;
    }
  }

  lemma DanglingLink(fat: seq<nat>, d: nat)
    requires InRange(fat, d) && InRange(fat, fat[d]) && fat[fat[d]] == 0
    ensures !Chained(fat)
  {
    forall chains: set<seq<nat>> | Represents(fat, chains)
      ensures false
    {
      var ch := ChainOf(fat, chains, d);
      var i := Position(ch, d);
      Link(fat, ch, i);
      Link(fat, ch, i + 1);
    }
  }
}
