/** The pool of messages that threads share for asynchronous calls. */
module MessagePool {

  const MAX_THREADS := 100
  const EXTRA_MESSAGES := 128
  const HANDLER_LIMIT := 48
  const THREAD_LIMIT := 32

  const WORD_LIMIT := 0x1_0000_0000

  type Thread = t: nat | t < 100

  /** A message: whether it is in use, the thread that claimed it last, and the process it was
      last sent to. */
  datatype Slot = Slot(inQueue: bool, usedBy: Thread, process: nat)

  datatype Pool = Pool(slots: seq<Slot>, usage: seq<nat>)

  function Limit(isHandler: bool): nat { if isHandler then HANDLER_LIMIT else THREAD_LIMIT }

  /** The first slot from i on that is not in use; the number of slots if there is none. */
  function FirstFree(slots: seq<Slot>, i: nat): (k: nat)
    requires i <= |slots|
    ensures i <= k <= |slots|
    ensures k < |slots| ==> !slots[k].inQueue
    ensures forall j :: i <= j < k ==> slots[j].inQueue
    decreases |slots| - i
  {
    if i == |slots| || !slots[i].inQueue then i else FirstFree(slots, i + 1)
  }

  predicate CanClaim(p: Pool, t: nat, limit: nat)
    requires t < |p.usage|
  {
    p.usage[t] != limit && FirstFree(p.slots, 0) < |p.slots|
  }

  function Claimed(p: Pool, t: Thread, limit: nat): Pool
    requires t < |p.usage| && CanClaim(p, t, limit)
  {
    var i := FirstFree(p.slots, 0);
    Pool(p.slots[i := p.slots[i].(inQueue := true, usedBy := t)], p.usage[t := p.usage[t] + 1])
  }

  function Addressed(p: Pool, i: nat, process: nat): Pool
    requires i < |p.slots|
  {
    p.(slots := p.slots[i := p.slots[i].(process := process)])
  }

  function Released(p: Pool, i: nat): Pool
    requires i < |p.slots| && |p.usage| == MAX_THREADS
  {
    var t := p.slots[i].usedBy;
    Pool(p.slots[i := p.slots[i].(inQueue := false)], p.usage[t := (p.usage[t] + WORD_LIMIT - 1) % WORD_LIMIT])
  }

  /** What ResourceReply asks of a message and the process that replies to it. */
  predicate Accepts(p: Pool, i: nat, process: nat) {
    i < |p.slots| && p.slots[i].inQueue && p.slots[i].process == process
  }

  class Messages {
    const slots: array<Slot>
    const usage: array<nat>

    ghost function View(): Pool
      reads slots, usage
    {
      Pool(slots[..], usage[..])
    }

    ghost predicate Valid() { slots.Length == EXTRA_MESSAGES && usage.Length == MAX_THREADS }

    constructor ()
      ensures Valid() && View() == Fresh()
    {
      slots := new Slot[EXTRA_MESSAGES](_ => Slot(false, 0, 0));
      usage := new nat[MAX_THREADS](_ => 0);
      new;
      assert slots[..] == Fresh().slots && usage[..] == Fresh().usage;
    }

    /** Take a message of the pool for a thread: its number, or the number of messages. */
    method GetFreeFromExtra(t: Thread, isHandler: bool) returns (i: nat)
      requires Valid()
      modifies slots, usage
      ensures i == if old(CanClaim(View(), t, Limit(isHandler))) then FirstFree(old(View()).slots, 0) else slots.Length
      ensures View() == if i < slots.Length then Claimed(old(View()), t, Limit(isHandler)) else old(View())
      ensures i < 128 <==> old(usage[t]) != (if isHandler then 48 else 32) && exists k :: 0 <= k < 128 && !old(slots[k]).inQueue
      ensures i < 128 ==>
                && !old(slots[i]).inQueue && (forall k: nat :: k < i ==> old(slots[k]).inQueue)
                && slots[i].inQueue && slots[i].usedBy == t && usage[t] == old(usage[t]) + 1
      ensures forall k: nat :: k < 128 && k != i ==> slots[k] == old(slots[k])
      ensures forall u: nat :: u < 100 && (u != t || i >= 128) ==> usage[u] == old(usage[u])
    {
      if usage[t] == Limit(isHandler) { return slots.Length; }
      i := 0;
      while i < slots.Length && slots[i].inQueue
        invariant i <= slots.Length && FirstFree(slots[..], 0) == FirstFree(slots[..], i)
      {
        i := i + 1;
      }
      if i < slots.Length {
        usage[t] := usage[t] + 1;
        slots[i] := slots[i].(inQueue := true, usedBy := t);
      }
    }

    /** Before a message is sent: the process it is for. */
    method Address(i: nat, process: nat)
      requires Valid() && i < EXTRA_MESSAGES
      modifies slots
      ensures View() == Addressed(old(View()), i, process)
      ensures forall k: nat :: k < 128 ==> slots[k] == if k == i then old(slots[k]).(process := process) else old(slots[k])
    {
      slots[i] := slots[i].(process := process);
    }

    /** Give a message back: the finish block of an asynchronous call that failed. */
    method Release(i: nat)
      requires Valid() && i < EXTRA_MESSAGES
      modifies slots, usage
      ensures View() == Released(old(View()), i)
      ensures forall k: nat :: k < 128 ==> slots[k] == if k == i then old(slots[k]).(inQueue := false) else old(slots[k])
      ensures forall u: nat :: u < 100 ==>
                usage[u] == if u == old(slots[i]).usedBy then (old(usage[u]) + 0xFFFF_FFFF) % 0x1_0000_0000 else old(usage[u])
    {
      var t := slots[i].usedBy;
      slots[i] := slots[i].(inQueue := false);
      usage[t] := (usage[t] + WORD_LIMIT - 1) % WORD_LIMIT;
    }

    /** The reply of a process to any message: refused unless the message is in use and was sent
        to that process. */
    method ResourceReply(i: nat, process: nat) returns (ok: bool)
      requires Valid()
      modifies slots, usage
      ensures ok == old(Accepts(View(), i, process))
      ensures View() == if ok then Released(old(View()), i) else old(View())
      ensures ok <==> i < 128 && old(slots[i]).inQueue && old(slots[i]).process == process
      ensures ok ==> var t := old(slots[i]).usedBy; !slots[i].inQueue && usage[t] == (old(usage[..])[t] + 0xFFFF_FFFF) % 0x1_0000_0000
    {
      if i >= slots.Length { return false; }
      if !(slots[i].inQueue && slots[i].process == process) { return false; }
      Release(i);
      ok := true;
    }
  }

  // ---------------------------------------------------------------- senders and receivers

  /** Where a thread stands in an asynchronous call. */
  datatype Caller =
    | Outside
    | Trying(i: nat)                // message claimed, not yet in the resource manager's queue
    | Leaving(i: nat, failed: bool) // the send came to an end, the finish block not yet run

  datatype World = World(pool: Pool, callers: seq<Caller>, delivered: set<nat>, handler: nat)

  /** A claim and the address of the message are one move: nothing comes in between. */
  datatype Move = Claim(t: Thread, p: nat) | Deliver(t: Thread) | Fail(t: Thread) | Finish(t: Thread) | Reply(i: nat, p: nat)

  function Fresh(): (p: Pool)
    ensures |p.slots| == EXTRA_MESSAGES && |p.usage| == MAX_THREADS
    ensures forall i :: 0 <= i < EXTRA_MESSAGES ==> p.slots[i] == Slot(false, 0, 0)
    ensures forall t :: 0 <= t < MAX_THREADS ==> p.usage[t] == 0
  {
    Pool(seq(EXTRA_MESSAGES, i => Slot(false, 0, 0)), seq(MAX_THREADS, i => 0))
  }

  function Start(handler: nat): World {
    World(Fresh(), seq(MAX_THREADS, i => Outside), {}, handler)
  }

  predicate Shaped(w: World) {
    |w.pool.usage| == |w.callers| == MAX_THREADS && |w.pool.slots| == EXTRA_MESSAGES
  }

  /** Any process may reply to any message at any time. */
  predicate Possible(w: World, m: Move) {
    |w.callers| == MAX_THREADS
    && match m
       case Claim(t, _) => w.callers[t].Outside?
       case Deliver(t) => w.callers[t].Trying?
       case Fail(t) => w.callers[t].Trying?
       case Finish(t) => w.callers[t].Leaving?
       case Reply(_, _) => true
  }

  function LimitOf(w: World, t: nat): nat { Limit(t == w.handler) }

  /** The message a move gives back. */
  predicate Frees(w: World, m: Move, i: nat)
    requires Possible(w, m)
  {
    match m
    case Finish(t) => w.callers[t].failed && w.callers[t].i == i
    case Reply(k, p) => k == i && Accepts(w.pool, i, p)
    case _ => false
  }

  function After(w: World, m: Move): World
    requires Shaped(w) && Possible(w, m)
  {
    match m
    case Claim(t, p) =>
      if CanClaim(w.pool, t, LimitOf(w, t)) then
        var i := FirstFree(w.pool.slots, 0);
        w.(pool := Addressed(Claimed(w.pool, t, LimitOf(w, t)), i, p), callers := w.callers[t := Trying(i)])
      else w
    case Deliver(t) =>
      w.(delivered := w.delivered + {w.callers[t].i}, callers := w.callers[t := Leaving(w.callers[t].i, false)])
    case Fail(t) => w.(callers := w.callers[t := Leaving(w.callers[t].i, true)])
    case Finish(t) =>
      w.(callers := w.callers[t := Outside],
         pool := if w.callers[t].failed && w.callers[t].i < EXTRA_MESSAGES then Released(w.pool, w.callers[t].i) else w.pool)
    case Reply(i, p) =>
      if Accepts(w.pool, i, p) then w.(pool := Released(w.pool, i), delivered := w.delivered - {i}) else w
  }

  /** A reply to a message that its caller still has: the process answered an earlier use of it. */
  predicate Stale(w: World, m: Move) {
    m.Reply? && Accepts(w.pool, m.i, m.p) && Holds(w, w.pool.slots[m.i].usedBy, m.i)
  }

  /** The number of messages among the first n that thread t uses. */
  function InUse(slots: seq<Slot>, t: nat, n: nat): nat
    requires n <= |slots|
  {
    if n == 0 then 0 else InUse(slots, t, n - 1) + if Uses(slots[n - 1], t) then 1 else 0
  }

  lemma {:induction false} InUseIs(slots: seq<Slot>, t: nat, n: nat)
    requires n <= |slots|
    ensures InUse(slots, t, n) == |set i | 0 <= i < n && Uses(slots[i], t)|
    decreases n
  {
    var all := set i | 0 <= i < n && Uses(slots[i], t);
    if n > 0 {
      InUseIs(slots, t, n - 1);
      var below := set i | 0 <= i < n - 1 && Uses(slots[i], t);
      assert all == below + if Uses(slots[n - 1], t) then {n - 1} else {};
    } else {
      assert all == {};
    }
  }

  predicate Uses(s: Slot, t: nat) { s.inQueue && s.usedBy == t }

  predicate Holds(w: World, t: nat, i: nat) {
    t < |w.callers| && ((w.callers[t].Trying? && w.callers[t].i == i) || (w.callers[t].Leaving? && w.callers[t].failed && w.callers[t].i == i))
  }

  /** Each message in use is with the caller that claimed it or with a resource manager, and
      never with both. */
  ghost predicate Placed(w: World)
    requires Shaped(w)
  {
    && (forall t: nat, i: nat {:trigger Holds(w, t, i)} :: Holds(w, t, i) ==>
          i < EXTRA_MESSAGES && Uses(w.pool.slots[i], t) && i !in w.delivered)
    && (forall i :: i in w.delivered ==> i < EXTRA_MESSAGES && w.pool.slots[i].inQueue)
    && (forall i :: 0 <= i < EXTRA_MESSAGES && w.pool.slots[i].inQueue ==>
          i in w.delivered || Holds(w, w.pool.slots[i].usedBy, i))
  }

  ghost predicate Counted(w: World)
    requires Shaped(w)
  {
    forall t :: 0 <= t < MAX_THREADS ==>
      w.pool.usage[t] == InUse(w.pool.slots, t, EXTRA_MESSAGES) <= LimitOf(w, t)
  }

  ghost predicate Inv(w: World) { Shaped(w) && Placed(w) && Counted(w) }

  lemma {:induction false} InUseUpdate(slots: seq<Slot>, i: nat, s: Slot, t: nat, n: nat)
    requires i < |slots| && n <= |slots|
    ensures InUse(slots[i := s], t, n) ==
            InUse(slots, t, n) + if i >= n then 0 else (if Uses(s, t) then 1 else 0) - (if Uses(slots[i], t) then 1 else 0)
  {
    if n > 0 { InUseUpdate(slots, i, s, t, n - 1); }
  }

  /** A message in use counts for its thread. */
  lemma {:induction false} InUsePositive(slots: seq<Slot>, i: nat, n: nat)
    requires i < n <= |slots| && slots[i].inQueue
    ensures InUse(slots, slots[i].usedBy, n) > 0
  {
    if i < n - 1 { InUsePositive(slots, i, n - 1); }
  }

  lemma {:induction false} InUseNone(t: nat, n: nat)
    requires n <= EXTRA_MESSAGES
    ensures InUse(Fresh().slots, t, n) == 0
  {
    if n > 0 { InUseNone(t, n - 1); }
  }

  lemma StartInv(handler: nat)
    ensures Inv(Start(handler))
  {
    forall t | 0 <= t < MAX_THREADS ensures InUse(Fresh().slots, t, EXTRA_MESSAGES) == 0 {
      InUseNone(t, EXTRA_MESSAGES);
    }
  }

  /** What is given back was in use and counted. */
  lemma FreesInUse(w: World, m: Move, i: nat)
    requires Inv(w) && Possible(w, m) && Frees(w, m, i)
    ensures i < EXTRA_MESSAGES && w.pool.slots[i].inQueue && 0 < w.pool.usage[w.pool.slots[i].usedBy] < WORD_LIMIT
  {
    if m.Finish? {
      assert Holds(w, m.t, i);
    }
    InUsePositive(w.pool.slots, i, EXTRA_MESSAGES);
  }

  lemma ReleaseCounts(p: Pool, i: nat, t: nat)
    requires |p.slots| == EXTRA_MESSAGES && |p.usage| == MAX_THREADS && i < EXTRA_MESSAGES && p.slots[i].inQueue
    requires t < MAX_THREADS && p.usage[t] == InUse(p.slots, t, EXTRA_MESSAGES) && 0 < p.usage[p.slots[i].usedBy] < WORD_LIMIT
    ensures Released(p, i).usage[t] == InUse(Released(p, i).slots, t, EXTRA_MESSAGES) <= p.usage[t]
  {
    InUseUpdate(p.slots, i, p.slots[i].(inQueue := false), t, EXTRA_MESSAGES);
  }

  lemma KeepsCounted(w: World, m: Move)
    requires Inv(w) && Possible(w, m)
    ensures Counted(After(w, m))
  {
    var w' := After(w, m);
    forall t | 0 <= t < MAX_THREADS
      ensures w'.pool.usage[t] == InUse(w'.pool.slots, t, EXTRA_MESSAGES) <= LimitOf(w, t)
    {
      match m {
        case Claim(c, p) => if CanClaim(w.pool, c, LimitOf(w, c)) { ClaimCounts(w.pool, c, LimitOf(w, c), p, t); }
        case Finish(c) =>
          if w.callers[c].failed {
            FreesInUse(w, m, w.callers[c].i);
            ReleaseCounts(w.pool, w.callers[c].i, t);
          }
        case Reply(i, p) =>
          if Accepts(w.pool, i, p) {
            FreesInUse(w, m, i);
            ReleaseCounts(w.pool, i, t);
          }
        case Deliver(_) =>
        case Fail(_) =>
      }
    }
  }

  lemma ClaimCounts(p: Pool, c: Thread, limit: nat, process: nat, t: nat)
    requires |p.slots| == EXTRA_MESSAGES && |p.usage| == MAX_THREADS && CanClaim(p, c, limit)
    requires t < MAX_THREADS && p.usage[t] == InUse(p.slots, t, EXTRA_MESSAGES)
    ensures var q := Addressed(Claimed(p, c, limit), FirstFree(p.slots, 0), process);
            q.usage[t] == InUse(q.slots, t, EXTRA_MESSAGES) == p.usage[t] + if t == c then 1 else 0
  {
    var i := FirstFree(p.slots, 0);
    var q := Addressed(Claimed(p, c, limit), i, process);
    assert q.slots == p.slots[i := Slot(true, c, process)];
    InUseUpdate(p.slots, i, Slot(true, c, process), t, EXTRA_MESSAGES);
  }

  lemma KeepsPlaced(w: World, m: Move)
    requires Inv(w) && Possible(w, m) && !Stale(w, m)
    ensures Shaped(After(w, m)) && Placed(After(w, m))
  {
    hide Counted;
    var w' := After(w, m);
    forall u: nat, i: nat {:trigger Holds(w', u, i)} | Holds(w', u, i)
      ensures i < EXTRA_MESSAGES && Uses(w'.pool.slots[i], u) && i !in w'.delivered
    {
      assert Holds(w, u, i) || (m.Claim? && u == m.t && i == FirstFree(w.pool.slots, 0) && !w.pool.slots[i].inQueue);
      if m.Deliver? { assert Holds(w, m.t, w.callers[m.t].i); }
      if m.Finish? && w.callers[m.t].failed { assert Holds(w, m.t, w.callers[m.t].i); }
    }
    if m.Deliver? || m.Fail? || (m.Finish? && w.callers[m.t].failed) { assert Holds(w, m.t, w.callers[m.t].i); }
    forall i: nat | i < EXTRA_MESSAGES && w'.pool.slots[i].inQueue
      ensures i in w'.delivered || Holds(w', w'.pool.slots[i].usedBy, i)
    {
      if w.pool.slots[i].inQueue && i !in w.delivered { assert Holds(w, w.pool.slots[i].usedBy, i); }
    }
  }

  ghost predicate Run(ws: seq<World>, ms: seq<Move>) {
    && |ws| == |ms| + 1
    && ws[0] == Start(ws[0].handler)
    && forall i :: 0 <= i < |ms| ==> Shaped(ws[i]) && Possible(ws[i], ms[i]) && ws[i + 1] == After(ws[i], ms[i])
  }

  /** No reply found a message with its caller. */
  ghost predicate Honest(ws: seq<World>, ms: seq<Move>, n: nat)
    requires n <= |ms| <= |ws|
  {
    forall i :: 0 <= i < n ==> !Stale(ws[i], ms[i])
  }

  /** In every state of every run the counts are right and within their limits, as long as no
      reply found a message with its caller. */
  lemma {:induction false} RunsKeepInv(ws: seq<World>, ms: seq<Move>, n: nat)
    requires Run(ws, ms) && n < |ws| && Honest(ws, ms, n)
    ensures Inv(ws[n])
    decreases n
  {
    if n == 0 {
      StartInv(ws[0].handler);
    } else {
      RunsKeepInv(ws, ms, n - 1);
      KeepsPlaced(ws[n - 1], ms[n - 1]);
      KeepsCounted(ws[n - 1], ms[n - 1]);
    }
  }

  /** Conservation: a thread's count is the number of messages it uses and within its limit;
      what a move gives back was in use, so nothing is given back twice, and is free after. */
  lemma PoolConserved(ws: seq<World>, ms: seq<Move>, n: nat)
    requires Run(ws, ms) && n < |ms| && Honest(ws, ms, n)
    ensures Counted(ws[n])
    ensures forall t: nat :: t < 100 ==> ws[n].pool.usage[t] == |set i | 0 <= i < 128 && Uses(ws[n].pool.slots[i], t)| <= if t == ws[n].handler then 48 else 32
    ensures forall i: nat :: Frees(ws[n], ms[n], i) ==>
              && i < EXTRA_MESSAGES && ws[n].pool.slots[i].inQueue && !ws[n + 1].pool.slots[i].inQueue
              && 0 < ws[n].pool.usage[ws[n].pool.slots[i].usedBy]
  {
    RunsKeepInv(ws, ms, n);
    forall t: nat | t < 100
      ensures InUse(ws[n].pool.slots, t, 128) == |set i | 0 <= i < 128 && Uses(ws[n].pool.slots[i], t)|
    {
      InUseIs(ws[n].pool.slots, t, 128);
    }
    forall i: nat | Frees(ws[n], ms[n], i)
      ensures i < EXTRA_MESSAGES && ws[n].pool.slots[i].inQueue && 0 < ws[n].pool.usage[ws[n].pool.slots[i].usedBy]
    {
      FreesInUse(ws[n], ms[n], i);
    }
  }

  /** A claim is refused exactly at the limit, or when every message is in use. */
  lemma ClaimRefused(ws: seq<World>, ms: seq<Move>, n: nat, t: nat)
    requires Run(ws, ms) && n < |ws| && t < MAX_THREADS && Honest(ws, ms, n)
    ensures var w := ws[n];
            Shaped(w) &&
            (!CanClaim(w.pool, t, LimitOf(w, t)) <==>
             InUse(w.pool.slots, t, 128) == (if t == w.handler then 48 else 32) || forall i :: 0 <= i < EXTRA_MESSAGES ==> w.pool.slots[i].inQueue)
  {
    RunsKeepInv(ws, ms, n);
  }

  /** When no caller is under way, the messages in use are those the resource managers have. */
  lemma QuietPool(ws: seq<World>, ms: seq<Move>, n: nat)
    requires Run(ws, ms) && n < |ws| && Honest(ws, ms, n)
    requires forall t :: 0 <= t < |ws[n].callers| ==> ws[n].callers[t].Outside?
    ensures Shaped(ws[n])
    ensures forall i: nat :: i < EXTRA_MESSAGES ==> (ws[n].pool.slots[i].inQueue <==> i in ws[n].delivered)
  {
    RunsKeepInv(ws, ms, n);
  }

  // ---------------------------------------------------------------- replies that come twice

  /** Message i is not claimed by move m. */
  predicate LeavesFree(w: World, m: Move, i: nat)
    requires Shaped(w)
  {
    m.Claim? && CanClaim(w.pool, m.t, LimitOf(w, m.t)) ==> FirstFree(w.pool.slots, 0) != i
  }

  /** A message replied to and not claimed again takes no further reply, from whatever process. */
  lemma {:induction false} SecondReplyRefused(ws: seq<World>, ms: seq<Move>, n: nat, k: nat, i: nat, p: nat)
    requires Run(ws, ms) && n < k < |ws| && ms[n].Reply? && ms[n].i == i && Accepts(ws[n].pool, i, ms[n].p)
    requires forall j :: n < j < k ==> LeavesFree(ws[j], ms[j], i)
    ensures i < |ws[k].pool.slots| && !ws[k].pool.slots[i].inQueue
    ensures !Accepts(ws[k].pool, i, p)
    ensures k < |ms| && ms[k] == Reply(i, p) ==> ws[k + 1] == ws[k]
    decreases k
  {
    if k > n + 1 {
      SecondReplyRefused(ws, ms, n, k - 1, i, p);
      assert LeavesFree(ws[k - 1], ms[k - 1], i);
    }
  }

  /** A reply passes exactly if its process has the message and did not answer it, or the message
      was claimed anew for that process and its caller still has it. */
  lemma AcceptedExactly(w: World, i: nat, p: nat)
    requires Inv(w)
    ensures Accepts(w.pool, i, p) <==>
            i < EXTRA_MESSAGES && w.pool.slots[i].process == p && (i in w.delivered || Holds(w, w.pool.slots[i].usedBy, i))
    ensures Stale(w, Reply(i, p)) <==> Accepts(w.pool, i, p) && i !in w.delivered
  {
    if i < EXTRA_MESSAGES && Holds(w, w.pool.slots[i].usedBy, i) {
      assert Uses(w.pool.slots[i], w.pool.slots[i].usedBy);
    }
  }

  /** What a caller does whose send fails. */
  function GivenUp(w: World, t: Thread): World
    requires Shaped(w) && !w.callers[t].Outside?
  {
    After(if w.callers[t].Trying? then After(w, Fail(t)) else w, Finish(t))
  }

  /** A stale reply takes the message from its caller; when the send fails the message is given
      back a second time, and the count of the thread is one too low. */
  lemma StaleReplyBreaks(w: World, m: Move)
    requires Inv(w) && Stale(w, m)
    ensures Possible(w, m) && !Inv(After(w, m))
    ensures var t := w.pool.slots[m.i].usedBy;
            var w' := After(w, m);
            var w'' := GivenUp(w', t);
            && Shaped(w') && !w'.callers[t].Outside? && Shaped(w'')
            && InUse(w''.pool.slots, t, EXTRA_MESSAGES) == InUse(w.pool.slots, t, EXTRA_MESSAGES) - 1
            && w''.pool.usage[t] == (w.pool.usage[t] - 2) % WORD_LIMIT
            && !Counted(w'')
  {
    hide InUse;
    var i, t := m.i, w.pool.slots[m.i].usedBy;
    var w' := After(w, m);
    assert Holds(w', t, i) && !Uses(w'.pool.slots[i], t);
    FreesInUse(w, m, i);
    var s := w.pool.slots[i].(inQueue := false);
    InUseUpdate(w.pool.slots, i, s, t, EXTRA_MESSAGES);
    assert GivenUp(w', t).pool.slots == w'.pool.slots == w.pool.slots[i := s];
  }

  /** The counts are right and every message in one place in all states of a run, exactly if no
      reply found a message with its caller. */
  lemma RunsKeepInvExactly(ws: seq<World>, ms: seq<Move>, n: nat)
    requires Run(ws, ms) && n <= |ms|
    ensures (forall k :: 0 <= k <= n ==> Inv(ws[k])) <==> Honest(ws, ms, n)
  {
    hide Inv, Stale, After, Possible;
    if Honest(ws, ms, n) {
      forall k | 0 <= k <= n ensures Inv(ws[k]) { RunsKeepInv(ws, ms, k); }
    } else {
      var k :| 0 <= k < n && Stale(ws[k], ms[k]);
      if Inv(ws[k]) {
        StaleReplyBreaks(ws[k], ms[k]);
        assert !Inv(ws[k + 1]);
      }
    }
  }

  /** There is such a run: thread 0 sends to process 7, which answers; thread 1 claims the same
      message for process 7 and waits, and process 7 answers again. */
  lemma StaleReplyExample() returns (ws: seq<World>, ms: seq<Move>)
    ensures Run(ws, ms) && |ms| == 5 && ms[4] == Reply(0, 7) && Stale(ws[4], ms[4])
  {
    var a := Start(0);
    ms := [Claim(0, 7), Deliver(0), Reply(0, 7), Claim(1, 7), Reply(0, 7)];
    var b := After(a, ms[0]);
    var c := After(b, ms[1]);
    var d := After(c, ms[2]);
    var e := After(d, ms[3]);
    ws := [a, b, c, d, e, After(e, ms[4])];
    forall i | 0 <= i < |ms|
      ensures Shaped(ws[i]) && Possible(ws[i], ms[i]) && ws[i + 1] == After(ws[i], ms[i])
    {
    }
  }
}
