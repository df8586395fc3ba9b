/** When the PowerPC can still be acknowledged: exactly while fewer than 48 of its requests were
    refused for their addresses. */
module IpcProgress {
  import opened IpcRing
  import opened IpcProtocol

  /** t follows s after some steps. */
  ghost predicate Leads(s: State, t: State) {
    exists states, steps :: Path(states, steps) && states[0] == s && states[|steps|] == t
  }

  lemma StaysHere(s: State)
    ensures Leads(s, s)
  {
    assert Path([s], []);
  }

  lemma GoOn(s: State, t: State, step: Step, u: State)
    requires Leads(s, t) && Moves(t, step, u)
    ensures Leads(s, u)
  {
    hide Moves;
    var states, steps :| Path(states, steps) && states[0] == s && states[|steps|] == t;
    assert Path(states + [u], steps + [step]);
  }

  lemma {:induction false} PathKeepsInv(states: seq<State>, steps: seq<Step>, i: nat)
    requires Path(states, steps) && i < |states| && Inv(states[0])
    ensures Inv(states[i])
    decreases i
  {
    hide Inv, Moves;
    if i > 0 {
      PathKeepsInv(states, steps, i - 1);
      StepKeepsInv(states[i - 1], steps[i - 1], states[i]);
    }
  }

  // ---------------------------------------------------------------- this side comes to rest

  function ControlWork(c: Control): nat {
    match c
    case Idle => 0
    case Got(Reply(_), _) => 2
    case Got(Interrupt, _) => 1
    case Acknowledged(_) => 9
    case Counted(_) => 5
    case Sending => 1
  }

  /** What is left to do on this side, if the PowerPC does nothing more. */
  function Work(s: State): nat {
    ControlWork(s.control) + 4 * |s.serving| + 3 * |Replies(s.queue)| + 2 * Interrupts(s.queue)
    + (if s.masked then 0 else 3) + (if s.relaunch then 4 else 0) + (if s.incoming then 9 else 0)
  }

  /** Every step of this side does some of the work, so it comes to rest. */
  lemma InternalWork(s: State, step: Step)
    requires CanStep(s, step) && Internal(step) && !step.TakeUnknown?
    ensures Work(Next(s, step)) < Work(s)
  {
    hide Work, Next, CanStep;
    if step.RaiseIrq? || step.Receive? || step.Complete? || step.ServeReply? { QueueWork(s, step); } else { HandlerWork(s, step); }
  }

  lemma QueueWork(s: State, step: Step)
    requires CanStep(s, step) && (step.RaiseIrq? || step.Receive? || step.Complete? || step.ServeReply?)
    ensures Work(Next(s, step)) < Work(s)
  {
    hide Signalled, Replies, Interrupts, Post;
    match step {
      case RaiseIrq => PostWork(s.(masked := true), Interrupt);
      case Complete => PostWork(s.(control := Idle), Reply(s.control.id));
      case ServeReply(id) => PostWork(s.(serving := s.serving - multiset{id}), Reply(id));
      case Receive => FirstWork(s.queue);
    }
  }

  lemma PostWork(s: State, m: Message)
    requires |s.queue| < HANDLER_SLOTS
    ensures Work(Post(s, m)) == Work(s) + if m.Reply? then 3 else 2
  {
    hide Replies, Interrupts;
    Appended(s.queue, m);
  }

  lemma FirstWork(q: seq<Message>)
    requires q != []
    ensures |Replies(q)| == |Replies(q[1..])| + if q[0].Reply? then 1 else 0
    ensures Interrupts(q) == Interrupts(q[1..]) + if q[0].Interrupt? then 1 else 0
  {
  }

  lemma HandlerWork(s: State, step: Step)
    requires CanStep(s, step)
    requires step.TakeReply? || step.TakeRelaunch? || step.TakeIncoming? || step.Count? || step.Reject? || step.Refuse?
             || step.Submit? || step.Transmit?
    ensures Work(Next(s, step)) < Work(s)
  {
    hide Signalled, Replies, Interrupts;
    match step {
      case TakeReply => case TakeRelaunch => case TakeIncoming => case Count =>
      case Reject => case Refuse => case Submit => case Transmit =>
    }
  }

  /** One more step. */
  lemma Take(s: State, t: State, step: Step) returns (u: State)
    requires Leads(s, t) && Inv(t) && Enabled(t, step)
    ensures RingSafe(t) && u == Next(t, step) && Leads(s, u) && Inv(u)
  {
    hide Leads, Inv, Next, RingSafe;
    SafeRing(t);
    u := Next(t, step);
    StepKeepsInv(t, step, u);
    GoOn(s, t, step, u);
  }

  /** This side comes to rest without refusing an address. */
  lemma {:induction false} ComeToRest(s: State, t: State) returns (u: State)
    requires Leads(s, t) && Inv(t)
    ensures Leads(s, u) && Inv(u) && Still(u) && u.leaked == t.leaked && u.requests == t.requests
    decreases Work(t)
  {
    hide Leads, Inv, Next, RingSafe, Work, CanStep;
    if Still(t) {
      u := t;
    } else {
      var step :| Internal(step) && Enabled(t, step);
      if step.Reject? {
        step := Refuse;
      }
      var next := Take(s, t, step);
      LeakStays(t, step);
      NeverUnknown(t);
      InvCanStep(t, step, next);
      InternalWork(t, step);
      u := ComeToRest(s, next);
    }
  }

  lemma NeverUnknown(s: State)
    requires Inv(s)
    ensures !Enabled(s, TakeUnknown)
  {
    hide Conserved, Ordered, OneTurn, Pressed;
  }

  /** So no path of this side's steps alone is longer than the work there was. */
  lemma {:induction false} InternalPathsEnd(states: seq<State>, steps: seq<Step>)
    requires Path(states, steps) && Leads(INITIAL, states[0]) && forall i :: 0 <= i < |steps| ==> Internal(steps[i])
    ensures |steps| + Work(states[|steps|]) <= Work(states[0])
    decreases |steps|
  {
    hide Leads, Work, Inv, Next, RingSafe, CanStep;
    if |steps| > 0 {
      var n := |steps| - 1;
      InternalPathsEnd(states[..|steps|], steps[..n]);
      ReachedInv(states[0]);
      PathKeepsInv(states, steps, n);
      assert Moves(states[n], steps[n], states[n + 1]);
      NeverUnknown(states[n]);
      InvCanStep(states[n], steps[n], states[n + 1]);
      InternalWork(states[n], steps[n]);
    }
  }

  lemma ReachedInv(s: State)
    requires Leads(INITIAL, s)
    ensures Inv(s)
  {
    hide Inv, Moves;
    var states, steps :| Path(states, steps) && states[0] == INITIAL && states[|steps|] == s;
    InitialInv();
    PathKeepsInv(states, steps, |steps|);
  }

  // ---------------------------------------------------------------- with the PowerPC taking part

  /** The requests that are still to be answered. */
  function Open(s: State): multiset<nat> {
    Pending(s) + InControl(s.control) + s.serving + Replies(s.queue) + multiset(s.ring.ready)
  }

  /** What the PowerPC has to do before it gets the next reply. */
  function Turn(s: State): nat { if s.outgoing then 6 else if s.mayRelaunch then 5 else 0 }

  /** What is left to do on both sides, until the PowerPC sends another request. */
  function Effort(s: State): nat { Work(s) + 7 * |Open(s)| + Turn(s) }

  /** Every step but a new request does some of it. */
  lemma StepEffort(s: State, step: Step)
    requires CanStep(s, step) && OneTurn(s) && !step.PpcSend? && !step.TakeUnknown?
    ensures Effort(Next(s, step)) < Effort(s)
  {
    hide Work, Next, Signalled, Everywhere, Open, Turn;
    var s' := Next(s, step);
    EverywhereMoves(s, step);
    OpenCount(s);
    OpenCount(s');
    LeakedCount(s, step);
    TurnMoves(s, step);
    if Internal(step) { InternalWork(s, step); }
  }

  lemma OpenCount(s: State)
    ensures |Everywhere(s)| == |Open(s)| + |s.leaked| + |s.sent|
  {
    hide Pending, InControl, Replies;
    assert Everywhere(s) == Open(s) + s.leaked + multiset(s.sent);
  }

  lemma LeakedCount(s: State, step: Step)
    requires CanStep(s, step)
    ensures |s.leaked| <= |Next(s, step).leaked|
  {
    hide Next, RingSafe, Signalled;
    LeakStays(s, step);
    var left := Next(s, step).leaked - s.leaked;
    assert Next(s, step).leaked == s.leaked + left;
  }

  /** A reply sent passes the turn to the PowerPC; taking it, and asking for another, pass it back. */
  lemma TurnMoves(s: State, step: Step)
    requires CanStep(s, step) && OneTurn(s) && !step.PpcSend?
    ensures var s' := Next(s, step);
            if step.Transmit? && s.ring.CanSend() then |s'.sent| == |s.sent| + 1 && Turn(s') == Turn(s) + 6
            else |s'.sent| == |s.sent| && (Internal(step) ==> Turn(s') == Turn(s))
                 && (step.PpcTake? ==> Turn(s') == Turn(s) - 1 && Work(s') == Work(s))
                 && (step.PpcRelaunch? ==> Turn(s') == Turn(s) - 5 && Work(s') == Work(s) + 4)
  {
    hide Signalled, Replies, Interrupts, ControlWork;
    match step {
      case PpcTake => case PpcRelaunch => case RaiseIrq => case Receive =>
      case TakeReply => case TakeRelaunch => case TakeIncoming => case TakeUnknown => case Count =>
      case Reject => case Refuse => case Submit => case Complete => case Transmit => case ServeReply(_) =>
    }
  }

  // ---------------------------------------------------------------- the acknowledgement

  /** The PowerPC can still be acknowledged. */
  ghost predicate Acknowledgeable(s: State) {
    exists t :: Leads(s, t) && t.acks > s.acks
  }

  /** The handler idle, nothing on its way, and a reply waiting for the PowerPC to ask. */
  ghost predicate Waiting(s: State) {
    s.control.Idle? && s.queue == [] && !s.masked && !s.incoming && !s.relaunch && s.mayRelaunch && s.ring.ready != []
  }

  /** The PowerPC asks for a reply and gets it; with 48 requests held the acknowledgement goes with it. */
  lemma AskAndSend(s: State, t: State) returns (u: State)
    requires Leads(s, t) && Inv(t) && Waiting(t) && t.ring.waiting == RING_SIZE
    ensures Leads(s, u) && u.acks == t.acks + 1
  {
    hide Leads, Inv;
    var a := Take(s, t, PpcRelaunch);
    var b := Take(s, a, RaiseIrq);
    var c := Take(s, b, Receive);
    var d := Take(s, c, TakeRelaunch);
    u := Take(s, d, Transmit);
  }

  /** From a state at rest in which 48 requests are held, one of them answered, the PowerPC takes
      its last reply and asks for the next. */
  lemma AnswerAcknowledges(s: State, t: State) returns (u: State)
    requires Leads(s, t) && Inv(t) && Still(t) && t.unacked && |t.leaked| < RING_SIZE
    ensures Leads(s, u) && u.acks == t.acks + 1
  {
    hide Leads, Conserved, Ordered;
    StateAtRest(t);
    NothingUnderWay(t);
    var a := t;
    if !t.mayRelaunch {
      a := Take(s, t, PpcTake);
    }
    u := AskAndSend(s, a);
  }

  lemma {:induction false} Blocked(states: seq<State>, steps: seq<Step>, i: nat)
    requires Path(states, steps) && i < |states| && Inv(states[0]) && |states[0].leaked| == RING_SIZE
    ensures Inv(states[i]) && states[0].leaked <= states[i].leaked
    ensures states[i].unacked && states[i].requests == states[0].requests && states[i].acks == states[0].acks
    decreases i
  {
    hide Ring.Valid, Held, HeldCount, Next, RingSafe, Conserved, Ordered, OneTurn, Signalled;
    PathKeepsInv(states, steps, i);
    if i > 0 {
      Blocked(states, steps, i - 1);
      SafeRing(states[i - 1]);
      assert Moves(states[i - 1], steps[i - 1], states[i]);
      LeakStays(states[i - 1], steps[i - 1]);
    }
    LeakFills(states[0].leaked, states[i]);
    LeakFills(states[0].leaked, states[0]);
  }

  /** In every state of every run, the PowerPC can still be acknowledged exactly if fewer than 48
      of its requests were refused for their addresses. */
  lemma AcknowledgeableExactly(states: seq<State>, steps: seq<Step>, i: nat)
    requires Run(states, steps) && i < |states|
    ensures |states[i].leaked| <= RING_SIZE
    ensures Acknowledgeable(states[i]) <==> |states[i].leaked| < RING_SIZE
  {
    hide Run, Inv;
    RunsKeepInv(states, steps, i);
    var s := states[i];
    LeakFills(s.leaked, s);
    HeldAtMost(s);
    if |s.leaked| < RING_SIZE {
      StillAcknowledged(s);
    } else {
      NoLongerAcknowledged(s);
    }
  }

  lemma HeldAtMost(s: State)
    requires Inv(s)
    ensures HeldCount(s) <= RING_SIZE && s.requests == s.acks + if s.unacked then 1 else 0
  {
  }

  lemma StillAcknowledged(s: State)
    requires Inv(s) && |s.leaked| < RING_SIZE
    ensures Acknowledgeable(s)
  {
    hide Inv, Leads, Still, Next, RingSafe;
    StaysHere(s);
    HeldAtMost(s);
    var t := s;
    if !s.unacked {
      t := SendOne(s);
    }
    var u := ComeToRest(s, t);
    HeldAtMost(u);
    if u.unacked {
      u := AnswerAcknowledges(s, u);
    }
  }

  /** A request that need not wait for an acknowledgement. */
  lemma SendOne(s: State) returns (t: State)
    requires Inv(s) && !s.unacked
    ensures Leads(s, t) && Inv(t) && t.leaked == s.leaked && t.requests == s.requests + 1
  {
    hide Leads, Inv;
    StaysHere(s);
    t := Take(s, s, PpcSend);
  }

  lemma NoLongerAcknowledged(s: State)
    requires Inv(s) && |s.leaked| == RING_SIZE
    ensures !Acknowledgeable(s)
  {
    hide Inv, Moves;
    forall t | Leads(s, t)
      ensures t.acks == s.acks
    {
      var states, steps :| Path(states, steps) && states[0] == s && states[|steps|] == t;
      Blocked(states, steps, |steps|);
    }
  }

  /** As long as nothing is acknowledged no request is sent, and both sides' effort runs out. */
  lemma {:induction false} UntilAcknowledged(states: seq<State>, steps: seq<Step>, i: nat)
    requires Path(states, steps) && i < |states| && Inv(states[0]) && states[0].unacked
    ensures Inv(states[i])
    ensures if states[i].unacked && states[i].acks == states[0].acks then i + Effort(states[i]) <= Effort(states[0])
            else states[i].acks > states[0].acks
    decreases i
  {
    hide Effort, Inv, Next, RingSafe, CanStep, HeldCount, Acks;
    PathKeepsInv(states, steps, i);
    if i > 0 {
      var s, step, s' := states[i - 1], steps[i - 1], states[i];
      UntilAcknowledged(states, steps, i - 1);
      assert Moves(s, step, s');
      NeverUnknown(s);
      InvCanStep(s, step, s');
      InvTurn(s);
      CountersMove(s, step);
      if !step.PpcSend? { StepEffort(s, step); } else { SendsWhenAcked(s); }
    }
  }

  lemma InvTurn(s: State)
    requires Inv(s)
    ensures OneTurn(s)
  {
  }

  lemma SendsWhenAcked(s: State)
    requires Enabled(s, PpcSend)
    ensures !s.unacked
  {
  }

  /** Nothing at all can move only after 48 requests were refused. */
  lemma StuckWhenFull(s: State)
    requires Inv(s) && forall step :: !Enabled(s, step)
    ensures |s.leaked| == RING_SIZE
  {
    hide Conserved, Pressed, Ordered, Signalled;
    assert Still(s);
    StateAtRest(s);
    assert !Enabled(s, PpcSend) && !Enabled(s, PpcTake) && !Enabled(s, PpcRelaunch);
  }

  /** From every state that can be reached, a request not yet acknowledged is acknowledged, whatever
      steps are taken, unless 48 come to be refused: no path without it is longer than the effort
      there was, and one that cannot go on has ended with 48 refused. */
  lemma AlwaysAcknowledged(states: seq<State>, steps: seq<Step>)
    requires Path(states, steps) && Leads(INITIAL, states[0]) && states[0].unacked
    ensures |steps| > Effort(states[0]) ==> states[|steps|].acks > states[0].acks
    ensures (forall step :: !Enabled(states[|steps|], step)) ==>
              states[|steps|].acks > states[0].acks || |states[|steps|].leaked| == RING_SIZE
  {
    hide Leads, Inv, Effort, Enabled;
    ReachedInv(states[0]);
    UntilAcknowledged(states, steps, |steps|);
    if forall step :: !Enabled(states[|steps|], step) { StuckWhenFull(states[|steps|]); }
  }

  // ---------------------------------------------------------------- how it comes to that

  /** Everything quiet, and n requests refused for their addresses. */
  ghost predicate Quiet(s: State, n: nat) {
    && s.control.Idle? && s.queue == [] && !s.masked && !s.incoming && !s.relaunch
    && s.ring.ready == [] && s.ring.waiting == |s.leaked| == n && (n < RING_SIZE ==> !s.unacked)
  }

  /** One more request, refused. */
  lemma OneRefused(t: State, n: nat) returns (u: State)
    requires Leads(INITIAL, t) && Inv(t) && Quiet(t, n) && n < RING_SIZE
    ensures Leads(INITIAL, u) && Inv(u) && Quiet(u, n + 1)
  {
    hide Leads, Inv;
    var a := Take(INITIAL, t, PpcSend);
    var b := Take(INITIAL, a, RaiseIrq);
    var c := Take(INITIAL, b, Receive);
    var d := Take(INITIAL, c, TakeIncoming);
    var e := Take(INITIAL, d, Count);
    u := Take(INITIAL, e, Reject);
  }

  lemma {:induction false} ManyRefused(n: nat) returns (t: State)
    requires n <= RING_SIZE
    ensures Leads(INITIAL, t) && Inv(t) && Quiet(t, n)
    decreases n
  {
    if n == 0 {
      t := INITIAL;
      StaysHere(t);
      InitialInv();
    } else {
      t := ManyRefused(n - 1);
      t := OneRefused(t, n - 1);
    }
  }

  /** There are runs in which 48 requests are refused: from then on nothing is acknowledged. */
  lemma RunOfLeaks() returns (states: seq<State>, steps: seq<Step>)
    ensures Run(states, steps) && |states[|steps|].leaked| == RING_SIZE
    ensures states[|steps|].unacked && !Acknowledgeable(states[|steps|])
  {
    hide Inv;
    var t := ManyRefused(RING_SIZE);
    states, steps :| Path(states, steps) && states[0] == INITIAL && states[|steps|] == t;
    LeakFills(t.leaked, t);
    NoLongerAcknowledged(t);
  }
}
