/** The traffic between the PowerPC and the handler thread, as a machine whose steps are the
    points at which interrupts, other threads and the PowerPC can come in between. */
module IpcProtocol {
  import opened IpcRing

  // The slots of the handler's message queue.
  const HANDLER_SLOTS := 50

  // A request is known by the number of requests sent before it.
  datatype Message = Reply(id: nat) | Interrupt

  /** Where the handler thread stands. */
  datatype Control =
    | Idle                          // waiting for a message
    | Got(m: Message, latched: nat) // a message taken, and the PowerPC's message register read
    | Acknowledged(id: nat)         // an incoming request cleared in the control register
    | Counted(id: nat)              // interrupt enabled again, request counted
    | Sending                       // about to try a send

  datatype State = State(
    ring: Ring,
    queue: seq<Message>,
    control: Control,
    masked: bool,            // the interrupt is masked
    incoming: bool,          // X1: a request of the PowerPC is pending
    relaunch: bool,          // X2: the PowerPC can take a reply
    ppcMessage: nat,         // the PowerPC's message register
    armMessage: nat,         // the other one
    outgoing: bool,          // Y1: a reply is there for the PowerPC
    mayRelaunch: bool,       // the PowerPC took the last reply and has not asked for another
    unacked: bool,           // the PowerPC's last request is not acknowledged
    serving: multiset<nat>,  // requests handed to resource managers
    leaked: multiset<nat>,   // requests dropped for an invalid address
    requests: nat,           // requests sent
    acks: nat,               // acknowledgements written
    prepared: seq<nat>,      // replies put into the ring, in order
    sent: seq<nat>,          // replies written to the message register, in order
    received: seq<nat>,      // replies the PowerPC took, in order
    lost: nat)               // messages a full queue refused

  const INITIAL := State(Ring(false, 0, []), [], Idle, false, false, false, 0, 0, false, true, false,
                         multiset{}, multiset{}, 0, 0, [], [], [], 0)

  datatype Step =
    | PpcSend | PpcTake | PpcRelaunch
    | RaiseIrq
    | Receive
    | TakeReply | TakeRelaunch | TakeIncoming | TakeUnknown
    | Count
    | Reject | Refuse | Submit | Complete
    | Transmit
    | ServeReply(id: nat)

  predicate Enabled(s: State, step: Step) {
    match step
    case PpcSend => !s.unacked
    case PpcTake => s.outgoing
    case PpcRelaunch => s.mayRelaunch
    case RaiseIrq => !s.masked && (s.incoming || s.relaunch)
    case Receive => s.control.Idle? && s.queue != []
    case TakeReply => s.control.Got? && s.control.m.Reply?
    case TakeRelaunch => s.control.Got? && s.control.m.Interrupt? && s.relaunch
    case TakeIncoming => s.control.Got? && s.control.m.Interrupt? && !s.relaunch && s.incoming
    case TakeUnknown => s.control.Got? && s.control.m.Interrupt? && !s.relaunch && !s.incoming
    case Count => s.control.Acknowledged?
    case Reject => s.control.Counted?
    case Refuse => s.control.Counted?
    case Submit => s.control.Counted?
    case Complete => s.control.Counted?
    case Transmit => s.control.Sending?
    case ServeReply(id) => id in s.serving
  }

  /** The counters of the ring can be taken at their word: no counter runs below zero, and
      the slot a reply is put into is vacant. */
  predicate RingSafe(s: State) {
    && s.ring.Valid()
    && ((s.control.Got? && s.control.m.Reply?) || s.control.Counted? ==> |s.ring.ready| < s.ring.waiting)
  }

  /** Append to the handler's queue without waiting. */
  function Post(s: State, m: Message): State {
    if |s.queue| >= HANDLER_SLOTS then s.(lost := s.lost + 1)
    else s.(queue := s.queue + [m])
  }

  function Prepare(s: State, id: nat): State
    requires |s.ring.ready| < s.ring.waiting <= RING_SIZE
  {
    s.(ring := s.ring.AfterPrepare(id), prepared := s.prepared + [id], control := Sending)
  }

  /** SendIpcRequest, with its writes to the message and control registers. */
  function Send(s: State): State
    requires s.ring.Valid()
  {
    if !s.ring.CanSend() then s
    else
      var ack := s.ring.OwesAck();
      s.(ring := s.ring.AfterSend(), armMessage := s.ring.ready[0], outgoing := true, sent := s.sent + [s.ring.ready[0]],
         unacked := if ack then false else s.unacked, acks := if ack then s.acks + 1 else s.acks)
  }

  function Next(s: State, step: Step): State
    requires Enabled(s, step) && RingSafe(s)
  {
    match step
    case PpcSend => s.(incoming := true, ppcMessage := s.requests, requests := s.requests + 1, unacked := true)
    case PpcTake => s.(outgoing := false, mayRelaunch := true, received := s.received + [s.armMessage])
    case PpcRelaunch => s.(relaunch := true, mayRelaunch := false)
    case RaiseIrq => Post(s.(masked := true), Interrupt)
    case Receive => s.(queue := s.queue[1..], control := Got(s.queue[0], s.ppcMessage))
    case TakeReply => Prepare(s, s.control.m.id)
    case TakeRelaunch => s.(ring := s.ring.(hadRelaunch := true), relaunch := false, masked := false, control := Sending)
    case TakeIncoming =>
      var ack := s.ring.waiting < RING_SIZE - 1;
      s.(incoming := false, unacked := if ack then false else s.unacked, acks := if ack then s.acks + 1 else s.acks,
         control := Acknowledged(s.control.latched))
    case TakeUnknown => s.(control := Idle)
    case Count => s.(masked := false, ring := s.ring.(waiting := s.ring.waiting + 1), control := Counted(s.control.id))
    case Reject => s.(leaked := s.leaked + multiset{s.control.id}, control := Idle)
    case Refuse => Prepare(s, s.control.id)
    case Submit => s.(serving := s.serving + multiset{s.control.id}, control := Idle)
    case Complete =>
      if |s.queue| >= HANDLER_SLOTS then Prepare(s, s.control.id)
      else Post(s.(control := Idle), Reply(s.control.id))
    case Transmit => Send(s).(control := Idle)
    case ServeReply(id) => Post(s.(serving := s.serving - multiset{id}), Reply(id))
  }

  // ---------------------------------------------------------------- what every state satisfies

  function Replies(q: seq<Message>): multiset<nat> {
    if q == [] then multiset{}
    else Replies(q[1..]) + if q[0].Reply? then multiset{q[0].id} else multiset{}
  }

  function Interrupts(q: seq<Message>): nat {
    if q == [] then 0 else Interrupts(q[1..]) + if q[0].Interrupt? then 1 else 0
  }

  function InControl(c: Control): multiset<nat> {
    match c
    case Got(Reply(id), _) => multiset{id}
    case Acknowledged(id) => multiset{id}
    case Counted(id) => multiset{id}
    case _ => multiset{}
  }

  /** The requests taken on and not yet answered. */
  function Held(s: State): multiset<nat> {
    InControl(s.control) + s.leaked + s.serving + Replies(s.queue) + multiset(s.ring.ready)
  }

  /** Every request the PowerPC sent, where it is now. */
  function Everywhere(s: State): multiset<nat> {
    Pending(s) + Held(s) + multiset(s.sent)
  }

  function Pending(s: State): multiset<nat> {
    if s.incoming then multiset{s.ppcMessage} else multiset{}
  }

  function HeldCount(s: State): nat { s.ring.waiting + if s.control.Acknowledged? then 1 else 0 }

  /** The interrupts on their way to the handler's branch that enables them again. */
  function IrqTokens(s: State): nat {
    Interrupts(s.queue) + if (s.control.Got? && s.control.m.Interrupt?) || s.control.Acknowledged? then 1 else 0
  }

  /** Back-pressure: how many requests are held, and when the PowerPC is kept waiting. */
  ghost predicate Pressed(s: State) {
    && |Held(s)| == HeldCount(s) <= RING_SIZE
    && (s.incoming ==> HeldCount(s) < RING_SIZE)
    && (s.unacked <==> s.incoming || HeldCount(s) == RING_SIZE)
    && s.requests == s.acks + if s.unacked then 1 else 0
  }

  /** Interrupts: masked exactly while one is on its way, and always for a cause that is
      still there when the handler looks. */
  ghost predicate Signalled(s: State) {
    && IrqTokens(s) == (if s.masked then 1 else 0)
    && (Interrupts(s.queue) > 0 ==> s.incoming || s.relaunch)
    && (s.control.Got? && s.control.m.Interrupt? ==> s.relaunch || (s.incoming && s.control.latched == s.ppcMessage))
  }

  /** The right to send one reply is in exactly one place. */
  ghost predicate OneTurn(s: State) {
    (if s.mayRelaunch then 1 else 0) + (if s.relaunch then 1 else 0)
    + (if s.ring.hadRelaunch then 1 else 0) + (if s.outgoing then 1 else 0) == 1
  }

  /** Replies leave in the order they were made ready, and each is taken before the next. */
  ghost predicate Ordered(s: State) {
    && s.prepared == s.sent + s.ring.ready
    && s.sent == s.received + (if s.outgoing then [s.armMessage] else [])
    && (s.ring.CanSend() ==> s.control.Sending?)
  }

  /** Every request sent is in exactly one place. */
  ghost predicate Conserved(s: State) {
    forall id: nat {:trigger Everywhere(s)[id]} :: Everywhere(s)[id] == if id < s.requests then 1 else 0
  }

  ghost predicate Inv(s: State) {
    && Pressed(s)
    && Signalled(s)
    && OneTurn(s)
    && Ordered(s)
    && Conserved(s)
    && s.lost == 0
  }

  lemma {:induction false} CountQueue(q: seq<Message>)
    ensures |q| == |Replies(q)| + Interrupts(q)
  {
    if q != [] { CountQueue(q[1..]); }
  }

  lemma {:induction false} Appended(q: seq<Message>, m: Message)
    ensures Replies(q + [m]) == Replies(q) + if m.Reply? then multiset{m.id} else multiset{}
    ensures Interrupts(q + [m]) == Interrupts(q) + if m.Interrupt? then 1 else 0
  {
    if q == [] {
      assert q + [m] == [m];
    } else {
      assert (q + [m])[1..] == q[1..] + [m];
      Appended(q[1..], m);
    }
  }

  lemma RemoveFirst(q: seq<nat>)
    requires q != []
    ensures multiset(q) == multiset{q[0]} + multiset(q[1..])
  {
    assert q == [q[0]] + q[1..];
  }

  /** A queue of 50 never fills: at most 48 replies and one interrupt. */
  lemma NeverFull(s: State)
    requires Inv(s)
    ensures |s.queue| + |s.serving| + |InControl(s.control)| < HANDLER_SLOTS
    ensures |s.ring.ready| + |InControl(s.control)| + |s.serving| <= HeldCount(s)
  {
    CountQueue(s.queue);
  }

  lemma InitialInv()
    ensures Inv(INITIAL)
  {
  }

  lemma SafeRing(s: State)
    requires Inv(s)
    ensures RingSafe(s)
  {
    NeverFull(s);
  }

  /** What may follow a state: were the ring ever unsafe, anything. */
  ghost predicate Moves(s: State, step: Step, s': State) {
    Enabled(s, step) && (RingSafe(s) ==> s' == Next(s, step))
  }

  /** What the proofs about one step take from the invariant. */
  ghost predicate CanStep(s: State, step: Step) {
    && Enabled(s, step)
    && RingSafe(s)
    && |s.queue| < HANDLER_SLOTS
    && (step.Complete? || step.ServeReply? ==> |s.queue| + 1 < HANDLER_SLOTS)
    && (s.incoming ==> s.unacked)
    && Signalled(s)
  }

  lemma InvCanStep(s: State, step: Step, s': State)
    requires Inv(s) && Moves(s, step, s')
    ensures CanStep(s, step) && s' == Next(s, step)
  {
    hide Next, Conserved, Ordered, OneTurn;
    SafeRing(s);
    NeverFull(s);
  }

  /** Only a request taken on enters, and only a reply sent leaves. */
  lemma HeldMoves(s: State, step: Step)
    requires CanStep(s, step)
    ensures Next(s, step).lost == s.lost
    ensures Held(s) + Entering(s, step) == Held(Next(s, step)) + Leaving(s, step)
  {
    hide Held, Next, Signalled, Enabled;
    if step.RaiseIrq? || step.Receive? || step.Complete? || step.ServeReply? {
      QueueMoves(s, step);
    } else if step.TakeReply? || step.Refuse? || step.Transmit? {
      RingMoves(s, step);
    } else {
      HandlerMoves(s, step);
    }
  }

  function Entering(s: State, step: Step): multiset<nat> {
    if step.TakeIncoming? then multiset{s.ppcMessage} else multiset{}
  }

  function Leaving(s: State, step: Step): multiset<nat> {
    if step.Transmit? && s.ring.CanSend() then multiset{s.ring.ready[0]} else multiset{}
  }

  lemma QueueMoves(s: State, step: Step)
    requires CanStep(s, step) && (step.RaiseIrq? || step.Receive? || step.Complete? || step.ServeReply?)
    ensures Next(s, step).lost == s.lost && Held(Next(s, step)) == Held(s)
  {
    hide Held, Signalled, Post;
    match step {
      case RaiseIrq =>
        HandOver(s, s.(masked := true), multiset{});
        PostMoves(s.(masked := true), Interrupt);
      case Receive => ReceiveMoves(s);
      case Complete =>
        PostMoves(s.(control := Idle), Reply(s.control.id));
        HandOver(s.(control := Idle), s, multiset{s.control.id});
      case ServeReply(id) =>
        PostMoves(s.(serving := s.serving - multiset{id}), Reply(id));
        HandOver(s.(serving := s.serving - multiset{id}), s, multiset{id});
    }
  }

  lemma RingMoves(s: State, step: Step)
    requires CanStep(s, step) && (step.TakeReply? || step.Refuse? || step.Transmit?)
    ensures Next(s, step).lost == s.lost && Held(s) == Held(Next(s, step)) + Leaving(s, step)
  {
    hide Held, Signalled, Prepare, Send;
    match step {
      case TakeReply => PrepareMoves(s, s.control.m.id);
      case Refuse => PrepareMoves(s, s.control.id);
      case Transmit => SendMoves(s);
    }
  }

  lemma HandlerMoves(s: State, step: Step)
    requires CanStep(s, step)
    requires step.PpcSend? || step.PpcTake? || step.PpcRelaunch? || step.TakeRelaunch? || step.TakeIncoming?
             || step.TakeUnknown? || step.Count? || step.Reject? || step.Submit?
    ensures Next(s, step).lost == s.lost && Held(Next(s, step)) == Held(s) + Entering(s, step)
  {
    hide Held;
    var s' := Next(s, step);
    match step {
      case PpcSend => HandOver(s, s', multiset{});
      case PpcTake => HandOver(s, s', multiset{});
      case PpcRelaunch => HandOver(s, s', multiset{});
      case TakeRelaunch => HandOver(s, s', multiset{});
      case TakeIncoming => HandOver(s, s', multiset{s.ppcMessage});
      case TakeUnknown => HandOver(s, s', multiset{});
      case Count => HandOver(s, s', multiset{});
      case Reject => HandOver(s, s', multiset{});
      case Submit => HandOver(s, s', multiset{});
    }
  }

  /** Requests pass between the handler and the resource managers, or come in. */
  lemma HandOver(s: State, s': State, entered: multiset<nat>)
    requires s'.queue == s.queue && s'.ring.ready == s.ring.ready
    requires InControl(s'.control) + s'.leaked + s'.serving == InControl(s.control) + s.leaked + s.serving + entered
    ensures Held(s') == Held(s) + entered
  {
    var a, b := InControl(s.control) + s.leaked + s.serving, Replies(s.queue) + multiset(s.ring.ready);
    assert Held(s) == a + b && Held(s') == (a + entered) + b;
  }

  lemma PostMoves(s: State, m: Message)
    requires |s.queue| < HANDLER_SLOTS
    ensures Post(s, m).lost == s.lost
    ensures Held(Post(s, m)) == Held(s) + if m.Reply? then multiset{m.id} else multiset{}
  {
    hide InControl, Interrupts;
    Appended(s.queue, m);
  }

  lemma ReceiveMoves(s: State)
    requires s.control.Idle? && s.queue != []
    ensures Held(s.(queue := s.queue[1..], control := Got(s.queue[0], s.ppcMessage))) == Held(s)
  {
  }

  lemma PrepareMoves(s: State, id: nat)
    requires |s.ring.ready| < s.ring.waiting <= RING_SIZE && InControl(s.control) == multiset{id}
    ensures Held(Prepare(s, id)) == Held(s) && Prepare(s, id).lost == s.lost
  {
    Readied(s.ring.ready, id);
  }

  lemma SendMoves(s: State)
    requires s.ring.Valid() && s.control.Sending?
    ensures var s' := Send(s).(control := Idle);
            && s'.lost == s.lost
            && Held(s) == Held(s') + if s.ring.CanSend() then multiset{s.ring.ready[0]} else multiset{}
  {
    if s.ring.CanSend() { RemoveFirst(s.ring.ready); }
  }

  lemma Readied(q: seq<nat>, id: nat)
    ensures multiset(q + [id]) == multiset(q) + multiset{id}
  {
  }

  lemma HeldSize(s: State, step: Step)
    requires CanStep(s, step)
    ensures |Held(s)| + |Entering(s, step)| == |Held(Next(s, step))| + |Leaving(s, step)|
  {
    hide Held, Next, Signalled, Entering, Leaving, InControl, Replies;
    HeldMoves(s, step);
    SameSize(Held(s), Entering(s, step), Held(Next(s, step)), Leaving(s, step));
  }

  lemma SameSize(a: multiset<nat>, b: multiset<nat>, c: multiset<nat>, d: multiset<nat>)
    requires a + b == c + d
    ensures |a| + |b| == |c| + |d|
  {
    assert |a + b| == |c + d|;
  }

  predicate Acks(s: State, step: Step)
    requires RingSafe(s)
  {
    if step.TakeIncoming? then s.ring.waiting < RING_SIZE - 1
    else step.Transmit? && s.ring.CanSend() && s.ring.OwesAck()
  }

  /** What one step does to the counts of requests held and acknowledged. */
  ghost predicate Counts(s: State, step: Step, s': State)
    requires RingSafe(s)
  {
    && HeldCount(s) + |Entering(s, step)| == HeldCount(s') + |Leaving(s, step)|
    && s'.unacked == (step.PpcSend? || (s.unacked && !Acks(s, step)))
    && s'.acks == s.acks + if Acks(s, step) then 1 else 0
  }

  lemma CountersMove(s: State, step: Step)
    requires CanStep(s, step)
    ensures Counts(s, step, Next(s, step))
  {
    hide Signalled, Next, Counts, Entering, Leaving;
    if step.TakeReply? || step.Refuse? || step.Transmit? || step.Complete? { RingCounts(s, step); } else { OtherCounts(s, step); }
  }

  lemma RingCounts(s: State, step: Step)
    requires CanStep(s, step) && (step.TakeReply? || step.Refuse? || step.Transmit? || step.Complete?)
    ensures Counts(s, step, Next(s, step))
  {
    hide Signalled, Entering, Leaving;
    EnteringCount(s, step);
  }

  lemma EnteringCount(s: State, step: Step)
    ensures |Entering(s, step)| == if step.TakeIncoming? then 1 else 0
    ensures |Leaving(s, step)| == if step.Transmit? && s.ring.CanSend() then 1 else 0
  {
  }

  lemma OtherCounts(s: State, step: Step)
    requires CanStep(s, step) && !step.TakeReply? && !step.Refuse? && !step.Transmit? && !step.Complete?
    ensures Counts(s, step, Next(s, step))
  {
    hide Signalled, Send, Prepare, Entering, Leaving, Ring.AfterSend, Ring.AfterPrepare;
    EnteringCount(s, step);
    match step {
      case PpcSend => case PpcTake => case PpcRelaunch => case RaiseIrq => case Receive =>
      case TakeRelaunch => case TakeIncoming => case TakeUnknown => case Count =>
      case Reject => case Submit => case ServeReply(_) =>
    }
  }

  lemma PendingMoves(s: State, step: Step)
    requires CanStep(s, step)
    ensures var s' := Next(s, step);
            && s'.requests == s.requests + (if step.PpcSend? then 1 else 0)
            && s'.incoming == (step.PpcSend? || (s.incoming && !step.TakeIncoming?))
            && s'.ppcMessage == (if step.PpcSend? then s.requests else s.ppcMessage)
            && (step.PpcSend? ==> !s.incoming) && (step.TakeIncoming? ==> s.incoming)
  {
    hide Signalled;
    match step {
      case PpcSend => case PpcTake => case PpcRelaunch => case RaiseIrq => case Receive =>
      case TakeReply => case TakeRelaunch => case TakeIncoming => case TakeUnknown => case Count =>
      case Reject => case Refuse => case Submit => case Complete => case Transmit => case ServeReply(_) =>
    }
  }

  lemma KeepsPressed(s: State, step: Step)
    requires CanStep(s, step) && Pressed(s)
    ensures Pressed(Next(s, step))
  {
    hide Held, Signalled;
    HeldSize(s, step);
    CountersMove(s, step);
    PendingMoves(s, step);
    hide Next;
  }

  lemma KeepsSignalled(s: State, step: Step)
    requires CanStep(s, step)
    ensures Signalled(Next(s, step))
  {
    hide CanStep, Next, Signalled;
    if step.RaiseIrq? || step.Receive? || step.Complete? || step.ServeReply? { QueueSignalled(s, step); } else { OthersSignalled(s, step); }
  }

  lemma QueueSignalled(s: State, step: Step)
    requires CanStep(s, step) && (step.RaiseIrq? || step.Receive? || step.Complete? || step.ServeReply?)
    ensures Signalled(Next(s, step))
  {
    hide Everywhere, Replies, Prepare;
    match step {
      case RaiseIrq => Appended(s.queue, Interrupt);
      case Complete => Appended(s.queue, Reply(s.control.id));
      case ServeReply(id) => Appended(s.queue, Reply(id));
      case Receive =>
    }
  }

  lemma OthersSignalled(s: State, step: Step)
    requires CanStep(s, step) && !step.RaiseIrq? && !step.Receive? && !step.Complete? && !step.ServeReply?
    ensures Signalled(Next(s, step))
  {
    hide Everywhere, Interrupts, Replies, Post;
    match step {
      case PpcSend => case PpcTake => case PpcRelaunch =>
      case TakeReply => case TakeRelaunch => case TakeIncoming => case TakeUnknown => case Count =>
      case Reject => case Refuse => case Submit => case Transmit =>
    }
  }

  lemma KeepsTurn(s: State, step: Step)
    requires CanStep(s, step) && OneTurn(s)
    ensures OneTurn(Next(s, step))
  {
    hide Signalled;
  }

  lemma KeepsOrder(s: State, step: Step)
    requires CanStep(s, step) && OneTurn(s) && Ordered(s)
    ensures Ordered(Next(s, step))
  {
    hide Signalled, Next, Ordered, OneTurn;
    if step.TakeReply? || step.Refuse? || step.Transmit? || step.Complete? { RingOrder(s, step); } else { OtherOrder(s, step); }
  }

  lemma RingOrder(s: State, step: Step)
    requires CanStep(s, step) && OneTurn(s) && Ordered(s) && (step.TakeReply? || step.Refuse? || step.Transmit? || step.Complete?)
    ensures Ordered(Next(s, step))
  {
    hide Signalled;
    if step.Transmit? && s.ring.CanSend() {
      assert s.ring.ready == [s.ring.ready[0]] + s.ring.ready[1..];
    }
  }

  lemma OtherOrder(s: State, step: Step)
    requires CanStep(s, step) && OneTurn(s) && Ordered(s)
    requires !step.TakeReply? && !step.Refuse? && !step.Transmit? && !step.Complete?
    ensures Ordered(Next(s, step))
  {
    hide Signalled, Send, Prepare;
    match step {
      case PpcSend => case PpcTake => case PpcRelaunch => case RaiseIrq => case Receive =>
      case TakeRelaunch => case TakeIncoming => case TakeUnknown => case Count =>
      case Reject => case Submit => case ServeReply(_) =>
    }
  }

  lemma KeepsConserved(s: State, step: Step)
    requires CanStep(s, step) && Conserved(s)
    ensures Conserved(Next(s, step))
  {
    hide Next, Everywhere, Signalled;
    EverywhereMoves(s, step);
    OneMore(Everywhere(s), s.requests);
    var s' := Next(s, step);
    forall id: nat
      ensures Everywhere(s')[id] == if id < s'.requests then 1 else 0
    {
      assert Everywhere(s)[id] == if id < s.requests then 1 else 0;
    }
  }

  lemma OneMore(m: multiset<nat>, id: nat)
    ensures forall k: nat :: (m + multiset{id})[k] == m[k] + if k == id then 1 else 0
  {
  }

  lemma EverywhereMoves(s: State, step: Step)
    requires CanStep(s, step)
    ensures Next(s, step).requests == s.requests + if step.PpcSend? then 1 else 0
    ensures Everywhere(Next(s, step)) == Everywhere(s) + if step.PpcSend? then multiset{s.requests} else multiset{}
  {
    hide Held, Next, Signalled, Entering, Leaving, Pending, InControl, Replies;
    var s' := Next(s, step);
    var sent := if step.PpcSend? then multiset{s.requests} else multiset{};
    HeldMoves(s, step);
    OutsideMoves(s, step);
    RequestMoves(s, step);
    Rebalance(Pending(s), Pending(s'), Held(s), Held(s'), multiset(s.sent), multiset(s'.sent),
              sent, Entering(s, step), Leaving(s, step));
  }

  lemma Rebalance(p: multiset<nat>, p': multiset<nat>, h: multiset<nat>, h': multiset<nat>, t: multiset<nat>, t': multiset<nat>,
                  n: multiset<nat>, e: multiset<nat>, l: multiset<nat>)
    requires p + n == p' + e && h + e == h' + l && t' == t + l
    ensures p' + h' + t' == p + h + t + n
  {
    forall x: nat
      ensures (p' + h' + t')[x] == (p + h + t + n)[x]
    {
      assert (p + n)[x] == (p' + e)[x] && (h + e)[x] == (h' + l)[x];
    }
  }

  lemma OutsideMoves(s: State, step: Step)
    requires CanStep(s, step)
    ensures var s' := Next(s, step);
            && s'.requests == s.requests + (if step.PpcSend? then 1 else 0)
            && multiset(s'.sent) == multiset(s.sent) + Leaving(s, step)
  {
    if step.Transmit? && s.ring.CanSend() { Readied(s.sent, s.ring.ready[0]); }
    hide Signalled;
    match step {
      case PpcSend => case PpcTake => case PpcRelaunch => case RaiseIrq => case Receive =>
      case TakeReply => case TakeRelaunch => case TakeIncoming => case TakeUnknown => case Count =>
      case Reject => case Refuse => case Submit => case Complete => case Transmit => case ServeReply(_) =>
    }
  }

  lemma RequestMoves(s: State, step: Step)
    requires CanStep(s, step)
    ensures var s' := Next(s, step);
            Pending(s) + (if step.PpcSend? then multiset{s.requests} else multiset{}) == Pending(s') + Entering(s, step)
  {
    hide Signalled, Next, Enabled;
    PendingMoves(s, step);
  }

  lemma StepKeepsInv(s: State, step: Step, s': State)
    requires Inv(s) && Moves(s, step, s')
    ensures Inv(s')
  {
    InvCanStep(s, step, s');
    hide Pressed, Signalled, OneTurn, Ordered, Conserved, Next;
    KeepsPressed(s, step);
    KeepsSignalled(s, step);
    KeepsTurn(s, step);
    KeepsOrder(s, step);
    KeepsConserved(s, step);
    HeldMoves(s, step);
  }

  /** Any steps of any of the parties, in any order. */
  ghost predicate Path(states: seq<State>, steps: seq<Step>) {
    && |states| == |steps| + 1
    && forall i :: 0 <= i < |steps| ==> Moves(states[i], steps[i], states[i + 1])
  }

  ghost predicate Run(states: seq<State>, steps: seq<Step>) { Path(states, steps) && states[0] == INITIAL }

  /** Every state of every run. */
  lemma {:induction false} RunsKeepInv(states: seq<State>, steps: seq<Step>, i: nat)
    requires Run(states, steps) && i < |states|
    ensures Inv(states[i])
    decreases i
  {
    if i == 0 {
      InitialInv();
    } else {
      RunsKeepInv(states, steps, i - 1);
      assert Moves(states[i - 1], steps[i - 1], states[i]);
      StepKeepsInv(states[i - 1], steps[i - 1], states[i]);
    }
  }

  // ---------------------------------------------------------------- what follows

  /** Back-pressure in every state of every run: the PowerPC is kept waiting exactly while its request
      is pending, or while 48 are waiting, one just cleared and not yet counted among them. */
  lemma BackPressure(states: seq<State>, steps: seq<Step>, i: nat)
    requires Run(states, steps) && i < |states|
    ensures var s := states[i];
            && |s.ring.ready| <= s.ring.waiting <= 48
            && (s.unacked <==> s.incoming || s.ring.waiting + (if s.control.Acknowledged? then 1 else 0) == 48)
            && s.requests - 1 <= s.acks <= s.requests
            && (s.unacked <==> s.acks < s.requests)
  {
    RunsKeepInv(states, steps, i);
    SafeRing(states[i]);
  }

  /** No reply and no interrupt is ever refused by the handler's queue, none is answered
      twice, and the branch for an unknown interrupt, which would leave the interrupt
      masked for good, is never taken. */
  lemma NothingDropped(states: seq<State>, steps: seq<Step>, i: nat)
    requires Run(states, steps) && i < |states|
    ensures var s := states[i];
            && |s.queue| < 50 && s.lost == 0
            && !Enabled(s, TakeUnknown)
            && (forall id: nat {:trigger multiset(s.sent)[id]} :: multiset(s.sent)[id] <= 1)
            && RingSafe(s)
  {
    RunsKeepInv(states, steps, i);
    ghost var s := states[i];
    NeverFull(s);
    SafeRing(s);
    forall id: nat
      ensures multiset(s.sent)[id] <= 1
    {
      assert Everywhere(s)[id] <= 1;
    }
  }

  /** A request that is about to be handed on finds the handler below its limit of messages. */
  lemma HandlerBelowLimit(states: seq<State>, steps: seq<Step>, i: nat)
    requires Run(states, steps) && i < |states| && Enabled(states[i], Submit)
    ensures |states[i].serving| < 48
  {
    RunsKeepInv(states, steps, i);
    NeverFull(states[i]);
  }

  /** The PowerPC receives replies in the order they were made ready, each before the next
      is written. */
  lemma RepliesInOrder(states: seq<State>, steps: seq<Step>, i: nat)
    requires Run(states, steps) && i < |states|
    ensures var s := states[i];
            && s.received <= s.sent <= s.prepared
            && (s.ring.CanSend() ==> !s.outgoing)
            && |s.sent| - |s.received| == if s.outgoing then 1 else 0
  {
    RunsKeepInv(states, steps, i);
  }

  /** What a step puts into the handler's queue: the message of the interrupt, or a reply. */
  function Put(s: State, step: Step): seq<Message> {
    if step.RaiseIrq? then [Interrupt]
    else if step.Complete? && s.control.Counted? then [Reply(s.control.id)]
    else if step.ServeReply? then [Reply(step.id)]
    else []
  }

  /** What was put into the queue, and what the handler took, in the first n steps. */
  function Posted(states: seq<State>, steps: seq<Step>, n: nat): seq<Message>
    requires n <= |steps| < |states|
  {
    if n == 0 then [] else Posted(states, steps, n - 1) + Put(states[n - 1], steps[n - 1])
  }

  function Taken(states: seq<State>, steps: seq<Step>, n: nat): seq<Message>
    requires n <= |steps| < |states|
  {
    if n == 0 then []
    else Taken(states, steps, n - 1) + if steps[n - 1].Receive? && states[n].control.Got? then [states[n].control.m] else []
  }

  /** The handler takes the messages in the order they were put, none lost and none made up. */
  lemma {:induction false} TakenInOrder(states: seq<State>, steps: seq<Step>, n: nat)
    requires Run(states, steps) && n <= |steps|
    ensures Posted(states, steps, n) == Taken(states, steps, n) + states[n].queue
    ensures n > 0 && steps[n - 1].Receive? ==> states[n].control.Got?
    decreases n
  {
    if n > 0 {
      hide Next, Inv, Run, RingSafe, Enabled;
      TakenInOrder(states, steps, n - 1);
      var s, step, p, t := states[n - 1], steps[n - 1], Posted(states, steps, n - 1), Taken(states, steps, n - 1);
      QueueAt(states, steps, n - 1);
      if step.Receive? {
        Shift(p, t, s.queue);
      } else {
        Grow(p, t, s.queue, Put(s, step));
      }
    }
  }

  lemma Shift(p: seq<Message>, t: seq<Message>, q: seq<Message>)
    requires p == t + q && q != []
    ensures p + [] == (t + [q[0]]) + q[1..]
  {
  }

  lemma Grow(p: seq<Message>, t: seq<Message>, q: seq<Message>, put: seq<Message>)
    requires p == t + q
    ensures p + put == (t + []) + (q + put)
  {
  }

  lemma QueueAt(states: seq<State>, steps: seq<Step>, n: nat)
    requires Run(states, steps) && n < |steps|
    ensures var s, step, s' := states[n], steps[n], states[n + 1];
            if step.Receive? then s.queue != [] && Put(s, step) == [] && s'.queue == s.queue[1..] && s'.control == Got(s.queue[0], s.ppcMessage)
            else s'.queue == s.queue + Put(s, step)
  {
    hide Next, Inv, RingSafe;
    RunsKeepInv(states, steps, n);
    assert Moves(states[n], steps[n], states[n + 1]);
    NeverFull(states[n]);
    SafeRing(states[n]);
    QueueChange(states[n], steps[n]);
  }

  lemma QueueChange(s: State, step: Step)
    requires Enabled(s, step) && RingSafe(s) && |s.queue| < HANDLER_SLOTS
    ensures if step.Receive? then s.queue != [] && Next(s, step).queue == s.queue[1..] && Next(s, step).control == Got(s.queue[0], s.ppcMessage)
            else Next(s, step).queue == s.queue + Put(s, step)
  {
    hide Prepare, Send;
    match step {
      case TakeReply => PrepareKeepsQueue(s, s.control.m.id);
      case Refuse => PrepareKeepsQueue(s, s.control.id);
      case Transmit => SendKeepsQueue(s);
      case PpcSend => case PpcTake => case PpcRelaunch => case RaiseIrq => case Receive => case TakeRelaunch => case TakeIncoming =>
      case TakeUnknown => case Count => case Reject => case Submit => case Complete => case ServeReply(_) =>
    }
  }

  lemma PrepareKeepsQueue(s: State, id: nat)
    requires |s.ring.ready| < s.ring.waiting <= RING_SIZE
    ensures Prepare(s, id).queue == s.queue
  {
  }

  lemma SendKeepsQueue(s: State)
    requires s.ring.Valid()
    ensures Send(s).queue == s.queue
  {
  }

  /** The request the handler takes on is the one the PowerPC sent, although the message
      register is read before it is known why the interrupt came. */
  lemma LatchedRight(states: seq<State>, steps: seq<Step>, i: nat)
    requires Run(states, steps) && i < |steps| && steps[i].TakeIncoming?
    ensures states[i + 1].control == Acknowledged(states[i].ppcMessage)
  {
    RunsKeepInv(states, steps, i);
    SafeRing(states[i]);
    assert Moves(states[i], steps[i], states[i + 1]);
  }

  /** The steps that need neither the PowerPC nor time. */
  predicate Internal(step: Step) { !step.PpcSend? && !step.PpcTake? && !step.PpcRelaunch? }

  /** Nothing on this side can move. */
  ghost predicate Still(s: State) { forall step :: Internal(step) ==> !Enabled(s, step) }

  /** When nothing on this side can move, every request held is a reply that waits for the
      PowerPC, which holds the turn, or was dropped for its address. */
  lemma AtRest(states: seq<State>, steps: seq<Step>, i: nat)
    requires Run(states, steps) && i < |states|
    requires Still(states[i])
    ensures var s := states[i];
            && s.ring.waiting == |s.leaked| + |s.ring.ready|
            && (s.ring.ready != [] ==> s.mayRelaunch || s.outgoing)
            && !s.incoming
            && (s.unacked ==> |s.leaked| + |s.ring.ready| == RING_SIZE)
  {
    hide Conserved, Run;
    RunsKeepInv(states, steps, i);
    StateAtRest(states[i]);
  }

  lemma StateAtRest(s: State)
    requires Inv(s)
    requires Still(s)
    ensures s.ring.waiting == |s.leaked| + |s.ring.ready| && !s.incoming
    ensures s.ring.ready != [] ==> s.mayRelaunch || s.outgoing
    ensures s.unacked ==> |s.leaked| + |s.ring.ready| == RING_SIZE
  {
    hide Conserved;
    NothingUnderWay(s);
    hide Enabled;
    assert Held(s) == s.leaked + multiset(s.ring.ready);
  }

  lemma NothingUnderWay(s: State)
    requires Inv(s)
    requires Still(s)
    ensures s.control.Idle? && s.queue == [] && s.serving == multiset{} && !s.incoming && !s.relaunch
  {
    hide Conserved, Ordered, OneTurn, Pressed;
    assert !Enabled(s, Receive) && !Enabled(s, RaiseIrq) && !Enabled(s, Transmit) && !Enabled(s, Count) && !Enabled(s, Submit);
    assert !Enabled(s, TakeReply) && !Enabled(s, TakeRelaunch) && !Enabled(s, TakeIncoming) && !Enabled(s, TakeUnknown);
    forall id: nat ensures id !in s.serving { assert !Enabled(s, ServeReply(id)); }
  }

  /** A request dropped for its address holds its place for good. */
  lemma LeakStays(s: State, step: Step)
    requires Enabled(s, step) && RingSafe(s)
    ensures if step.Reject? then s.leaked <= Next(s, step).leaked else Next(s, step).leaked == s.leaked
    ensures Next(s, step).requests == s.requests + if step.PpcSend? then 1 else 0
  {
    hide Send, Prepare, Post;
    match step {
      case RaiseIrq => PostKeeps(s.(masked := true), Interrupt);
      case TakeReply => PrepareKeeps(s, s.control.m.id);
      case Refuse => PrepareKeeps(s, s.control.id);
      case Complete =>
        PostKeeps(s.(control := Idle), Reply(s.control.id));
        PrepareKeeps(s, s.control.id);
      case Transmit => SendKeeps(s);
      case ServeReply(id) => PostKeeps(s.(serving := s.serving - multiset{id}), Reply(id));
      case PpcSend => case PpcTake => case PpcRelaunch => case Receive =>
      case TakeRelaunch => case TakeIncoming => case TakeUnknown => case Count => case Reject => case Submit =>
    }
  }

  lemma PostKeeps(s: State, m: Message)
    ensures Post(s, m).leaked == s.leaked && Post(s, m).requests == s.requests
  {
  }

  lemma PrepareKeeps(s: State, id: nat)
    requires |s.ring.ready| < s.ring.waiting <= RING_SIZE
    ensures Prepare(s, id).leaked == s.leaked && Prepare(s, id).requests == s.requests
  {
  }

  lemma SendKeeps(s: State)
    requires s.ring.Valid()
    ensures Send(s).leaked == s.leaked && Send(s).requests == s.requests
  {
  }

  lemma {:induction false} LeaksStay(states: seq<State>, steps: seq<Step>, i: nat, j: nat)
    requires Run(states, steps) && i <= j < |states|
    ensures states[i].leaked <= states[j].leaked
    decreases j
  {
    hide Inv, Next, RingSafe, Enabled;
    if i < j {
      LeaksStay(states, steps, i, j - 1);
      RunsKeepInv(states, steps, j - 1);
      SafeRing(states[j - 1]);
      assert Moves(states[j - 1], steps[j - 1], states[j]);
      LeakStays(states[j - 1], steps[j - 1]);
    }
  }

  /** After 48 such requests the PowerPC is never acknowledged again. */
  lemma {:induction false} LeaksBlock(states: seq<State>, steps: seq<Step>, i: nat, j: nat)
    requires Run(states, steps) && i <= j < |states| && |states[i].leaked| == RING_SIZE
    ensures states[j].unacked && states[j].requests == states[i].requests
    decreases j
  {
    hide Inv, Next, RingSafe;
    LeaksStay(states, steps, i, j);
    RunsKeepInv(states, steps, j);
    LeakFills(states[i].leaked, states[j]);
    if i < j {
      LeaksBlock(states, steps, i, j - 1);
      RunsKeepInv(states, steps, j - 1);
      SafeRing(states[j - 1]);
      assert Moves(states[j - 1], steps[j - 1], states[j]);
      LeakStays(states[j - 1], steps[j - 1]);
    }
  }

  lemma LeakFills(leaked: multiset<nat>, s: State)
    requires Inv(s) && leaked <= s.leaked
    ensures |leaked| <= HeldCount(s)
    ensures |leaked| == RING_SIZE ==> s.unacked
  {
    assert s.leaked == leaked + (s.leaked - leaked);
  }
}
