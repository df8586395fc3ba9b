/** Bounded queues of message pointers, kept in a ring over a fixed heap. */
module MessageQueues {

  datatype Answer = Success | QueueFull | QueueEmpty | Waits

  datatype Call<T> = Send(message: T) | Receive

  /** The messages of the calls that send. */
  function Sends<T>(calls: seq<Call<T>>): seq<T> {
    if calls == [] then []
    else Sends(calls[..|calls| - 1]) + if calls[|calls| - 1].Send? then [calls[|calls| - 1].message] else []
  }

  class MessageQueue<T> {
    const heap: array<T>
    var first: nat
    var used: nat

    ghost predicate Valid()
      reads this
    {
      && used <= heap.Length
      && (heap.Length > 0 ==> first < heap.Length)
    }

    /** The place in the heap of the i-th message. */
    function Slot(i: nat): (k: nat)
      reads this`first
      requires first < heap.Length && i <= heap.Length
      ensures k < heap.Length
    {
      if heap.Length <= first + i then first + i - heap.Length else first + i
    }

    /** The messages waiting, oldest first. */
    ghost function Contents(): (q: seq<T>)
      reads this, heap
      requires Valid()
      ensures |q| == used
    {
      seq(used, i requires 0 <= i < used && Valid() reads this, heap => heap[Slot(i)])
    }

    constructor (store: array<T>)
      ensures Valid() && heap == store && Contents() == []
    {
      heap, first, used := store, 0, 0;
    }

    /** Append a message. A full queue refuses it, or makes the sender wait. */
    method SendMessageToQueue(message: T, wait: bool) returns (ret: Answer)
      requires Valid()
      modifies this`used, heap
      ensures Valid()
      ensures ret == if old(used) < heap.Length then Success else if wait then Waits else QueueFull
      ensures Contents() == if old(used) < heap.Length then old(Contents()) + [message] else old(Contents())
    {
      if heap.Length <= used {
        return if wait then Waits else QueueFull;
      }
      ghost var was := Contents();
      var heapIndex := Slot(used);
      SlotsDistinct();
      heap[heapIndex] := message;
      used := used + 1;
      assert Contents() == was + [message];
      return Success;
    }

    /** What an interrupt does: append the message registered for it, unless the queue is full. */
    method EnqueueEventHandler(message: T)
      requires Valid()
      modifies this`used, heap
      ensures Valid()
      ensures Contents() == if old(used) < heap.Length then old(Contents()) + [message] else old(Contents())
    {
      if used >= heap.Length { return; }
      ghost var was := Contents();
      SlotsDistinct();
      var messageIndex := used + first;
      used := used + 1;
      if messageIndex >= heap.Length { messageIndex := messageIndex - heap.Length; }
      heap[messageIndex] := message;
      assert Contents() == was + [message];
    }

    /** Put a message before all others. */
    method JamMessage(message: T, wait: bool) returns (ret: Answer)
      requires Valid()
      modifies this, heap
      ensures Valid()
      ensures ret == if old(used) < heap.Length then Success else if wait then Waits else QueueFull
      ensures Contents() == if ret.Success? then [message] + old(Contents()) else old(Contents())
    {
      if heap.Length <= used {
        return if wait then Waits else QueueFull;
      }
      ghost var was := Contents();
      ghost var before := heap[..];
      first := if first == 0 then heap.Length - 1 else first - 1;
      SlotsDistinct();
      heap[first] := message;
      used := used + 1;
      forall i | 0 < i < used
        ensures Contents()[i] == was[i - 1]
      {
        assert Slot(i) != Slot(0);
        assert heap[Slot(i)] == before[Slot(i)];
      }
      return Success;
    }

    /** Take the oldest message. An empty queue answers so, or makes the receiver wait. */
    method ReceiveMessageFromQueue(wait: bool) returns (ret: Answer, message: T)
      requires Valid() && heap.Length > 0
      modifies this
      ensures Valid()
      ensures ret == if old(used) > 0 then Success else if wait then Waits else QueueEmpty
      ensures ret.Success? ==> old(Contents()) == [message] + Contents()
      ensures !ret.Success? ==> Contents() == old(Contents())
    {
      message := heap[first];
      if used == 0 {
        return if wait then Waits else QueueEmpty, message;
      }
      ghost var was := Contents();
      var next := first + 1;
      if heap.Length <= next { next := next - heap.Length; }
      first, used := next, used - 1;
      assert was == [message] + Contents();
      return Success, message;
    }

    /** Any sequence of sends and receives: what was taken and what still waits is what waited before
        and what was sent, in that order; what was sent is all of it, unless the queue was full. */
    method Serve(calls: seq<Call<T>>) returns (ghost accepted: seq<T>, ghost taken: seq<T>, refused: nat)
      requires Valid() && heap.Length > 0
      modifies this, heap
      ensures Valid() && old(Contents()) + accepted == taken + Contents()
      ensures |accepted| + refused == |Sends(calls)| && (refused == 0 ==> accepted == Sends(calls))
    {
      accepted, taken, refused := [], [], 0;
      assert calls[..0] == [];
      for i := 0 to |calls|
        invariant Valid() && old(Contents()) + accepted == taken + Contents()
        invariant |accepted| + refused == |Sends(calls[..i])| && (refused == 0 ==> accepted == Sends(calls[..i]))
      {
        ghost var before := Contents();
        assert calls[..i + 1][..i] == calls[..i];
        match calls[i] {
          case Send(m) =>
            var ret := SendMessageToQueue(m, false);
            if ret == Success {
              accepted := accepted + [m];
              assert taken + (before + [m]) == (taken + before) + [m];
            } else {
              refused := refused + 1;
            }
          case Receive =>
            var ret, m := ReceiveMessageFromQueue(false);
            if ret == Success {
              assert taken + ([m] + Contents()) == (taken + [m]) + Contents();
              taken := taken + [m];
            }
        }
      }
      assert calls[..|calls|] == calls;
    }

    lemma SlotsDistinct()
      requires first < heap.Length
      ensures forall i, j :: 0 <= i < j < heap.Length ==> Slot(i) != Slot(j)
    {
    }
  }
}
