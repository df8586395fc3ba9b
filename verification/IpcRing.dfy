/** The ring of replies that wait for the PowerPC, and the counters of its back-pressure. */
module IpcRing {

  const RING_SIZE := 0x30

  /** The ring as a value: replies ready to send, oldest first, and how many requests were
      taken on and not yet answered. */
  datatype Ring = Ring(hadRelaunch: bool, waiting: nat, ready: seq<nat>)
  {
    predicate Valid() { |ready| <= waiting <= RING_SIZE }

    predicate CanSend() { hadRelaunch && ready != [] }

    function AfterSend(): (r: Ring)
      requires Valid() && CanSend()
      ensures r.Valid()
    {
      Ring(false, waiting - 1, ready[1..])
    }

    /** The send that brings the number of requests below the size of the ring again owes
        the PowerPC the acknowledgement held back before. */
    predicate OwesAck()
      requires Valid() && CanSend()
    {
      waiting - 1 == RING_SIZE - 1
    }

    function AfterPrepare(request: nat): (r: Ring)
      requires |ready| < waiting <= RING_SIZE
      ensures r.Valid()
    {
      this.(ready := ready + [request])
    }
  }

  /** The ring functions are what the methods of the buffer do, and 48 requests fill it. */
  lemma RingIs(r: Ring, request: nat)
    ensures r.Valid() <==> |r.ready| <= r.waiting <= 48
    ensures r.CanSend() <==> r.hadRelaunch && |r.ready| > 0
    ensures r.Valid() && r.CanSend() ==> r.AfterSend() == Ring(false, r.waiting - 1, r.ready[1..]) && (r.OwesAck() <==> r.waiting == 48)
    ensures |r.ready| < r.waiting <= 48 ==> r.AfterPrepare(request) == Ring(r.hadRelaunch, r.waiting, r.ready + [request])
  {
  }

  class CircularBuffer {
    var hadRelaunchFlag: bool
    var waitingInBufferAmount: nat
    var readyToSendAmount: nat
    var sendingIndex: nat
    var prepareToSendIndex: nat
    const backingArray: array<nat>

    ghost predicate Valid()
      reads this
    {
      && backingArray.Length == RING_SIZE
      && sendingIndex < RING_SIZE
      && readyToSendAmount <= waitingInBufferAmount <= RING_SIZE
      && prepareToSendIndex == (sendingIndex + readyToSendAmount) % RING_SIZE
    }

    /** The slot of the i-th reply still to be sent. */
    function Slot(i: nat): nat
      reads this`sendingIndex
    {
      (sendingIndex + i) % RING_SIZE
    }

    ghost function View(): (r: Ring)
      reads this, backingArray
      requires Valid()
      ensures r.Valid()
    {
      Ring(hadRelaunchFlag, waitingInBufferAmount,
           seq(readyToSendAmount, i requires 0 <= i < readyToSendAmount && Valid() reads this, backingArray =>
             backingArray[Slot(i)]))
    }

    constructor ()
      ensures Valid() && View() == Ring(false, 0, [])
    {
      hadRelaunchFlag := false;
      waitingInBufferAmount, readyToSendAmount, sendingIndex, prepareToSendIndex := 0, 0, 0, 0;
      backingArray := new nat[RING_SIZE](_ => 0);
    }

    /** Send the oldest reply if the PowerPC asked for one: what goes to the message register,
        and whether the acknowledgement held back goes with it. */
    method SendIpcRequest() returns (sent: bool, message: nat, ack: bool)
      requires Valid()
      modifies this
      ensures Valid()
      ensures sent <==> old(hadRelaunchFlag) && |old(View()).ready| > 0
      ensures !sent ==> View() == old(View()) && !ack
      ensures sent ==>
                var was := old(View());
                message == was.ready[0] && View() == Ring(false, was.waiting - 1, was.ready[1..]) && (ack <==> was.waiting == 48)
    {
      hide Ring.Valid;
      if !hadRelaunchFlag || readyToSendAmount == 0 {
        return false, 0, false;
      }
      ghost var was := View();
      message := backingArray[sendingIndex];
      assert was.ready[0] == message;
      sendingIndex := (sendingIndex + 1) % RING_SIZE;
      readyToSendAmount := readyToSendAmount - 1;
      waitingInBufferAmount := waitingInBufferAmount - 1;
      hadRelaunchFlag := false;
      forall i | 0 <= i < readyToSendAmount
        ensures Slot(i) == old(Slot(i + 1))
      {
        Around(old(sendingIndex), 1, i);
      }
      Around(old(sendingIndex), 1, readyToSendAmount);
      assert View().ready == was.ready[1..];
      return true, message, waitingInBufferAmount == RING_SIZE - 1;
    }

    /** Put a reply behind all others, then send one if possible. */
    method FlushAndSendRequest(request: nat) returns (sent: bool, message: nat, ack: bool)
      requires Valid() && readyToSendAmount < waitingInBufferAmount
      modifies this, backingArray
      ensures Valid()
      ensures var was := old(View());
              var ready := was.ready + [request];
              && (sent <==> was.hadRelaunch)
              && (!sent ==> View() == Ring(false, was.waiting, ready) && !ack)
              && (sent ==> message == ready[0] && View() == Ring(false, was.waiting - 1, ready[1..]) && (ack <==> was.waiting == 48))
    {
      ghost var was := View();
      Vacant();
      Around(sendingIndex, readyToSendAmount, 1);
      backingArray[prepareToSendIndex] := request;
      prepareToSendIndex := (prepareToSendIndex + 1) % RING_SIZE;
      readyToSendAmount := readyToSendAmount + 1;
      assert View().ready == was.ready + [request];
      sent, message, ack := SendIpcRequest();
    }

    /** Steps round the ring add up. */
    static lemma Around(from: nat, a: nat, b: nat)
      ensures ((from + a) % RING_SIZE + b) % RING_SIZE == (from + (a + b)) % RING_SIZE
    {
    }

    /** The slot the next reply goes to holds none that is still to be sent. */
    lemma Vacant()
      requires Valid() && readyToSendAmount < RING_SIZE
      ensures forall i :: 0 <= i < readyToSendAmount ==> Slot(i) != prepareToSendIndex
    {
    }
  }
}
