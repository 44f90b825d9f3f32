/**
 The reliable ordered channel as the source has it: one object whose retransmission table and
 reorder buffer are fixed arrays updated in place. Every method is proved equal to the
 function of ReliableSender or ReliableReceiver that specifies it.
 */
module ReliableChannel {
  import opened SlotTables
  import opened Words
  import opened Bitwise
  import opened SequenceNumbers
  import opened ReliableSender
  import opened ReliableReceiver
  import RetrySchedule

  const DEFAULT_MAX_RETRIES: u8 := 16

  lemma SliceIs<T>(s: seq<T>, from: nat, part: seq<T>)
    requires from + |part| <= |s| && forall i :: 0 <= i < |part| ==> s[from + i] == part[i]
    ensures s[from..from + |part|] == part
  {
  }

  class Channel {
    var nextOutgoingSeq: u16
    var expectedIncomingSeq: u16
    const pendingPackets: array<Option<Pending>>
    const reorderBuffer: array<Option<Incoming>>
    var maxRetries: u8
    var isTimedOut: bool

    function Sending(): Sender
      reads this, pendingPackets
    {
      Sender(nextOutgoingSeq, pendingPackets[..])
    }

    function Receiving(): Receiver
      reads this, reorderBuffer
    {
      Receiver(expectedIncomingSeq, reorderBuffer[..])
    }

    constructor (pendingCap: nat, orderedCap: nat)
      ensures Sending() == Sender(0, seq(pendingCap, _ => None))
      ensures Receiving() == Receiver(0, seq(orderedCap, _ => None))
      ensures maxRetries == DEFAULT_MAX_RETRIES && !isTimedOut
      ensures fresh(pendingPackets) && fresh(reorderBuffer)
    {
      nextOutgoingSeq, expectedIncomingSeq := 0, 0;
      pendingPackets := new Option<Pending>[pendingCap](_ => None);
      reorderBuffer := new Option<Incoming>[orderedCap](_ => None);
      maxRetries, isTimedOut := DEFAULT_MAX_RETRIES, false;
    }

    /** The oldest unacknowledged sequence: no pending packet is further behind the next one. */
    method OldestPendingSeq() returns (oldest: Option<u16>)
      ensures oldest.None? <==> forall i :: 0 <= i < pendingPackets.Length ==> pendingPackets[i].None?
      ensures oldest.Some? ==>
                && (exists i :: 0 <= i < pendingPackets.Length && pendingPackets[i].Some?
                                && pendingPackets[i].value.sequence == oldest.value)
                && (forall i :: 0 <= i < pendingPackets.Length && pendingPackets[i].Some? ==>
                      WrappingSub(nextOutgoingSeq, pendingPackets[i].value.sequence)
                      <= WrappingSub(nextOutgoingSeq, oldest.value))
    {
      oldest := None;
      var maxAge: u16 := 0;
      for i := 0 to pendingPackets.Length
        invariant oldest.None? <==> forall j :: 0 <= j < i ==> pendingPackets[j].None?
        invariant oldest.Some? ==>
            && maxAge == WrappingSub(nextOutgoingSeq, oldest.value)
            && (exists j :: 0 <= j < i && pendingPackets[j].Some?
                            && pendingPackets[j].value.sequence == oldest.value)
            && (forall j :: 0 <= j < i && pendingPackets[j].Some? ==>
                  WrappingSub(nextOutgoingSeq, pendingPackets[j].value.sequence) <= maxAge)
      {
        if pendingPackets[i].Some? {
          var pending := pendingPackets[i].value;
          var age := WrappingSub(nextOutgoingSeq, pending.sequence);
          if oldest.None? || age > maxAge {
            maxAge := age;
            oldest := Some(pending.sequence);
          }
        }
      }
    }

    method QueueReliableMessage(data: Payload) returns (r: Result<u16, NetError>)
      modifies this`nextOutgoingSeq, pendingPackets
      ensures (Sending(), r) == Queue(old(Sending()), data)
    {
      if |data| > MAX_PAYLOAD {
        return Err(PayloadTooLarge(|data|, MAX_PAYLOAD));
      }
      var oldest := OldestPendingSeq();
      if oldest.Some? {
        var flight := WrappingSub(nextOutgoingSeq, oldest.value);
        if flight >= pendingPackets.Length {
          return Err(QueueFull);
        }
      }
      assert !WindowFull(pendingPackets[..], nextOutgoingSeq);
      var slot := 0;
      while slot < pendingPackets.Length && pendingPackets[slot].Some?
        invariant slot <= pendingPackets.Length
        invariant forall j :: 0 <= j < slot ==> pendingPackets[j].Some?
      {
        slot := slot + 1;
      }
      ghost var first := FirstEmpty(pendingPackets[..]);
      assert slot == first;
      if slot == pendingPackets.Length {
        return Err(QueueFull);
      }
      var q := nextOutgoingSeq;
      nextOutgoingSeq := WrappingAdd(nextOutgoingSeq, 1);
      pendingPackets[slot] := Some(Pending(q, data, RETRY_TICKS, 0));
      r := Ok(q);
    }

    method ProcessRemoteAck(ack: u16, ackBitfield: u32)
      modifies pendingPackets
      ensures Sending() == old(Sending()).(slots := Acknowledge(old(Sending()).slots, ack, ackBitfield))
    {
      for i := 0 to pendingPackets.Length
        invariant forall j :: 0 <= j < i ==> pendingPackets[j] == AckSlot(old(pendingPackets[j]), ack, ackBitfield)
        invariant forall j :: i <= j < pendingPackets.Length ==> pendingPackets[j] == old(pendingPackets[j])
      {
        if pendingPackets[i].Some? {
          var q := pendingPackets[i].value.sequence;
          if q == ack {
            pendingPackets[i] := None;
          } else if IsNewer(ack, q) {
            var diff := WrappingSub(ack, q);
            if 0 < diff <= 32 {
              var isAcked := Bit(ackBitfield, diff - 1);
              if isAcked {
                pendingPackets[i] := None;
              }
            }
          }
        }
      }
      assert Sending().slots == Acknowledge(old(Sending()).slots, ack, ackBitfield);
    }

    method ReceiveReliablePacket(q: u16, data: Payload) returns (r: Result<Option<Payload>, NetError>)
      modifies this`expectedIncomingSeq, reorderBuffer
      ensures (Receiving(), r) == Receive(old(Receiving()), q, data)
    {
      if |data| > MAX_PAYLOAD {
        return Err(PayloadTooLarge(|data|, MAX_PAYLOAD));
      }
      if q == expectedIncomingSeq {
        expectedIncomingSeq := WrappingAdd(expectedIncomingSeq, 1);
        return Ok(Some(data));
      }
      if !IsNewer(q, expectedIncomingSeq) {
        return Ok(None);
      }
      ghost var found := FindSequence(reorderBuffer[..], q);
      for i := 0 to reorderBuffer.Length
        invariant i <= found
        invariant reorderBuffer[..] == old(reorderBuffer[..])
      {
        if reorderBuffer[i].Some? && reorderBuffer[i].value.sequence == q {
          assert found == i;
          return Ok(None);
        }
      }
      ghost var first := FirstEmpty(reorderBuffer[..]);
      for i := 0 to reorderBuffer.Length
        invariant i <= first
        invariant reorderBuffer[..] == old(reorderBuffer[..])
      {
        if reorderBuffer[i].None? {
          assert first == i;
          reorderBuffer[i] := Some(Incoming(q, data));
          return Ok(None);
        }
      }
      r := Err(QueueFull);
    }

    method DrainNextOrderedPacket() returns (packet: Option<Payload>)
      modifies this`expectedIncomingSeq, reorderBuffer
      ensures (Receiving(), packet) == DrainNext(old(Receiving()))
    {
      ghost var found := FindSequence(reorderBuffer[..], expectedIncomingSeq);
      for i := 0 to reorderBuffer.Length
        invariant i <= found
        invariant reorderBuffer[..] == old(reorderBuffer[..])
        invariant expectedIncomingSeq == old(expectedIncomingSeq)
      {
        if reorderBuffer[i].Some? && reorderBuffer[i].value.sequence == expectedIncomingSeq {
          assert found == i;
          var payload := reorderBuffer[i].value.payload;
          reorderBuffer[i] := None;
          expectedIncomingSeq := WrappingAdd(expectedIncomingSeq, 1);
          return Some(payload);
        }
      }
      packet := None;
    }

    /** Drains into `output[from..]`; the returned count is how many entries were written. */
    method DrainOrderedPackets(output: array<Payload>, from: nat) returns (count: nat)
      requires from <= output.Length
      modifies this`expectedIncomingSeq, reorderBuffer, output
      ensures from + count <= output.Length
      ensures (Receiving(), output[from..from + count]) == Drain(old(Receiving()), output.Length - from)
      ensures forall i :: 0 <= i < from ==> output[i] == old(output[i])
      ensures forall i :: from + count <= i < output.Length ==> output[i] == old(output[i])
    {
      hide *;
      count := 0;
      ghost var done: seq<Payload> := [];
      ghost var (goal, all) := Drain(Receiving(), output.Length - from);
      assert done + all == all;
      while from + count < output.Length
        invariant from + count <= output.Length && |done| == count
        invariant forall i :: 0 <= i < count ==> output[from + i] == done[i]
        invariant forall i :: 0 <= i < output.Length && !(from <= i < from + count) ==> output[i] == old(output[i])
        invariant Drain(Receiving(), output.Length - from - count).0 == goal
        invariant all == done + Drain(Receiving(), output.Length - from - count).1
        decreases output.Length - count
      {
        DrainRound(Receiving(), output.Length - from - count, done, goal, all);
        var packet := DrainNextOrderedPacket();
        if packet.None? {
          SliceIs(output[..], from, done);
          return;
        }
        output[from + count] := packet.value;
        done := done + [packet.value];
        count := count + 1;
      }
      DrainUnfold(Receiving(), 0);
      assert done + [] == done;
      SliceIs(output[..], from, done);
    }

    method ReceiveAndDrainOrdered(q: u16, data: Payload, output: array<Payload>)
      returns (r: Result<nat, NetError>)
      modifies this`expectedIncomingSeq, reorderBuffer, output
      ensures r.Ok? ==> r.value <= output.Length
      ensures var (receiver, result) := ReceiveAndDrain(old(Receiving()), q, data, output.Length);
              && Receiving() == receiver
              && (r.Ok? <==> result.Ok?)
              && (r.Err? ==> r.error == result.error)
              && (r.Ok? ==> output[..r.value] == result.value)
      ensures forall i :: (if r.Ok? then r.value else 0) <= i < output.Length ==> output[i] == old(output[i])
    {
      var first := ReceiveReliablePacket(q, data);
      if first.Err? {
        return Err(first.error);
      }
      if first.value.None? || output.Length == 0 {
        return Ok(0);
      }
      output[0] := first.value.value;
      var more := DrainOrderedPackets(output, 1);
      assert output[..1 + more] == [first.value.value] + output[1..1 + more];
      r := Ok(1 + more);
    }

    /** `retried` collects the calls of the source's `on_retry`, in order. */
    method CheckRetransmissions() returns (r: Result<(), NetError>, retried: seq<(u16, Payload)>)
      modifies this`isTimedOut, pendingPackets
      ensures (RetrySchedule.Timers(Sending().slots, isTimedOut), RetrySchedule.Outcome(r, retried))
              == RetrySchedule.Call(RetrySchedule.Timers(old(Sending()).slots, old(isTimedOut)), maxRetries)
    {
      hide Pow2, TickUpTo;
      retried := [];
      if isTimedOut {
        return Err(ConnectionTimedOut), retried;
      }
      ghost var slots := pendingPackets[..];
      NoTicks(slots, maxRetries);
      for i := 0 to pendingPackets.Length
        invariant Tick(pendingPackets[..], retried, false) == TickUpTo(slots, i, maxRetries)
        invariant !isTimedOut
      {
        TickNext(slots, i, maxRetries);
        ghost var before := pendingPackets[..];
        if pendingPackets[i].Some? {
          var pending := pendingPackets[i].value;
          if pending.retryCountdown == 0 {
            pending := pending.(retryCount := Min(pending.retryCount + 1, 255));
            if pending.retryCount > maxRetries {
              pendingPackets[i] := Some(pending);
              assert pendingPackets[..] == before[i := Some(pending)];
              isTimedOut := true;
              TimedOutStaysTimedOut(slots, i + 1, pendingPackets.Length, maxRetries);
              return Err(ConnectionTimedOut), retried;
            }
            var shift := Min(pending.retryCount - 1, 3);
            pending := pending.(retryCountdown := Min(RETRY_TICKS * Pow2(shift), 32));
            pendingPackets[i] := Some(pending);
            retried := retried + [(pending.sequence, pending.payload)];
          } else {
            pendingPackets[i] := Some(pending.(retryCountdown := pending.retryCountdown - 1));
          }
          assert pendingPackets[..] == before[i := pendingPackets[i]];
        }
      }
      r := Ok(());
    }
  }

  lemma NoTicks(slots: Slots, maxRetries: u8)
    ensures TickUpTo(slots, 0, maxRetries) == Tick(slots, [], false)
  {
  }

  lemma {:induction false} TimedOutStaysTimedOut(slots: Slots, i: nat, n: nat, maxRetries: u8)
    requires i <= n <= |slots| && TickUpTo(slots, i, maxRetries).timedOut
    ensures TickUpTo(slots, n, maxRetries) == TickUpTo(slots, i, maxRetries)
    decreases n
  {
    if i < n { TimedOutStaysTimedOut(slots, i, n - 1, maxRetries); }
  }
}
