/**
 The reorder buffer is exactly large enough: whenever it has fewer than pendingCap - 1 slots
 there is a run of the channel in which an arrival is refused.
 */
module TransportCapacity {
  import opened SlotTables
  import opened Words
  import opened SequenceNumbers
  import opened ReliableSender
  import opened ReliableReceiver
  import opened Transport
  import AckHistory

  /** n messages queued, all unacknowledged and in the network. */
  ghost predicate Queued(w: World, n: nat) {
    && |w.sent| == n
    && forall i :: 0 <= i < n ==> Packet(i, w.sent[i]) in w.packets && |w.sent[i]| <= MAX_PAYLOAD
  }

  /** Messages 1 to j have arrived, message 0 has not. */
  ghost predicate Waiting(w: World, j: nat) {
    w.delivered == [] && Buffered(w.receiver.buffer, 0) == Interval(j)
  }

  ghost function Interval(j: nat): (s: set<int>)
    ensures |s| == j && forall x :: x in s <==> 1 <= x <= j
  {
    if j == 0 then {} else Interval(j - 1) + {j}
  }

  lemma RunExtends(run: seq<World>, steps: seq<Step>, pendingCap: nat, orderedCap: nat, step: Step)
    requires Run(run, steps, pendingCap, orderedCap) && Enabled(run[|steps|], step)
    ensures Run(run + [After(run[|steps|], step)], steps + [step], pendingCap, orderedCap)
  {
    hide Enabled, After, Initial;
    var run', steps' := run + [After(run[|steps|], step)], steps + [step];
    forall i | 0 <= i < |steps'|
      ensures Enabled(run'[i], steps'[i]) && run'[i + 1] == After(run'[i], steps'[i])
    {
    }
  }

  /** The first pendingCap messages are always taken. */
  lemma {:induction false} QueueMany(n: nat, pendingCap: nat, orderedCap: nat)
    returns (run: seq<World>, steps: seq<Step>)
    requires n <= pendingCap && 1 <= pendingCap < WINDOW
    ensures Run(run, steps, pendingCap, orderedCap)
    ensures Queued(run[|steps|], n) && Waiting(run[|steps|], 0)
  {
    if n == 0 {
      var w := World(Sender(0, seq(pendingCap, _ => None)), Receiver(0, seq(orderedCap, _ => None)),
                     AckHistory.FRESH, false, [], [], {}, 0, {}, {});
      run, steps := [w], [];
    } else {
      run, steps := QueueMany(n - 1, pendingCap, orderedCap);
      var w := run[|steps|];
      RunKeepsInv(run, steps, pendingCap, orderedCap, |steps|);
      QueueOneMore(w, pendingCap, orderedCap, n);
      hide Run, Inv, Enabled, After, Queued, Waiting;
      RunExtends(run, steps, pendingCap, orderedCap, QueueMessage([]));
      run, steps := run + [After(w, QueueMessage([]))], steps + [QueueMessage([])];
    }
  }

  lemma QueueOneMore(w: World, pendingCap: nat, orderedCap: nat, n: nat)
    requires Inv(w, pendingCap, orderedCap) && 1 <= n <= pendingCap
    requires Queued(w, n - 1) && Waiting(w, 0)
    ensures var w' := After(w, QueueMessage([]));
            Enabled(w, QueueMessage([])) && Queued(w', n) && Waiting(w', 0)
  {
    NoneSoOld(w.sender, w.sent);
    QueueRefuses(w.sender, w.sent, []);
    ReadyMeans(w);
    hide Inv, Queue, Ready;
    QueueIsEnabled(w, [], pendingCap, orderedCap);
  }

  lemma NoneSoOld(s: Sender, sent: seq<Payload>)
    requires SenderInv(s, sent) && |sent| < |s.slots|
    ensures |sent| - |s.slots| !in Unacked(s.slots, |sent|)
  {
    forall i | 0 <= i < |s.slots| && s.slots[i].Some?
      ensures Lift(|sent|, s.slots[i].value.sequence) >= 0
    {
      assert Genuine(s.slots[i].value, sent, |s.slots|);
    }
  }

  /** Messages 1 to j arrive before message 0 and fill j slots. */
  lemma {:induction false} ArriveMany(j: nat, pendingCap: nat, orderedCap: nat)
    returns (run: seq<World>, steps: seq<Step>)
    requires j <= orderedCap && orderedCap + 2 <= pendingCap < WINDOW
    ensures Run(run, steps, pendingCap, orderedCap)
    ensures Queued(run[|steps|], orderedCap + 2) && Waiting(run[|steps|], j)
  {
    if j == 0 {
      run, steps := QueueMany(orderedCap + 2, pendingCap, orderedCap);
    } else {
      run, steps := ArriveMany(j - 1, pendingCap, orderedCap);
      var w := run[|steps|];
      var step := PacketArrives(Packet(j, w.sent[j]), orderedCap + 1);
      RunKeepsInv(run, steps, pendingCap, orderedCap, |steps|);
      ArrivalWaits(w, j, pendingCap, orderedCap);
      RunExtends(run, steps, pendingCap, orderedCap, step);
      run, steps := run + [After(w, step)], steps + [step];
    }
  }

  /** Without the expected message an arrival delivers nothing. */
  lemma DeliversOnlyExpected(r: Receiver, r': Receiver, sent: seq<Payload>, j: nat, out: seq<Payload>)
    requires Took(r, r', sent, 0, j, out) && 0 !in Buffered(r.buffer, 0) && j >= 1
    ensures out == []
  {
    assert Accepted(r', 0 + |out|, 0) <==> Accepted(r, 0, 0) || 0 == j;
  }

  lemma NothingDelivered(r: Receiver, r': Receiver, sent: seq<Payload>, j: nat, out: seq<Payload>)
    requires Took(r, r', sent, 0, j, out) && j >= 1 && Buffered(r.buffer, 0) == Interval(j - 1)
    ensures out == [] && Buffered(r'.buffer, 0) == Interval(j)
  {
    DeliversOnlyExpected(r, r', sent, j, out);
    forall x
      ensures x in Buffered(r'.buffer, 0) <==> x in Interval(j)
    {
      assert Accepted(r', 0, x) <==> Accepted(r, 0, x) || x == j;
    }
  }

  /** The receiver stores message j behind messages 1 to j - 1. */
  lemma NextStored(r: Receiver, sent: seq<Payload>, j: nat, room: nat)
    requires Holding(r, sent, 0) && 1 <= j <= |r.buffer|
    requires j < |sent| < j + WINDOW && |sent[j]| <= MAX_PAYLOAD && Buffered(r.buffer, 0) == Interval(j - 1)
    ensures var (r', result) := ReceiveAndDrain(r, Wire(j), sent[j], room);
            result == Ok([]) && Buffered(r'.buffer, 0) == Interval(j)
  {
    hide *;
    ArrivalKeeps(r, sent, 0, j, room);
    NoRoomNeeded(r, 0, j, room);
    var (r', result) := ReceiveAndDrain(r, Wire(j), sent[j], room);
    if FirstEmpty(r.buffer) == |r.buffer| { FullBufferHolds(r, sent, 0); }
    NothingDelivered(r, r', sent, j, result.value);
  }

  lemma ArrivalIsEnabled(w: World, j: nat, room: nat)
    requires Queued(w, |w.sent|) && |w.delivered| < j < |w.sent| < WINDOW
    ensures Enabled(w, PacketArrives(Packet(j, w.sent[j]), room)) && |w.sent[j]| <= MAX_PAYLOAD
  {
    NoRoomNeeded(w.receiver, |w.delivered|, j, room);
    hide CanTake;
  }

  /** An arrival that delivers nothing changes the receiver and leaves the queued messages in the network. */
  lemma ArrivalKeepsQueued(w: World, p: Packet, room: nat, n: nat)
    requires Queued(w, n) && ReceiveAndDrain(w.receiver, Wire(p.index), p.payload, room).1 == Ok([])
    ensures var w' := After(w, PacketArrives(p, room));
            && Queued(w', n) && w'.delivered == w.delivered
            && w'.receiver == ReceiveAndDrain(w.receiver, Wire(p.index), p.payload, room).0
  {
    hide ReceiveAndDrain, AckHistory.Ingest, Wire;
    assert w.delivered + [] == w.delivered;
  }

  lemma WaitingMeans(w: World, n: nat, j: nat)
    requires Queued(w, n) && Waiting(w, j)
    ensures |w.sent| == n && w.delivered == [] && |w.delivered| == 0
    ensures Buffered(w.receiver.buffer, 0) == Interval(j)
  {
    hide Buffered, Interval;
  }

  lemma NowWaiting(w: World, j: nat)
    requires w.delivered == [] && Buffered(w.receiver.buffer, 0) == Interval(j)
    ensures Waiting(w, j)
  {
  }

  lemma ReceiverOf(w: World, pendingCap: nat, orderedCap: nat)
    requires Inv(w, pendingCap, orderedCap)
    ensures Holding(w.receiver, w.sent, |w.delivered|) && |w.receiver.buffer| == orderedCap
  {
    hide Holding, SenderInv;
  }

  lemma ArrivalWaits(w: World, j: nat, pendingCap: nat, orderedCap: nat)
    requires Inv(w, pendingCap, orderedCap) && 1 <= j <= orderedCap && orderedCap + 2 <= pendingCap < WINDOW
    requires Queued(w, orderedCap + 2) && Waiting(w, j - 1)
    ensures var step := PacketArrives(Packet(j, w.sent[j]), orderedCap + 1);
            Enabled(w, step) && Queued(After(w, step), orderedCap + 2) && Waiting(After(w, step), j)
  {
    hide *;
    WaitingMeans(w, orderedCap + 2, j - 1);
    ReceiverOf(w, pendingCap, orderedCap);
    ArrivalIsEnabled(w, j, orderedCap + 1);
    NextStored(w.receiver, w.sent, j, orderedCap + 1);
    ArrivalKeepsQueued(w, Packet(j, w.sent[j]), orderedCap + 1, orderedCap + 2);
    NowWaiting(After(w, PacketArrives(Packet(j, w.sent[j]), orderedCap + 1)), j);
  }

  /** A buffer with an empty slot holds fewer. */
  lemma {:induction false} EmptySlotHolds(buffer: Buffer, e: nat, k: nat)
    requires k < |buffer| && buffer[k].None?
    ensures |Buffered(buffer, e)| < |buffer|
    decreases |buffer|
  {
    hide Buffered;
    var n := |buffer| - 1;
    BufferedLast(buffer, e);
    if k == n {
      BufferedSize(buffer[..n], e);
    } else {
      EmptySlotHolds(buffer[..n], e, k);
    }
  }

  /**
   The threshold of BufferNeverFull is exact: with orderedCap < pendingCap - 1, queueing
   orderedCap + 2 messages and delivering all but the first in order ends in a refusal.
   */
  lemma SmallerBufferRefuses(pendingCap: nat, orderedCap: nat)
    returns (run: seq<World>, steps: seq<Step>, p: Packet, room: nat)
    requires pendingCap < WINDOW && orderedCap < pendingCap - 1
    ensures Run(run, steps, pendingCap, orderedCap)
    ensures Enabled(run[|steps|], PacketArrives(p, room))
    ensures ReceiveAndDrain(run[|steps|].receiver, Wire(p.index), p.payload, room).1 == Err(QueueFull)
  {
    run, steps := ArriveMany(orderedCap, pendingCap, orderedCap);
    var w, index := run[|steps|], orderedCap + 1;
    p, room := Packet(index, w.sent[index]), orderedCap + 1;
    RunKeepsInv(run, steps, pendingCap, orderedCap, |steps|);
    var r := w.receiver;
    BufferedMeans(r, w.sent, 0, index);
    IsNewerIsGreater(index, 0);
    if FirstEmpty(r.buffer) < |r.buffer| {
      EmptySlotHolds(r.buffer, 0, FirstEmpty(r.buffer));
    }
  }
}
