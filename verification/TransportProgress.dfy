/**
 Progress of the reliable channel: unless it times out, every message the receiver has not
 accepted is sent again within 33 calls of the retransmission timetable, whatever else happens
 in between, and the next message is delivered if one of those copies arrives.
 */
module TransportProgress {
  import opened Words
  import opened SequenceNumbers
  import opened ReliableSender
  import opened ReliableReceiver
  import opened Transport
  import AckHistory

  const LONGEST_WAIT := 32

  /** The step is a call of the timetable that hands out message `index` again. */
  ghost predicate Resends(w: World, step: Step, index: nat)
    requires index < |w.sent|
  {
    && step.RetransmissionTick? && !w.timedOut
    && (Wire(index), w.sent[index]) in TickUpTo(w.sender.slots, |w.sender.slots|, step.maxRetries).retried
  }

  /** Calls of the timetable among the steps. */
  ghost function Calls(steps: seq<Step>): nat {
    if steps == [] then 0
    else Calls(steps[..|steps| - 1]) + if steps[|steps| - 1].RetransmissionTick? then 1 else 0
  }

  /** No packet waits longer than the cap of the back-off. */
  ghost predicate WaitsAreShort(slots: Slots) {
    forall i :: 0 <= i < |slots| && slots[i].Some? ==> slots[i].value.retryCountdown <= LONGEST_WAIT
  }

  /** Slot `k` holds message `index`. */
  ghost predicate HeldAt(w: World, index: nat, k: nat) {
    k < |w.sender.slots| && w.sender.slots[k].Some? && w.sender.slots[k].value.sequence == Wire(index)
  }

  /** How many more calls the packet in slot `k` waits before its next retry. */
  ghost function WaitAt(w: World, k: nat): nat {
    if k < |w.sender.slots| && w.sender.slots[k].Some? then w.sender.slots[k].value.retryCountdown else 0
  }

  lemma TickWait(p: Pending, maxRetries: u8)
    requires p.retryCountdown <= LONGEST_WAIT
    ensures var (p', outcome) := TickPacket(p, maxRetries);
            p'.retryCountdown <= LONGEST_WAIT
  {
  }

  lemma WaitingCounts(p: Pending, maxRetries: u8)
    ensures var (p', outcome) := TickPacket(p, maxRetries);
            && p'.sequence == p.sequence && p'.payload == p.payload
            && (outcome.Waiting? ==> p'.retryCountdown + 1 == p.retryCountdown)
  {
  }

  /** What one call does to the packet in slot `k`, when no packet expires. */
  lemma {:induction false} TickAt(slots: Slots, n: nat, maxRetries: u8, k: nat)
    requires k < n <= |slots| && slots[k].Some? && !TickUpTo(slots, n, maxRetries).timedOut
    ensures var t := TickUpTo(slots, n, maxRetries); var (p, outcome) := TickPacket(slots[k].value, maxRetries);
            && t.slots[k] == Some(p) && !outcome.Expired?
            && (outcome.Retried? ==> (slots[k].value.sequence, slots[k].value.payload) in t.retried)
  {
    hide TickPacket, TickUpTo;
    TickNext(slots, n - 1, maxRetries);
    WaitingCounts(slots[k].value, maxRetries);
    if k < n - 1 { TickAt(slots, n - 1, maxRetries, k); }
  }

  lemma {:induction false} TickWaits(slots: Slots, n: nat, maxRetries: u8)
    requires n <= |slots| && WaitsAreShort(slots)
    ensures WaitsAreShort(TickUpTo(slots, n, maxRetries).slots)
  {
    hide TickPacket;
    if n > 0 {
      TickWaits(slots, n - 1, maxRetries);
      if slots[n - 1].Some? { TickWait(slots[n - 1].value, maxRetries); }
    }
  }

  lemma StepWaits(w: World, step: Step)
    requires WaitsAreShort(w.sender.slots)
    ensures WaitsAreShort(After(w, step).sender.slots)
  {
    if step.RetransmissionTick? { TickWaits(w.sender.slots, |w.sender.slots|, step.maxRetries); }
  }

  lemma {:induction false} RunWaits(run: seq<World>, steps: seq<Step>, pendingCap: nat, orderedCap: nat, i: nat)
    requires Run(run, steps, pendingCap, orderedCap) && i < |run|
    ensures WaitsAreShort(run[i].sender.slots)
  {
    if i > 0 {
      RunWaits(run, steps, pendingCap, orderedCap, i - 1);
      StepWaits(run[i - 1], steps[i - 1]);
    }
  }

  /** Nothing is taken back: the histories only grow and a timeout is final. */
  lemma {:induction false} OnlyGrows(run: seq<World>, steps: seq<Step>, pendingCap: nat, orderedCap: nat,
                                     i: nat, j: nat)
    requires Run(run, steps, pendingCap, orderedCap) && i <= j < |run|
    ensures run[i].delivered <= run[j].delivered && run[i].sent <= run[j].sent
    ensures run[i].accepted <= run[j].accepted && (run[i].timedOut ==> run[j].timedOut)
    decreases j
  {
    if i < j { OnlyGrows(run, steps, pendingCap, orderedCap, i, j - 1); }
  }

  /** What holds at a moment between two others. */
  lemma Between(run: seq<World>, steps: seq<Step>, pendingCap: nat, orderedCap: nat, i: nat, t: nat, j: nat)
    requires Run(run, steps, pendingCap, orderedCap) && i <= t <= j < |run|
    ensures |run[i].delivered| <= |run[t].delivered| <= |run[j].delivered|
    ensures |run[i].sent| <= |run[t].sent| && forall m :: 0 <= m < |run[i].sent| ==> run[t].sent[m] == run[i].sent[m]
    ensures run[t].timedOut ==> run[j].timedOut
    ensures forall m :: m !in run[j].accepted ==> m !in run[t].accepted
  {
    OnlyGrows(run, steps, pendingCap, orderedCap, i, t);
    OnlyGrows(run, steps, pendingCap, orderedCap, t, j);
  }

  /** Sent, and not yet accepted by the receiver. */
  ghost predicate Missing(w: World, m: nat) { m < |w.sent| && m !in w.accepted }

  /** A missing message sits in exactly one slot of the sender's table. */
  lemma MissingIsHeld(w: World, pendingCap: nat, orderedCap: nat, m: nat) returns (k: nat)
    requires Inv(w, pendingCap, orderedCap) && Missing(w, m)
    ensures HeldAt(w, m, k)
    ensures forall j :: HeldAt(w, m, j) ==> j == k
  {
    var slots := w.sender.slots;
    UnacceptedIsPending(w, pendingCap, orderedCap, m);
    var i :| 0 <= i < |slots| && slots[i].Some? && m == Lift(|w.sent|, slots[i].value.sequence);
    k := i;
    WireLift(|w.sent|, slots[k].value.sequence);
    assert DistinctSequences(slots);
  }

  lemma QueueKeepsSlot(s: Sender, data: Payload, k: nat)
    requires k < |s.slots| && s.slots[k].Some?
    ensures k < |Queue(s, data).0.slots| && Queue(s, data).0.slots[k] == s.slots[k]
  {
  }

  lemma AckKeepsSlot(slots: Slots, ack: u16, bits: u32, k: nat)
    requires k < |slots|
    ensures Acknowledge(slots, ack, bits)[k] in {slots[k], None}
  {
  }

  /** A slot of a missing message holds its payload. */
  lemma HeldPayload(w: World, pendingCap: nat, orderedCap: nat, m: nat, k: nat)
    requires Inv(w, pendingCap, orderedCap) && Missing(w, m) && HeldAt(w, m, k)
    ensures w.sender.slots[k].value.payload == w.sent[m] && Lift(|w.sent|, Wire(m)) == m
  {
    assert Genuine(w.sender.slots[k].value, w.sent, |w.sender.slots|);
    UnacceptedIsPending(w, pendingCap, orderedCap, m);
    LiftWire(|w.sent|, m);
  }

  /** A call without a timeout or a resend counts the packet down. */
  lemma TickCounts(w: World, maxRetries: u8, pendingCap: nat, orderedCap: nat, m: nat, k: nat)
    requires Inv(w, pendingCap, orderedCap) && Missing(w, m) && HeldAt(w, m, k)
    requires !Resends(w, RetransmissionTick(maxRetries), m)
    requires !After(w, RetransmissionTick(maxRetries)).timedOut
    ensures var w' := After(w, RetransmissionTick(maxRetries));
            HeldAt(w', m, k) && WaitAt(w', k) + 1 == WaitAt(w, k)
  {
    hide Inv, TickUpTo, TickPacket, Lift, Wire;
    HeldPayload(w, pendingCap, orderedCap, m, k);
    TickAt(w.sender.slots, |w.sender.slots|, maxRetries, k);
    WaitingCounts(w.sender.slots[k].value, maxRetries);
    var t := TickUpTo(w.sender.slots, |w.sender.slots|, maxRetries);
    var w' := After(w, RetransmissionTick(maxRetries));
    assert !w.timedOut && w'.sender.slots == t.slots;
    assert !TickPacket(w.sender.slots[k].value, maxRetries).1.Retried?;
  }

  /** A missing message cannot be acknowledged. */
  lemma HeaderKeeps(w: World, h: Header, pendingCap: nat, orderedCap: nat, m: nat, k: nat)
    requires Inv(w, pendingCap, orderedCap) && Enabled(w, HeaderArrives(h)) && Missing(w, m) && HeldAt(w, m, k)
    ensures var w' := After(w, HeaderArrives(h)); HeldAt(w', m, k) && w'.sender.slots[k] == w.sender.slots[k]
  {
    var w' := After(w, HeaderArrives(h));
    StepKeepsInv(w, HeaderArrives(h), pendingCap, orderedCap);
    hide Inv, Enabled;
    var i := MissingIsHeld(w', pendingCap, orderedCap, m);
    var j := MissingIsHeld(w, pendingCap, orderedCap, m);
    AckKeepsSlot(w.sender.slots, Wire(h.highest), h.bits, i);
    hide Acknowledge, Wire;
    assert HeldAt(w, m, i);
  }

  /** A step that neither gets a missing message accepted nor resends it leaves it waiting in its slot. */
  lemma StaysHeld(w: World, step: Step, pendingCap: nat, orderedCap: nat, m: nat, k: nat)
    requires Inv(w, pendingCap, orderedCap) && Enabled(w, step)
    requires Missing(w, m) && HeldAt(w, m, k) && !Resends(w, step, m)
    requires m !in After(w, step).accepted && !After(w, step).timedOut
    ensures var w' := After(w, step);
            HeldAt(w', m, k) && WaitAt(w', k) + (if step.RetransmissionTick? then 1 else 0) == WaitAt(w, k)
  {
    hide Inv, Enabled, Resends, Queue, TickUpTo, Acknowledge, ReceiveAndDrain, Drain, AckHistory.Ingest;
    match step {
      case QueueMessage(data) => QueueKeepsSlot(w.sender, data, k);
      case RetransmissionTick(maxRetries) => TickCounts(w, maxRetries, pendingCap, orderedCap, m, k);
      case HeaderArrives(h) => HeaderKeeps(w, h, pendingCap, orderedCap, m, k);
      case _ =>
    }
  }

  lemma StepOf(run: seq<World>, steps: seq<Step>, pendingCap: nat, orderedCap: nat, i: nat)
    requires Run(run, steps, pendingCap, orderedCap) && i < |steps|
    ensures |run| == |steps| + 1 && Inv(run[i], pendingCap, orderedCap)
    ensures Enabled(run[i], steps[i]) && run[i + 1] == After(run[i], steps[i])
  {
    hide Inv, Enabled, After, Initial;
    RunKeepsInv(run, steps, pendingCap, orderedCap, i);
  }

  lemma NoCalls(steps: seq<Step>, i: nat)
    requires i <= |steps|
    ensures Calls(steps[i..i]) == 0
  {
  }

  lemma CallsNext(steps: seq<Step>, i: nat, j: nat)
    requires i <= j < |steps|
    ensures Calls(steps[i..j + 1]) == Calls(steps[i..j]) + if steps[j].RetransmissionTick? then 1 else 0
  {
    assert steps[i..j + 1][..j - i] == steps[i..j];
  }

  ghost predicate NotResent(run: seq<World>, steps: seq<Step>, i: nat, j: nat, e: nat)
    requires j <= |steps| < |run|
  {
    forall t :: i <= t < j && e < |run[t].sent| ==> !Resends(run[t], steps[t], e)
  }

  lemma NotResentBefore(run: seq<World>, steps: seq<Step>, i: nat, j: nat, e: nat)
    requires i <= j < |steps| < |run| && NotResent(run, steps, i, j + 1, e)
    ensures NotResent(run, steps, i, j, e) && (e < |run[j].sent| ==> !Resends(run[j], steps[j], e))
  {
  }

  lemma LastStep(run: seq<World>, steps: seq<Step>, pendingCap: nat, orderedCap: nat, j: nat, m: nat, k: nat)
    requires Run(run, steps, pendingCap, orderedCap) && j + 1 < |run| == |steps| + 1
    requires Missing(run[j], m) && m !in run[j + 1].accepted && !run[j + 1].timedOut
    requires m < |run[j].sent| && HeldAt(run[j], m, k) && !Resends(run[j], steps[j], m)
    ensures HeldAt(run[j + 1], m, k)
    ensures WaitAt(run[j + 1], k) + (if steps[j].RetransmissionTick? then 1 else 0) == WaitAt(run[j], k)
  {
    hide *;
    StepOf(run, steps, pendingCap, orderedCap, j);
    StaysHeld(run[j], steps[j], pendingCap, orderedCap, m, k);
  }

  lemma StillMissing(run: seq<World>, steps: seq<Step>, pendingCap: nat, orderedCap: nat,
                     i: nat, t: nat, j: nat, m: nat)
    requires Run(run, steps, pendingCap, orderedCap) && i <= t <= j < |run|
    requires m < |run[i].sent| && m !in run[j].accepted
    ensures Missing(run[t], m) && m < |run[t].sent|
    ensures run[t].sent[m] == run[i].sent[m] && (run[t].timedOut ==> run[j].timedOut)
  {
    hide Run;
    Between(run, steps, pendingCap, orderedCap, i, t, j);
  }

  /** While a message is missing and not resent, every call counts it down. */
  lemma {:induction false} CallsCountDown(run: seq<World>, steps: seq<Step>, pendingCap: nat, orderedCap: nat,
                                          i: nat, j: nat, m: nat, k: nat)
    requires Run(run, steps, pendingCap, orderedCap) && i <= j < |run| == |steps| + 1
    requires m < |run[i].sent| && m !in run[j].accepted && !run[j].timedOut
    requires HeldAt(run[i], m, k) && NotResent(run, steps, i, j, m)
    ensures HeldAt(run[j], m, k)
    ensures WaitAt(run[j], k) + Calls(steps[i..j]) == WaitAt(run[i], k)
    decreases j
  {
    hide *;
    if i == j {
      NoCalls(steps, i);
    } else {
      StillMissing(run, steps, pendingCap, orderedCap, i, j - 1, j, m);
      MissingMeans(run[j - 1], m);
      CallsNext(steps, i, j - 1);
      NotResentBefore(run, steps, i, j - 1, m);
      CallsCountDown(run, steps, pendingCap, orderedCap, i, j - 1, m, k);
      LastStep(run, steps, pendingCap, orderedCap, j - 1, m, k);
    }
  }

  lemma MissingMeans(w: World, m: nat)
    ensures Missing(w, m) <==> m < |w.sent| && m !in w.accepted
  {
  }

  lemma ResendPutsCopy(w: World, step: Step, pendingCap: nat, orderedCap: nat, m: nat)
    requires Inv(w, pendingCap, orderedCap) && Missing(w, m) && Resends(w, step, m)
    ensures Packet(m, w.sent[m]) in After(w, step).packets
  {
    var k := MissingIsHeld(w, pendingCap, orderedCap, m);
    HeldPayload(w, pendingCap, orderedCap, m, k);
    hide Inv, TickUpTo, Lift, Wire;
    var p := (Wire(m), w.sent[m]);
    assert Packet(Lift(|w.sent|, p.0), p.1) == Packet(m, w.sent[m]);
  }

  /**
   However a run is interleaved, within 33 calls of the timetable the channel times out, the
   receiver accepts a missing message, or a fresh copy of it is put in the network.
   */
  lemma MissingIsResent(run: seq<World>, steps: seq<Step>, pendingCap: nat, orderedCap: nat,
                        i: nat, j: nat, m: nat)
    returns (t: nat)
    requires Run(run, steps, pendingCap, orderedCap) && i <= j < |run|
    requires m < |run[i].sent| && m !in run[j].accepted
    requires !run[j].timedOut && Calls(steps[i..j]) > LONGEST_WAIT
    ensures && i <= t < j && m < |run[t].sent| && Resends(run[t], steps[t], m)
            && Packet(m, run[i].sent[m]) in run[t + 1].packets
  {
    RunKeepsInv(run, steps, pendingCap, orderedCap, i);
    RunWaits(run, steps, pendingCap, orderedCap, i);
    StillMissing(run, steps, pendingCap, orderedCap, i, i, j, m);
    var k := MissingIsHeld(run[i], pendingCap, orderedCap, m);
    if !NotResent(run, steps, i, j, m) {
      t :| i <= t < j && m < |run[t].sent| && Resends(run[t], steps[t], m);
      StepOf(run, steps, pendingCap, orderedCap, t);
      hide Run, Inv, Resends, After, Calls, Missing;
      StillMissing(run, steps, pendingCap, orderedCap, i, t, j, m);
      ResendPutsCopy(run[t], steps[t], pendingCap, orderedCap, m);
    } else {
      CallsCountDown(run, steps, pendingCap, orderedCap, i, j, m, k);
      assert false;
    }
  }

  /** A copy of message m arrives and is not refused. */
  ghost predicate Arrives(w: World, step: Step, m: nat) {
    step.PacketArrives? && step.packet.index == m
    && ReceiveAndDrain(w.receiver, Wire(m), step.packet.payload, step.room).1.Ok?
  }

  /** Every copy of message m that the timetable hands out between i and j arrives before j. */
  ghost predicate CopiesArrive(run: seq<World>, steps: seq<Step>, i: nat, j: nat, m: nat)
    requires j <= |steps| < |run|
  {
    forall t :: i <= t < j && m < |run[t].sent| && Resends(run[t], steps[t], m) ==>
      exists u :: t < u < j && Arrives(run[u], steps[u], m)
  }

  /** Bounded acceptance: if its copies arrive, a message is accepted within 33 calls. */
  lemma AcceptedWithin33(run: seq<World>, steps: seq<Step>, pendingCap: nat, orderedCap: nat,
                         i: nat, j: nat, m: nat)
    requires Run(run, steps, pendingCap, orderedCap) && i <= j < |run| == |steps| + 1
    requires m < |run[i].sent| && CopiesArrive(run, steps, i, j, m)
    requires Calls(steps[i..j]) > LONGEST_WAIT
    ensures m in run[j].accepted || run[j].timedOut
  {
    if m !in run[j].accepted && !run[j].timedOut {
      hide Run, Resends, Calls, Arrives;
      var t := MissingIsResent(run, steps, pendingCap, orderedCap, i, j, m);
      var u :| t < u < j && Arrives(run[u], steps[u], m);
      StepOf(run, steps, pendingCap, orderedCap, u);
      ArrivalAccepts(run[u], steps[u], m);
      StillMissing(run, steps, pendingCap, orderedCap, i, u + 1, j, m);
      assert false;
    }
  }

  lemma ArrivalAccepts(w: World, step: Step, m: nat)
    requires Arrives(w, step, m)
    ensures m in After(w, step).accepted
  {
    hide ReceiveAndDrain, AckHistory.Ingest;
  }

  /** The next message is accepted only by being delivered. */
  lemma NextIsDelivered(w: World, step: Step, pendingCap: nat, orderedCap: nat)
    requires Inv(w, pendingCap, orderedCap) && Enabled(w, step) && |w.delivered| !in w.accepted
    requires |w.delivered| in After(w, step).accepted
    ensures |After(w, step).delivered| > |w.delivered|
  {
    hide Inv, Enabled, Queue, TickUpTo, Acknowledge, ReceiveAndDrain, Drain, AckHistory.Ingest;
    match step {
      case PacketArrives(p, room) => NextArrives(w, p, room, pendingCap, orderedCap);
      case _ =>
    }
  }

  lemma {:induction false} NextStaysMissing(run: seq<World>, steps: seq<Step>, pendingCap: nat, orderedCap: nat,
                                            i: nat, j: nat)
    requires Run(run, steps, pendingCap, orderedCap) && i <= j < |run| == |steps| + 1
    requires |run[i].delivered| !in run[i].accepted && |run[j].delivered| == |run[i].delivered|
    ensures |run[i].delivered| !in run[j].accepted
    decreases j
  {
    hide *;
    if i < j {
      Between(run, steps, pendingCap, orderedCap, i, j - 1, j);
      NextStaysMissing(run, steps, pendingCap, orderedCap, i, j - 1);
      StepOf(run, steps, pendingCap, orderedCap, j - 1);
      if |run[i].delivered| in run[j].accepted {
        NextIsDelivered(run[j - 1], steps[j - 1], pendingCap, orderedCap);
      }
    }
  }

  /**
   Bounded delivery: if every copy the timetable hands out arrives, then after 33 calls the next
   message, unless it is already there to be drained, has been delivered, or the channel has
   timed out.
   */
  lemma DeliveredWithin33(run: seq<World>, steps: seq<Step>, pendingCap: nat, orderedCap: nat, i: nat, j: nat)
    requires Run(run, steps, pendingCap, orderedCap) && i <= j < |run| == |steps| + 1
    requires Missing(run[i], |run[i].delivered|) && CopiesArrive(run, steps, i, j, |run[i].delivered|)
    requires Calls(steps[i..j]) > LONGEST_WAIT
    ensures |run[j].delivered| > |run[i].delivered| || run[j].timedOut
  {
    hide Run, CopiesArrive, Calls;
    Between(run, steps, pendingCap, orderedCap, i, j, j);
    if |run[j].delivered| == |run[i].delivered| {
      NextStaysMissing(run, steps, pendingCap, orderedCap, i, j);
      AcceptedWithin33(run, steps, pendingCap, orderedCap, i, j, |run[i].delivered|);
    }
  }
}
