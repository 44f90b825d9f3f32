/**
 The whole reliable channel: a sender, a network that may lose, duplicate and reorder, and a
 receiver that acknowledges what it accepted. Message number i of the unbounded history
 `sent` travels as the 16-bit sequence Wire(i); the network keeps i only to say how stale a
 packet is.
 */
module Transport {
  import opened Words
  import opened Bitwise
  import opened SequenceNumbers
  import opened ReliableSender
  import opened ReliableReceiver
  import AckHistory

  datatype Packet = Packet(index: int, payload: Payload)

  /** An acknowledgment header: highest accepted message and the 32 before it. */
  datatype Header = Header(highest: int, bits: u32)

  datatype World = World(
    sender: Sender,
    receiver: Receiver,
    sequencer: AckHistory.Sequencer,
    timedOut: bool,
    sent: seq<Payload>,
    delivered: seq<Payload>,
    accepted: set<int>,
    top: int,
    packets: set<Packet>,
    headers: set<Header>)

  datatype Step =
    | QueueMessage(data: Payload)
    | RetransmissionTick(maxRetries: u8)
    | PacketArrives(packet: Packet, room: nat)
    | DrainCall(room: nat)
    | PacketLost(packet: Packet)
    | SendHeader
    | SendSingleAck(index: int)
    | HeaderArrives(header: Header)
    | HeaderLost(header: Header)

  /**
   What the environment may do. Arriving packets and headers are less than 2^15 sequence
   numbers behind the newest, and so is everything undelivered. A receiving caller may take as
   little as one message a call and drain the rest later, but it drains a ready message before
   it lets another copy of that message in.
   */
  ghost predicate Enabled(w: World, step: Step) {
    match step
    case QueueMessage(data) => Queue(w.sender, data).1.Ok? ==> |w.sent| + 1 < |w.delivered| + WINDOW
    case RetransmissionTick(_) => true
    case PacketArrives(p, room) =>
      p in w.packets && |w.sent| - p.index < WINDOW && CanTake(w.receiver, |w.delivered|, p.index, room)
    case DrainCall(_) => true
    case PacketLost(_) => true
    case SendHeader => w.sequencer.hasAny
    case SendSingleAck(index) => index in w.accepted
    case HeaderArrives(h) => h in w.headers && |w.sent| - h.highest < WINDOW
    case HeaderLost(_) => true
  }

  /** Copies stay in the network when they arrive, so any packet may arrive again. */
  ghost function After(w: World, step: Step): World {
    match step
    case QueueMessage(data) =>
      var (s, r) := Queue(w.sender, data);
      if r.Err? then w
      else w.(sender := s, sent := w.sent + [data], packets := w.packets + {Packet(|w.sent|, data)})
    case RetransmissionTick(maxRetries) =>
      if w.timedOut then w
      else
        var t := TickUpTo(w.sender.slots, |w.sender.slots|, maxRetries);
        w.(sender := w.sender.(slots := t.slots),
           timedOut := t.timedOut,
           packets := w.packets + set p | p in t.retried :: Packet(Lift(|w.sent|, p.0), p.1))
    case PacketArrives(p, room) =>
      var (r, result) := ReceiveAndDrain(w.receiver, Wire(p.index), p.payload, room);
      if result.Err? then w
      else
        var (q, newest) := AckHistory.Ingest(w.sequencer, Wire(p.index));
        w.(receiver := r, delivered := w.delivered + result.value, sequencer := q,
           accepted := w.accepted + {p.index}, top := if newest then p.index else w.top)
    case DrainCall(room) =>
      var (r, out) := Drain(w.receiver, room);
      w.(receiver := r, delivered := w.delivered + out)
    case PacketLost(p) => w.(packets := w.packets - {p})
    case SendHeader => w.(headers := w.headers + {Header(w.top, w.sequencer.bitfield)})
    case SendSingleAck(index) => w.(headers := w.headers + {Header(index, 0)})
    case HeaderArrives(h) =>
      w.(sender := w.sender.(slots := Acknowledge(w.sender.slots, Wire(h.highest), h.bits)))
    case HeaderLost(h) => w.(headers := w.headers - {h})
  }

  ghost predicate Initial(w: World, pendingCap: nat, orderedCap: nat) {
    && 1 <= pendingCap < WINDOW
    && w.sender == Sender(0, seq(pendingCap, _ => None))
    && w.receiver == Receiver(0, seq(orderedCap, _ => None))
    && w.sequencer == AckHistory.FRESH && w.top == 0 && !w.timedOut
    && w.sent == [] && w.delivered == [] && w.accepted == {}
    && w.packets == {} && w.headers == {}
  }

  ghost predicate Run(run: seq<World>, steps: seq<Step>, pendingCap: nat, orderedCap: nat) {
    && |run| == |steps| + 1
    && Initial(run[0], pendingCap, orderedCap)
    && forall i :: 0 <= i < |steps| ==> Enabled(run[i], steps[i]) && run[i + 1] == After(run[i], steps[i])
  }

  ghost predicate GenuinePackets(w: World) {
    forall p :: p in w.packets ==> 0 <= p.index < |w.sent| && p.payload == w.sent[p.index]
  }

  ghost predicate TruthfulHeader(h: Header, accepted: set<int>) {
    h.highest in accepted
    && forall k: nat :: k < 32 && Bit(h.bits, k) ==> h.highest - 1 - k in accepted
  }

  ghost predicate TruthfulHeaders(w: World) {
    forall h :: h in w.headers ==> TruthfulHeader(h, w.accepted)
  }

  ghost predicate PayloadsFit(sent: seq<Payload>) {
    forall p :: p in sent ==> |p| <= MAX_PAYLOAD
  }

  /** A message leaves the pending table only if the receiver has accepted it. */
  ghost predicate NothingForgotten(w: World) {
    forall i :: 0 <= i < |w.sent| ==> i in Unacked(w.sender.slots, |w.sent|) || i in w.accepted
  }

  /** The accepted set is what was delivered or is buffered, and the ack history records it. */
  ghost predicate AcceptedIsExact(w: World) {
    && (forall x :: x in w.accepted <==> Accepted(w.receiver, |w.delivered|, x))
    && AckHistory.Tracks(w.sequencer, w.top, w.accepted)
  }

  ghost predicate Inv(w: World, pendingCap: nat, orderedCap: nat) {
    && |w.sender.slots| == pendingCap && |w.receiver.buffer| == orderedCap
    && SenderInv(w.sender, w.sent)
    && |w.delivered| <= |w.sent| && w.delivered == w.sent[..|w.delivered|]
    && Holding(w.receiver, w.sent, |w.delivered|)
    && PayloadsFit(w.sent)
    && NothingForgotten(w)
    && AcceptedIsExact(w)
    && GenuinePackets(w)
    && TruthfulHeaders(w)
  }

  /** How many messages wait to be drained. */
  ghost function Ready(w: World): nat {
    RunLength(Buffered(w.receiver.buffer, |w.delivered|), |w.delivered|)
  }

  /** The first message the receiver has not accepted. */
  ghost function FirstMissing(w: World): nat { |w.delivered| + Ready(w) }

  lemma FirstMissingIs(w: World, pendingCap: nat, orderedCap: nat)
    requires Inv(w, pendingCap, orderedCap)
    ensures FirstMissing(w) !in w.accepted && FirstMissing(w) <= |w.sent|
    ensures FirstMissing(w) > 0 ==> FirstMissing(w) - 1 in w.accepted
    ensures Ready(w) <= orderedCap
  {
    var e, buffered, n := |w.delivered|, Buffered(w.receiver.buffer, |w.delivered|), Ready(w);
    NothingBefore(w.receiver, w.sent, e);
    BufferedSize(w.receiver.buffer, e);
    hide Holding, Buffered, SenderInv;
    RunBound(buffered, e);
    RunSplit(buffered, e, n);
    if n > 0 { RunSplit(buffered, e, n - 1); }
    hide RunLength;
    assert !Accepted(w.receiver, e, e + n);
    assert e + n > 0 ==> Accepted(w.receiver, e, e + n - 1);
  }

  /** A message that has not been accepted is still in the sender's table. */
  lemma UnacceptedIsPending(w: World, pendingCap: nat, orderedCap: nat, m: nat)
    requires Inv(w, pendingCap, orderedCap) && m < |w.sent| && m !in w.accepted
    ensures m in Unacked(w.sender.slots, |w.sent|) && |w.sent| <= m + pendingCap
  {
    var n := |w.sent|;
    var i :| 0 <= i < pendingCap && w.sender.slots[i].Some? && m == Lift(n, w.sender.slots[i].value.sequence);
    assert Genuine(w.sender.slots[i].value, w.sent, pendingCap);
  }

  /** So the flight never outruns the first missing message. */
  lemma FlightBound(w: World, pendingCap: nat, orderedCap: nat)
    requires Inv(w, pendingCap, orderedCap)
    ensures |w.sent| <= FirstMissing(w) + pendingCap
  {
    FirstMissingIs(w, pendingCap, orderedCap);
    hide Inv, FirstMissing;
    if FirstMissing(w) < |w.sent| { UnacceptedIsPending(w, pendingCap, orderedCap, FirstMissing(w)); }
  }

  /** Unless it leaves very much undrained, the caller may always queue. */
  lemma QueueIsEnabled(w: World, data: Payload, pendingCap: nat, orderedCap: nat)
    requires Inv(w, pendingCap, orderedCap) && Ready(w) + pendingCap < WINDOW
    ensures Enabled(w, QueueMessage(data))
  {
    QueueRefuses(w.sender, w.sent, data);
    FirstMissingIs(w, pendingCap, orderedCap);
    FlightBound(w, pendingCap, orderedCap);
    hide Inv, Queue, Ready;
    if Queue(w.sender, data).1.Ok? && FirstMissing(w) < |w.sent| {
      UnacceptedIsPending(w, pendingCap, orderedCap, FirstMissing(w));
    }
  }

  lemma InitialInv(w: World, pendingCap: nat, orderedCap: nat)
    requires Initial(w, pendingCap, orderedCap)
    ensures Inv(w, pendingCap, orderedCap)
  {
  }

  lemma QueueStep(w: World, data: Payload, pendingCap: nat, orderedCap: nat)
    requires Inv(w, pendingCap, orderedCap) && Enabled(w, QueueMessage(data))
    ensures Inv(After(w, QueueMessage(data)), pendingCap, orderedCap)
  {
    hide *;
    InvParts(w, pendingCap, orderedCap);
    QueueKeepsSize(w.sender, data);
    QueueAfter(w, data);
    QueueRefuses(w.sender, w.sent, data);
    if Queue(w.sender, data).1.Ok? {
      QueueAppends(w.sender, w.sent, data);
      HistoryGrows(w.receiver, w.sent, |w.delivered|, data);
      QueuedMessage(w, data, pendingCap, orderedCap);
    }
  }

  lemma InvParts(w: World, pendingCap: nat, orderedCap: nat)
    requires Inv(w, pendingCap, orderedCap)
    ensures |w.sender.slots| == pendingCap && |w.receiver.buffer| == orderedCap
    ensures SenderInv(w.sender, w.sent) && Holding(w.receiver, w.sent, |w.delivered|)
  {
    hide SenderInv, Holding;
  }

  lemma QueueKeepsSize(s: Sender, data: Payload)
    ensures |Queue(s, data).0.slots| == |s.slots|
  {
  }

  lemma QueueAfter(w: World, data: Payload)
    requires Enabled(w, QueueMessage(data))
    ensures Queue(w.sender, data).1.Ok? ==> |w.sent| + 1 < |w.delivered| + WINDOW
    ensures Queue(w.sender, data).1.Err? ==> After(w, QueueMessage(data)) == w
  {
    hide Queue;
  }

  lemma QueuedMessage(w: World, data: Payload, pendingCap: nat, orderedCap: nat)
    requires Inv(w, pendingCap, orderedCap)
    requires var (s, r) := Queue(w.sender, data);
             && r.Ok? && |data| <= MAX_PAYLOAD
             && SenderInv(s, w.sent + [data])
             && Unacked(s.slots, |w.sent| + 1) == Unacked(w.sender.slots, |w.sent|) + {|w.sent|}
             && |s.slots| == |w.sender.slots|
    requires Holding(w.receiver, w.sent + [data], |w.delivered|)
    ensures Inv(After(w, QueueMessage(data)), pendingCap, orderedCap)
  {
    hide Queue, SenderInv, Holding, Unacked, Accepted, AckHistory.Tracks, TruthfulHeader;
    var w' := After(w, QueueMessage(data));
    assert w'.delivered == w'.sent[..|w'.delivered|];
    PacketsGrow(w, data);
  }

  lemma PacketsGrow(w: World, data: Payload)
    requires GenuinePackets(w)
    ensures forall p :: p in w.packets + {Packet(|w.sent|, data)} ==>
              0 <= p.index < |w.sent + [data]| && p.payload == (w.sent + [data])[p.index]
  {
  }

  lemma TickStep(w: World, maxRetries: u8, pendingCap: nat, orderedCap: nat)
    requires Inv(w, pendingCap, orderedCap)
    ensures Inv(After(w, RetransmissionTick(maxRetries)), pendingCap, orderedCap)
  {
    if !w.timedOut {
      TickKeeps(w.sender, w.sent, maxRetries);
    }
  }

  lemma AcceptedBounds(w: World, pendingCap: nat, orderedCap: nat, x: int)
    requires Inv(w, pendingCap, orderedCap) && x in w.accepted
    ensures 0 <= x < |w.sent|
  {
    assert Accepted(w.receiver, |w.delivered|, x);
    NothingBefore(w.receiver, w.sent, |w.delivered|);
  }

  /** The sequencer may take an accepted arrival: it is within 2^15 of the highest so far. */
  lemma ArrivalNearTop(w: World, index: int, pendingCap: nat, orderedCap: nat)
    requires Inv(w, pendingCap, orderedCap) && w.sequencer.hasAny
    requires 0 <= index < |w.sent| < index + WINDOW
    ensures Abs(index - w.top) < WINDOW
  {
    FirstMissingIs(w, pendingCap, orderedCap);
    FlightBound(w, pendingCap, orderedCap);
    AcceptedBounds(w, pendingCap, orderedCap, w.top);
    hide Holding, SenderInv, FirstMissing;
  }

  lemma TruthIsMonotone(headers: set<Header>, accepted: set<int>, accepted': set<int>)
    requires forall h :: h in headers ==> TruthfulHeader(h, accepted)
    requires accepted <= accepted'
    ensures forall h :: h in headers ==> TruthfulHeader(h, accepted')
  {
  }

  lemma ArrivalStep(w: World, p: Packet, room: nat, pendingCap: nat, orderedCap: nat)
    requires Inv(w, pendingCap, orderedCap) && Enabled(w, PacketArrives(p, room))
    ensures Inv(After(w, PacketArrives(p, room)), pendingCap, orderedCap)
  {
    var e := |w.delivered|;
    var (r, result) := ReceiveAndDrain(w.receiver, Wire(p.index), p.payload, room);
    assert p.payload in w.sent;
    ArrivalKeeps(w.receiver, w.sent, e, p.index, room);
    if result.Ok? {
      if w.sequencer.hasAny { ArrivalNearTop(w, p.index, pendingCap, orderedCap); }
      AckHistory.IngestTracks(w.sequencer, w.top, w.accepted, p.index);
      AcceptedArrival(w, p, room, pendingCap, orderedCap);
    }
  }

  /** An arriving copy of the next message is delivered. */
  lemma NextArrives(w: World, p: Packet, room: nat, pendingCap: nat, orderedCap: nat)
    requires Inv(w, pendingCap, orderedCap) && Enabled(w, PacketArrives(p, room)) && p.index == |w.delivered|
    ensures |After(w, PacketArrives(p, room)).delivered| > |w.delivered|
  {
    assert p.payload in w.sent;
    hide Holding, SenderInv, ReceiveAndDrain, AckHistory.Ingest, Buffered, Wire;
    ArrivalKeeps(w.receiver, w.sent, |w.delivered|, p.index, room);
  }

  lemma AcceptedArrival(w: World, p: Packet, room: nat, pendingCap: nat, orderedCap: nat)
    requires Inv(w, pendingCap, orderedCap)
    requires var (r, result) := ReceiveAndDrain(w.receiver, Wire(p.index), p.payload, room);
             && result.Ok? && p.index >= 0
             && Took(w.receiver, r, w.sent, |w.delivered|, p.index, result.value)
    requires var (q, newest) := AckHistory.Ingest(w.sequencer, Wire(p.index));
             AckHistory.Tracks(q, if newest then p.index else w.top, w.accepted + {p.index})
    ensures Inv(After(w, PacketArrives(p, room)), pendingCap, orderedCap)
  {
    hide ReceiveAndDrain, SenderInv, Holding, Unacked, Accepted, AckHistory.Tracks,
         AckHistory.Ingest, TruthfulHeader;
    var (r, result) := ReceiveAndDrain(w.receiver, Wire(p.index), p.payload, room);
    var w', e := After(w, PacketArrives(p, room)), |w.delivered|;
    var e' := e + |result.value|;
    assert w'.delivered == w.sent[..e] + w.sent[e..e'] == w.sent[..e'];
    assert w'.receiver == r && w'.accepted == w.accepted + {p.index};
    TruthIsMonotone(w.headers, w.accepted, w'.accepted);
    assert NothingForgotten(w');
    assert AcceptedIsExact(w');
  }

  lemma UntakenBreaks(w: World, p: Packet, room: nat)
    requires Holding(w.receiver, w.sent, |w.delivered|)
    requires 0 <= p.index < |w.sent| && p.payload == w.sent[p.index] && |p.payload| <= MAX_PAYLOAD
    requires !CanTake(w.receiver, |w.delivered|, p.index, room)
    ensures var w' := After(w, PacketArrives(p, room));
            w'.sent == w.sent && !Holding(w'.receiver, w'.sent, |w'.delivered|)
  {
    var r, e := w.receiver, |w.delivered|;
    if room == 0 {
      LostWithoutRoom(r, w.sent, e, 0);
      IsNewerIsGreater(e, e + 1);
      hide Buffered, ReceiveAndDrain, AckHistory.Ingest, Wire;
    } else {
      hide Holding, Buffered, ReceiveAndDrain, AckHistory.Ingest, Wire;
      CopyLeftBehind(r, w.sent, e, room);
    }
  }

  /** The demands on the receiving caller are exact: any other arrival breaks the channel. */
  lemma RoomIsExact(w: World, p: Packet, room: nat, pendingCap: nat, orderedCap: nat)
    requires Inv(w, pendingCap, orderedCap) && p in w.packets && |w.sent| - p.index < WINDOW
    ensures Inv(After(w, PacketArrives(p, room)), pendingCap, orderedCap)
            <==> CanTake(w.receiver, |w.delivered|, p.index, room)
  {
    if CanTake(w.receiver, |w.delivered|, p.index, room) {
      ArrivalStep(w, p, room, pendingCap, orderedCap);
    } else {
      assert p.payload in w.sent;
      hide Holding, After;
      UntakenBreaks(w, p, room);
    }
  }

  /** A drain accepts nothing new and forgets nothing. */
  lemma DrainedAccepted(r: Receiver, r': Receiver, sent: seq<Payload>, e: nat, e': nat)
    requires Drained(r, r', sent, e, e') && forall x :: x in Buffered(r.buffer, e) ==> e <= x
    ensures forall x :: Accepted(r', e', x) <==> Accepted(r, e, x)
  {
    hide Holding, Buffered;
  }

  lemma DrainStep(w: World, room: nat, pendingCap: nat, orderedCap: nat)
    requires Inv(w, pendingCap, orderedCap)
    ensures Inv(After(w, DrainCall(room)), pendingCap, orderedCap)
  {
    hide SenderInv, Holding, Drain, Drained, AckHistory.Tracks, TruthfulHeader;
    var e := |w.delivered|;
    DrainDelivers(w.receiver, w.sent, e, room);
    NothingBefore(w.receiver, w.sent, e);
    var (r, out) := Drain(w.receiver, room);
    DrainedAccepted(w.receiver, r, w.sent, e, e + |out|);
    DrainedWorld(w, r, out, pendingCap, orderedCap);
  }

  lemma DrainedWorld(w: World, r: Receiver, out: seq<Payload>, pendingCap: nat, orderedCap: nat)
    requires Inv(w, pendingCap, orderedCap)
    requires var e := |w.delivered|;
             && Drained(w.receiver, r, w.sent, e, e + |out|) && out == w.sent[e..e + |out|]
             && forall x :: Accepted(r, e + |out|, x) <==> Accepted(w.receiver, e, x)
    ensures Inv(w.(receiver := r, delivered := w.delivered + out), pendingCap, orderedCap)
  {
    hide SenderInv, Holding, Unacked, Accepted, Buffered, AckHistory.Tracks, TruthfulHeader;
    var w', e := w.(receiver := r, delivered := w.delivered + out), |w.delivered|;
    assert w'.delivered == w.sent[..e] + w.sent[e..e + |out|] == w.sent[..e + |out|];
    assert AcceptedIsExact(w');
  }

  lemma ReadyMeans(w: World)
    ensures Ready(w) == 0 <==> |w.delivered| !in Buffered(w.receiver.buffer, |w.delivered|)
  {
    hide Buffered;
  }

  /** Nothing is ready after a drain exactly when its output held everything that was. */
  lemma DrainEmpties(w: World, room: nat, pendingCap: nat, orderedCap: nat)
    requires Inv(w, pendingCap, orderedCap)
    ensures Ready(After(w, DrainCall(room))) == 0 <==> room >= Ready(w)
  {
    var e := |w.delivered|;
    hide SenderInv, Holding, Drain, Drained, Buffered, AcceptedIsExact, RunLength, AckHistory.Tracks;
    DrainIsComplete(w.receiver, w.sent, e, room);
    DrainStep(w, room, pendingCap, orderedCap);
    ReadyMeans(After(w, DrainCall(room)));
    assert |After(w, DrainCall(room)).delivered| == e + |Drain(w.receiver, room).1|;
  }

  /** With nothing ready, a message out of turn makes nothing ready. */
  lemma OthersDeliverNothing(w: World, p: Packet, room: nat)
    requires Ready(w) == 0 && p.index >= 0 && p.index != |w.delivered|
    requires var (r, result) := ReceiveAndDrain(w.receiver, Wire(p.index), p.payload, room);
             && (result.Ok? ==> Took(w.receiver, r, w.sent, |w.delivered|, p.index, result.value))
             && (result.Err? ==> r == w.receiver)
    ensures Ready(After(w, PacketArrives(p, room))) == 0
  {
    hide Holding, Buffered, ReceiveAndDrain, AckHistory.Ingest;
    var e := |w.delivered|;
    var (r, result) := ReceiveAndDrain(w.receiver, Wire(p.index), p.payload, room);
    if result.Ok? {
      assert !Accepted(w.receiver, e, e);
      assert !Accepted(r, e + |result.value|, e);
    }
  }

  lemma HeaderStep(w: World, h: Header, pendingCap: nat, orderedCap: nat)
    requires Inv(w, pendingCap, orderedCap) && Enabled(w, HeaderArrives(h))
    ensures Inv(After(w, HeaderArrives(h)), pendingCap, orderedCap)
  {
    assert TruthfulHeader(h, w.accepted);
    AcceptedBounds(w, pendingCap, orderedCap, h.highest);
    AcknowledgeKeeps(w.sender, w.sent, h.highest, h.bits);
    var w' := After(w, HeaderArrives(h));
    forall i | 0 <= i < |w.sent|
      ensures i in Unacked(w'.sender.slots, |w.sent|) || i in w.accepted
    {
      if Names(h.highest, h.bits, i) && i != h.highest {
        assert h.highest - 1 - (h.highest - 1 - i) == i;
      }
    }
  }

  lemma SendStep(w: World, step: Step, pendingCap: nat, orderedCap: nat)
    requires Inv(w, pendingCap, orderedCap) && Enabled(w, step)
    requires step.SendHeader? || step.SendSingleAck?
    ensures Inv(After(w, step), pendingCap, orderedCap)
  {
    forall k: nat
      ensures !Bit(0, k)
    {
      BitZero(k);
    }
    var w' := After(w, step);
    forall h | h in w'.headers
      ensures TruthfulHeader(h, w'.accepted)
    {
    }
  }

  lemma ExpectedEmpties(w: World, p: Packet, room: nat)
    requires ReceiverInv(w.receiver, w.sent, |w.delivered|) && |w.delivered| < |w.sent|
    requires p == Packet(|w.delivered|, w.sent[|w.delivered|]) && |p.payload| <= MAX_PAYLOAD
    requires room > |w.receiver.buffer|
    ensures Ready(After(w, PacketArrives(p, room))) == 0
  {
    hide ReceiverInv, Buffered, ReceiveAndDrain, AckHistory.Ingest, RunLength, Wire;
    LongOutputEmpties(w.receiver, w.sent, |w.delivered|, room);
    var w' := After(w, PacketArrives(p, room));
    ReadyToAdvance(w'.receiver, w'.sent, |w'.delivered|);
    ReadyMeans(w');
  }

  /** A caller whose output outgrows the reorder buffer never has anything to drain. */
  lemma LongOutputStaysEmpty(w: World, p: Packet, room: nat, pendingCap: nat, orderedCap: nat)
    requires Inv(w, pendingCap, orderedCap) && p in w.packets && |w.sent| - p.index < WINDOW
    requires Ready(w) == 0 && room > orderedCap
    ensures Enabled(w, PacketArrives(p, room)) && Ready(After(w, PacketArrives(p, room))) == 0
  {
    ReadyMeans(w);
    assert p.payload in w.sent;
    hide Holding, Buffered, SenderInv, AcceptedIsExact, NothingForgotten, TruthfulHeaders, After, ReceiveAndDrain;
    if p.index == |w.delivered| {
      ExpectedEmpties(w, p, room);
    } else {
      ArrivalKeeps(w.receiver, w.sent, |w.delivered|, p.index, room);
      OthersDeliverNothing(w, p, room);
    }
  }

  /** A header may be sent exactly when something was received: an earlier one names message 0. */
  lemma HeaderNeedsArrival(w: World, pendingCap: nat, orderedCap: nat)
    requires Inv(w, pendingCap, orderedCap)
    ensures Inv(After(w, SendHeader), pendingCap, orderedCap) <==> w.sequencer.hasAny
  {
    hide Holding, SenderInv;
    if w.sequencer.hasAny {
      SendStep(w, SendHeader, pendingCap, orderedCap);
    } else {
      var w' := After(w, SendHeader);
      assert w.accepted == {};
      assert Header(w.top, w.sequencer.bitfield) in w'.headers;
    }
  }

  /** In an empty table a header for message 0 retires the first message as soon as it is queued. */
  lemma FirstMessageRetired(s: Sender, data: Payload)
    requires SenderInv(s, []) && |data| <= MAX_PAYLOAD && Unacked(s.slots, 0) == {}
    ensures var (s', r) := Queue(s, data);
            && r.Ok? && 0 in Unacked(s'.slots, 1)
            && 0 !in Unacked(Acknowledge(s'.slots, Wire(0), 0), 1)
  {
    QueueRefuses(s, [], data);
    assert |s.slots| >= 1;
    hide Queue, SenderInv, Unacked, Acknowledge, Wire;
    QueueAppends(s, [], data);
    assert [] + [data] == [data];
    AcknowledgeKeeps(Queue(s, data).0, [data], 0, 0);
  }

  /** What happens otherwise: the first message is retired although nobody received it. */
  lemma EarlyHeaderForgets(w: World, data: Payload, pendingCap: nat, orderedCap: nat)
    requires Initial(w, pendingCap, orderedCap) && |data| <= MAX_PAYLOAD
    ensures var w2 := After(After(w, SendHeader), QueueMessage(data));
            var w3 := After(w2, HeaderArrives(Header(0, 0)));
            && w2.sent == [data] && Header(0, 0) in w2.headers && 0 in Unacked(w2.sender.slots, 1)
            && 0 !in Unacked(w3.sender.slots, 1) && 0 !in w3.accepted
  {
    InitialInv(w, pendingCap, orderedCap);
    assert forall i :: 0 <= i < pendingCap ==> w.sender.slots[i].None?;
    assert Unacked(w.sender.slots, 0) == {};
    hide Queue, SenderInv, Unacked, Acknowledge, Holding, Accepted, Wire;
    FirstMessageRetired(w.sender, data);
  }

  /** Every step the environment may take keeps the invariant. */
  lemma StepKeepsInv(w: World, step: Step, pendingCap: nat, orderedCap: nat)
    requires Inv(w, pendingCap, orderedCap) && Enabled(w, step)
    ensures Inv(After(w, step), pendingCap, orderedCap)
  {
    match step {
      case QueueMessage(data) => QueueStep(w, data, pendingCap, orderedCap);
      case RetransmissionTick(maxRetries) => TickStep(w, maxRetries, pendingCap, orderedCap);
      case PacketArrives(p, room) => ArrivalStep(w, p, room, pendingCap, orderedCap);
      case HeaderArrives(h) => HeaderStep(w, h, pendingCap, orderedCap);
      case SendHeader => SendStep(w, step, pendingCap, orderedCap);
      case SendSingleAck(_) => SendStep(w, step, pendingCap, orderedCap);
      case DrainCall(room) => DrainStep(w, room, pendingCap, orderedCap);
      case PacketLost(_) =>
      case HeaderLost(_) =>
    }
  }

  lemma {:induction false} RunKeepsInv(run: seq<World>, steps: seq<Step>, pendingCap: nat, orderedCap: nat, i: nat)
    requires Run(run, steps, pendingCap, orderedCap) && i < |run|
    ensures Inv(run[i], pendingCap, orderedCap)
  {
    if i == 0 {
      InitialInv(run[0], pendingCap, orderedCap);
    } else {
      RunKeepsInv(run, steps, pendingCap, orderedCap, i - 1);
      StepKeepsInv(run[i - 1], steps[i - 1], pendingCap, orderedCap);
    }
  }

  /**
   Exactly-once, in-order delivery: at every moment of every run the delivered stream is the
   prefix of the sent stream, and nothing buffered is behind it.
   */
  lemma DeliveredIsPrefix(run: seq<World>, steps: seq<Step>, pendingCap: nat, orderedCap: nat, i: nat)
    requires Run(run, steps, pendingCap, orderedCap) && i < |run|
    ensures var w := run[i]; var e := |w.delivered|;
            && e <= |w.sent| && w.delivered == w.sent[..e]
            && w.receiver.expected == Wire(e)
            && (forall x :: x in Buffered(w.receiver.buffer, e) ==> e <= x < |w.sent|)
  {
    RunKeepsInv(run, steps, pendingCap, orderedCap, i);
    NothingBefore(run[i].receiver, run[i].sent, |run[i].delivered|);
  }

  /** In every run a message that has left the pending table was accepted by the receiver. */
  lemma RetiredOnlyIfAccepted(run: seq<World>, steps: seq<Step>, pendingCap: nat, orderedCap: nat, i: nat, m: nat)
    requires Run(run, steps, pendingCap, orderedCap) && i < |run| && m < |run[i].sent|
    requires m !in Unacked(run[i].sender.slots, |run[i].sent|)
    ensures Accepted(run[i].receiver, |run[i].delivered|, m)
  {
    RunKeepsInv(run, steps, pendingCap, orderedCap, i);
  }

  /**
   No arrival of any run is refused when the buffer holds what is ready and one message less
   than the pending table; with anything ready, as much as the whole table.
   */
  lemma BufferNeverFull(run: seq<World>, steps: seq<Step>, pendingCap: nat, orderedCap: nat, i: nat,
                        p: Packet, room: nat)
    requires Run(run, steps, pendingCap, orderedCap) && i < |run|
    requires var n := Ready(run[i]); orderedCap >= if n == 0 then pendingCap - 1 else pendingCap + n
    requires Enabled(run[i], PacketArrives(p, room))
    ensures ReceiveAndDrain(run[i].receiver, Wire(p.index), p.payload, room).1.Ok?
  {
    RunKeepsInv(run, steps, pendingCap, orderedCap, i);
    var w := run[i];
    var e := |w.delivered|;
    FlightBound(w, pendingCap, orderedCap);
    assert p.payload in w.sent;
    ArrivalKeeps(w.receiver, w.sent, e, p.index, room);
    if e < p.index && p.index !in Buffered(w.receiver.buffer, e) {
      BufferHasRoom(w.receiver, w.sent, e, p.index, pendingCap);
    }
  }

  /**
   No run gets stuck. While anything is undelivered, either the next message is ready and any
   drain call delivers it, or it is still in the sender's table and any arriving copy is
   delivered.
   */
  lemma NeverStuck(run: seq<World>, steps: seq<Step>, pendingCap: nat, orderedCap: nat, i: nat)
    requires Run(run, steps, pendingCap, orderedCap) && i < |run|
    requires |run[i].delivered| < |run[i].sent|
    ensures var w := run[i]; var e := |w.delivered|;
            if e in w.accepted then
              forall room: nat :: room > 0 ==> |After(w, DrainCall(room)).delivered| > e
            else
              && e in Unacked(w.sender.slots, |w.sent|)
              && forall p, room :: Enabled(w, PacketArrives(p, room)) && p.index == e ==>
                   |After(w, PacketArrives(p, room)).delivered| > e
  {
    RunKeepsInv(run, steps, pendingCap, orderedCap, i);
    var w := run[i];
    var e := |w.delivered|;
    if e in w.accepted {
      assert Accepted(w.receiver, e, e);
      forall room: nat | room > 0
        ensures |After(w, DrainCall(room)).delivered| > e
      {
        DrainCount(w.receiver, w.sent, e, room);
      }
    } else {
      UnacceptedIsPending(w, pendingCap, orderedCap, e);
      forall p, room | Enabled(w, PacketArrives(p, room)) && p.index == e
        ensures |After(w, PacketArrives(p, room)).delivered| > e
      {
        NextArrives(w, p, room, pendingCap, orderedCap);
      }
    }
  }
}
