/**
 The receiving half of the reliable ordered channel as functions on the reorder buffer.
 `sent` is the sender's unbounded history and `e` the number of messages delivered so far.
 */
module ReliableReceiver {
  import opened SlotTables
  import opened Words
  import opened SequenceNumbers
  import opened ReliableSender

  datatype Incoming = Incoming(sequence: u16, payload: Payload)

  type Buffer = seq<Option<Incoming>>

  datatype Receiver = Receiver(expected: u16, buffer: Buffer)

  /** The first slot holding sequence `q`, or the buffer length when there is none. */
  function FindSequence(buffer: Buffer, q: u16): (k: nat)
    ensures k <= |buffer|
    ensures forall j :: 0 <= j < k ==> !(buffer[j].Some? && buffer[j].value.sequence == q)
    ensures k < |buffer| ==> buffer[k].Some? && buffer[k].value.sequence == q
  {
    if buffer == [] || (buffer[0].Some? && buffer[0].value.sequence == q) then 0
    else 1 + FindSequence(buffer[1..], q)
  }

  function Receive(r: Receiver, q: u16, data: Payload): (Receiver, Result<Option<Payload>, NetError>) {
    if |data| > MAX_PAYLOAD then (r, Err(PayloadTooLarge(|data|, MAX_PAYLOAD)))
    else if q == r.expected then
      (r.(expected := WrappingAdd(r.expected, 1)), Ok(Some(data)))
    else if IsNewer(q, r.expected) then
      if FindSequence(r.buffer, q) < |r.buffer| then (r, Ok(None))
      else
        var k := FirstEmpty(r.buffer);
        if k == |r.buffer| then (r, Err(QueueFull))
        else (r.(buffer := r.buffer[k := Some(Incoming(q, data))]), Ok(None))
    else (r, Ok(None))
  }

  /**
   What an arrival does to any receiver. It is refused for its size above 256 bytes, and for want of
   room when it is ahead, not buffered yet and no slot is empty; a refusal, a duplicate and an older
   sequence all leave the receiver as it was.
   */
  lemma ArrivalOutcome(r: Receiver, q: u16, data: Payload)
    ensures var (r', out) := Receive(r, q, data);
            var ahead := 0 < (q - r.expected) % 65536 < 32768;
            var held := exists i :: 0 <= i < |r.buffer| && r.buffer[i].Some? && r.buffer[i].value.sequence == q;
            var full := forall i :: 0 <= i < |r.buffer| ==> r.buffer[i].Some?;
            && (out.Err? ==> r' == r)
            && (out == Err(PayloadTooLarge(|data|, 256)) <==> |data| > 256)
            && (out == Err(QueueFull) <==> |data| <= 256 && ahead && !held && full)
            && (out.Err? ==> |data| > 256 || (ahead && !held && full))
            && (out.Ok? && out.value.Some? <==> |data| <= 256 && q == r.expected)
            && (out.Ok? && out.value.Some? ==> out.value.value == data && r' == r.(expected := (q + 1) % 65536))
            && (out == Ok(None) && !(ahead && !held) ==> r' == r)
            && (out == Ok(None) && ahead && !held ==>
                  exists k :: && 0 <= k < |r.buffer| && r.buffer[k].None?
                              && (forall j :: 0 <= j < k ==> r.buffer[j].Some?)
                              && r' == r.(buffer := r.buffer[k := Some(Incoming(q, data))]))
  {
    var k := FindSequence(r.buffer, q);
    var free := FirstEmpty(r.buffer);
    assert k < |r.buffer| <==> exists i :: 0 <= i < |r.buffer| && r.buffer[i].Some? && r.buffer[i].value.sequence == q;
    AheadIsNewer(q, r.expected);
    hide IsNewer;
  }

  lemma AheadIsNewer(q: u16, expected: u16)
    ensures IsNewer(q, expected) <==> 0 < (q - expected) % 65536 < 32768
    ensures WrappingAdd(q, 1) == (q + 1) % 65536
  {
  }

  function DrainNext(r: Receiver): (Receiver, Option<Payload>) {
    var k := FindSequence(r.buffer, r.expected);
    if k == |r.buffer| then (r, None)
    else
      (Receiver(WrappingAdd(r.expected, 1), r.buffer[k := None]), Some(r.buffer[k].value.payload))
  }

  /** Drains ready packets into an output of `room` entries. */
  function Drain(r: Receiver, room: nat): (Receiver, seq<Payload>)
    decreases room
  {
    if room == 0 then (r, [])
    else
      match DrainNext(r) {
        case (_, None) => (r, [])
        case (r', Some(p)) => var (r'', rest) := Drain(r', room - 1); (r'', [p] + rest)
      }
  }

  /** One round of a drain. */
  lemma DrainUnfold(r: Receiver, room: nat)
    ensures Drain(r, room) ==
            if room == 0 || DrainNext(r).1.None? then (r, [])
            else var (r'', rest) := Drain(DrainNext(r).0, room - 1); (r'', [DrainNext(r).1.value] + rest)
    ensures DrainNext(r).1.None? ==> DrainNext(r).0 == r
  {
  }

  /** What is left of a drain after one round, when `done` was drained before. */
  lemma DrainRound(r: Receiver, room: nat, done: seq<Payload>, goal: Receiver, all: seq<Payload>)
    requires room > 0 && Drain(r, room).0 == goal && all == done + Drain(r, room).1
    ensures var (r1, packet) := DrainNext(r);
            match packet
            case None => r1 == r == goal && all == done
            case Some(p) => Drain(r1, room - 1).0 == goal && all == (done + [p]) + Drain(r1, room - 1).1
  {
    hide Drain, DrainNext;
    DrainUnfold(r, room);
    if DrainNext(r).1.None? {
      assert done + [] == done;
    } else {
      assert done + ([DrainNext(r).1.value] + Drain(DrainNext(r).0, room - 1).1)
             == (done + [DrainNext(r).1.value]) + Drain(DrainNext(r).0, room - 1).1;
    }
  }

  function ReceiveAndDrain(r: Receiver, q: u16, data: Payload, room: nat)
    : (Receiver, Result<seq<Payload>, NetError>)
  {
    match Receive(r, q, data) {
      case (r', Err(error)) => (r', Err(error))
      case (r', Ok(None)) => (r', Ok([]))
      case (r', Ok(Some(first))) =>
        if room == 0 then (r', Ok([]))
        else var (r'', rest) := Drain(r', room - 1); (r'', Ok([first] + rest))
    }
  }

  /** The arrival and drain in one call is refused for the same reasons and leaves the receiver as it was. */
  lemma RefusalChangesNothing(r: Receiver, q: u16, data: Payload, room: nat)
    ensures var (r', out) := ReceiveAndDrain(r, q, data, room);
            && (out.Err? ==> r' == r)
            && (out == Err(PayloadTooLarge(|data|, 256)) <==> |data| > 256)
            && (out.Err? <==> Receive(r, q, data).1.Err?)
            && (out.Err? ==> out.error == Receive(r, q, data).1.error)
  {
    ArrivalOutcome(r, q, data);
    hide Receive, Drain;
  }

  ghost function Buffered(buffer: Buffer, e: nat): set<int> {
    set i | 0 <= i < |buffer| && buffer[i].Some? :: Lift(e, buffer[i].value.sequence)
  }

  /** The packet is message Lift(e, sequence) of `sent`, and that is at or after `e`. */
  ghost predicate Ahead(p: Incoming, sent: seq<Payload>, e: nat) {
    var index := Lift(e, p.sequence);
    e <= index < |sent| && p.payload == sent[index]
  }

  /** Buffered packets are genuine, distinct and not before `e`; `e` itself may be waiting. */
  ghost predicate Holding(r: Receiver, sent: seq<Payload>, e: nat) {
    && e <= |sent| < e + WINDOW
    && r.expected == Wire(e)
    && (forall i :: 0 <= i < |r.buffer| && r.buffer[i].Some? ==> Ahead(r.buffer[i].value, sent, e))
    && (forall i, j :: 0 <= i < j < |r.buffer| && r.buffer[i].Some? && r.buffer[j].Some? ==>
          r.buffer[i].value.sequence != r.buffer[j].value.sequence)
  }

  /** Nothing is ready: every buffered packet is strictly ahead of the next expected one. */
  ghost predicate ReceiverInv(r: Receiver, sent: seq<Payload>, e: nat) {
    Holding(r, sent, e) && e !in Buffered(r.buffer, e)
  }

  lemma BufferedMeans(r: Receiver, sent: seq<Payload>, e: nat, index: int)
    requires Holding(r, sent, e) && e <= index < |sent|
    ensures index in Buffered(r.buffer, e) <==> FindSequence(r.buffer, Wire(index)) < |r.buffer|
  {
    LiftWire(e, index);
    var k := FindSequence(r.buffer, Wire(index));
    forall i | 0 <= i < |r.buffer| && r.buffer[i].Some?
      ensures Lift(e, r.buffer[i].value.sequence) == index <==> r.buffer[i].value.sequence == Wire(index)
    {
      WireLift(e, r.buffer[i].value.sequence);
    }
  }

  /** Moving the expected sequence past `e` renumbers nothing. */
  lemma Advance(r: Receiver, sent: seq<Payload>, e: nat)
    requires Holding(r, sent, e) && e < |sent| && e !in Buffered(r.buffer, e)
    ensures Holding(r.(expected := WrappingAdd(r.expected, 1)), sent, e + 1)
    ensures Buffered(r.buffer, e + 1) == Buffered(r.buffer, e)
  {
    forall i | 0 <= i < |r.buffer| && r.buffer[i].Some?
      ensures Lift(e + 1, r.buffer[i].value.sequence) == Lift(e, r.buffer[i].value.sequence)
      ensures Ahead(r.buffer[i].value, sent, e + 1)
    {
      var q := r.buffer[i].value.sequence;
      assert Lift(e, q) in Buffered(r.buffer, e);
      assert Ahead(r.buffer[i].value, sent, e);
      WireLift(e, q);
      LiftWire(e + 1, Lift(e, q));
    }
  }

  /** Draining one packet delivers message `e` if and only if it is buffered. */
  lemma DrainNextDelivers(r: Receiver, sent: seq<Payload>, e: nat)
    requires Holding(r, sent, e)
    ensures var (r', out) := DrainNext(r);
            && |r'.buffer| == |r.buffer|
            && (out.Some? <==> e in Buffered(r.buffer, e))
            && (out.None? ==> r' == r)
            && (out.Some? ==> && e < |sent| && out.value == sent[e]
                              && Holding(r', sent, e + 1)
                              && Buffered(r'.buffer, e + 1) == Buffered(r.buffer, e) - {e})
  {
    var (r', out) := DrainNext(r);
    var k := FindSequence(r.buffer, r.expected);
    LiftWire(e, e);
    forall i | 0 <= i < |r.buffer| && r.buffer[i].Some?
      ensures Lift(e, r.buffer[i].value.sequence) == e <==> r.buffer[i].value.sequence == Wire(e)
    {
      WireLift(e, r.buffer[i].value.sequence);
    }
    if out.Some? {
      assert Ahead(r.buffer[k].value, sent, e);
      var cleared := r.(buffer := r.buffer[k := None]);
      assert Buffered(cleared.buffer, e) == Buffered(r.buffer, e) - {e} by {
        forall x | x in Buffered(r.buffer, e) - {e}
          ensures x in Buffered(cleared.buffer, e)
        {
          var i :| 0 <= i < |r.buffer| && r.buffer[i].Some? && x == Lift(e, r.buffer[i].value.sequence);
          assert cleared.buffer[i] == r.buffer[i];
        }
      }
      assert Holding(cleared, sent, e);
      Advance(cleared, sent, e);
    }
  }

  /** The run of buffered messages that starts at `e`. */
  ghost function RunLength(buffered: set<int>, e: int): nat
    decreases |buffered|
  {
    if e in buffered then 1 + RunLength(buffered - {e}, e + 1) else 0
  }

  /** From (r, e) to (r', e'): the messages between were all buffered and left, no other did. */
  ghost predicate Drained(r: Receiver, r': Receiver, sent: seq<Payload>, e: nat, e': nat) {
    && e <= e' <= |sent|
    && |r'.buffer| == |r.buffer|
    && Holding(r', sent, e')
    && (forall x :: x in Buffered(r'.buffer, e') <==> x in Buffered(r.buffer, e) && x >= e')
    && (forall x :: e <= x < e' ==> x in Buffered(r.buffer, e))
  }

  lemma DrainedNothing(r: Receiver, sent: seq<Payload>, e: nat)
    requires Holding(r, sent, e)
    ensures Drained(r, r, sent, e, e) && sent[e..e] == []
  {
    NothingBefore(r, sent, e);
  }

  lemma DrainedBounds(r: Receiver, r': Receiver, sent: seq<Payload>, e: nat, e': nat)
    requires Drained(r, r', sent, e, e')
    ensures e <= e' <= |sent|
  {
  }

  /** A drain delivers the next messages of the stream in order; the rest stays buffered. */
  lemma {:induction false} DrainDelivers(r: Receiver, sent: seq<Payload>, e: nat, room: nat)
    requires Holding(r, sent, e)
    ensures var (r', out) := Drain(r, room);
            && Drained(r, r', sent, e, e + |out|)
            && out == sent[e..e + |out|]
    decreases room
  {
    hide Holding, Buffered, DrainNext, Drained;
    DrainedNothing(r, sent, e);
    if room > 0 {
      DrainNextDelivers(r, sent, e);
      var (r1, first) := DrainNext(r);
      if first.Some? {
        DrainDelivers(r1, sent, e + 1, room - 1);
        var (r', rest) := Drain(r1, room - 1);
        assert Drain(r, room) == (r', [sent[e]] + rest);
        DrainedBounds(r1, r', sent, e + 1, e + 1 + |rest|);
        DrainedCompose(r, r1, r', sent, e, e + 1 + |rest|);
        assert |[sent[e]] + rest| == 1 + |rest|;
      }
    }
  }

  lemma DrainedCompose(r: Receiver, r1: Receiver, r': Receiver, sent: seq<Payload>, e: nat, e': nat)
    requires Holding(r, sent, e) && e in Buffered(r.buffer, e)
    requires |r1.buffer| == |r.buffer| && Buffered(r1.buffer, e + 1) == Buffered(r.buffer, e) - {e}
    requires Drained(r1, r', sent, e + 1, e')
    ensures Drained(r, r', sent, e, e')
  {
    forall x | e <= x < e'
      ensures x in Buffered(r.buffer, e)
    {
      if x > e { assert x in Buffered(r1.buffer, e + 1); }
    }
  }

  /** How many: the contiguous run, cut off at the room. */
  lemma {:induction false} DrainCount(r: Receiver, sent: seq<Payload>, e: nat, room: nat)
    requires Holding(r, sent, e)
    ensures |Drain(r, room).1| == Min(room, RunLength(Buffered(r.buffer, e), e))
    decreases room
  {
    hide Holding, Buffered, DrainNext;
    if room > 0 {
      DrainNextDelivers(r, sent, e);
      var (r1, first) := DrainNext(r);
      if first.Some? {
        DrainCount(r1, sent, e + 1, room - 1);
      }
    }
  }

  /** The run from `e` reaches past e + n exactly when e + n is in the set too. */
  lemma {:induction false} RunSplit(s: set<int>, e: int, n: nat)
    requires n <= RunLength(s, e)
    ensures e + n in s <==> RunLength(s, e) > n
    decreases n
  {
    if n > 0 {
      RunSplit(s - {e}, e + 1, n - 1);
    }
  }

  /** A drain leaves nothing ready if and only if the room covered the contiguous run. */
  lemma DrainIsComplete(r: Receiver, sent: seq<Payload>, e: nat, room: nat)
    requires Holding(r, sent, e)
    ensures var (r', out) := Drain(r, room);
            ReceiverInv(r', sent, e + |out|) <==> room >= RunLength(Buffered(r.buffer, e), e)
  {
    hide *;
    DrainDelivers(r, sent, e, room);
    DrainCount(r, sent, e, room);
    var (r', out) := Drain(r, room);
    MinIs(room, RunLength(Buffered(r.buffer, e), e));
    RunSplit(Buffered(r.buffer, e), e, |out|);
    DrainedReady(r, r', sent, e, e + |out|);
  }

  lemma MinIs(a: int, b: int)
    ensures Min(a, b) == if a < b then a else b
  {
  }

  /** After a drain nothing is ready exactly when the next message was not buffered before. */
  lemma DrainedReady(r: Receiver, r': Receiver, sent: seq<Payload>, e: nat, e': nat)
    requires Drained(r, r', sent, e, e')
    ensures ReceiverInv(r', sent, e') <==> e' !in Buffered(r.buffer, e)
  {
    hide Holding, Buffered;
  }

  lemma NothingBefore(r: Receiver, sent: seq<Payload>, e: nat)
    requires Holding(r, sent, e)
    ensures forall x :: x in Buffered(r.buffer, e) ==> e <= x < |sent|
  {
    forall x | x in Buffered(r.buffer, e)
      ensures e <= x < |sent|
    {
      var i :| 0 <= i < |r.buffer| && r.buffer[i].Some? && x == Lift(e, r.buffer[i].value.sequence);
      assert Ahead(r.buffer[i].value, sent, e);
    }
  }

  /** Buffering a fresh future message adds it and nothing else. */
  lemma StoreKeeps(r: Receiver, sent: seq<Payload>, e: nat, index: int, k: nat)
    requires Holding(r, sent, e) && e < index < |sent|
    requires k < |r.buffer| && r.buffer[k].None?
    requires index !in Buffered(r.buffer, e)
    ensures var r' := r.(buffer := r.buffer[k := Some(Incoming(Wire(index), sent[index]))]);
            Holding(r', sent, e) && Buffered(r'.buffer, e) == Buffered(r.buffer, e) + {index}
  {
    var r' := r.(buffer := r.buffer[k := Some(Incoming(Wire(index), sent[index]))]);
    LiftWire(e, index);
    forall i | 0 <= i < |r.buffer| && r.buffer[i].Some?
      ensures r'.buffer[i] == r.buffer[i] && r.buffer[i].value.sequence != Wire(index)
      ensures Ahead(r.buffer[i].value, sent, e)
    {
      assert Lift(e, r.buffer[i].value.sequence) in Buffered(r.buffer, e);
    }
    assert r'.buffer[k].Some? && Lift(e, r'.buffer[k].value.sequence) == index;
    forall x | x in Buffered(r.buffer, e)
      ensures x in Buffered(r'.buffer, e)
    {
      var i :| 0 <= i < |r.buffer| && r.buffer[i].Some? && x == Lift(e, r.buffer[i].value.sequence);
      assert r'.buffer[i] == r.buffer[i];
    }
  }

  /** The messages a receiver has accepted: delivered or buffered. */
  ghost predicate Accepted(r: Receiver, e: nat, index: int) {
    0 <= index < e || index in Buffered(r.buffer, e)
  }

  /** Nothing accepted is forgotten, `index` is added, and the output is the next stretch. */
  ghost predicate Took(r: Receiver, r': Receiver, sent: seq<Payload>, e: nat, index: nat, out: seq<Payload>) {
    var e' := e + |out|;
    && e' <= |sent| && out == sent[e..e']
    && |r'.buffer| == |r.buffer|
    && Holding(r', sent, e')
    && (forall x :: Accepted(r', e', x) <==> Accepted(r, e, x) || x == index)
  }

  /** The expected message needs room for itself, and its own buffered copy must have been drained. */
  ghost predicate CanTake(r: Receiver, e: nat, index: int, room: nat) {
    index == e ==> room > 0 && e !in Buffered(r.buffer, e)
  }

  lemma ReceivesExpected(r: Receiver, data: Payload, room: nat)
    requires |data| <= MAX_PAYLOAD
    ensures var r1 := r.(expected := WrappingAdd(r.expected, 1));
            ReceiveAndDrain(r, r.expected, data, room)
            == if room == 0 then (r1, Ok([])) else (Drain(r1, room - 1).0, Ok([data] + Drain(r1, room - 1).1))
  {
    hide Drain, WrappingAdd;
  }

  lemma HoldingMeans(r: Receiver, sent: seq<Payload>, e: nat)
    requires Holding(r, sent, e)
    ensures r.expected == Wire(e) && WrappingAdd(r.expected, 1) == Wire(e + 1) && e <= |sent| < e + WINDOW
  {
    WireNext(e);
  }

  lemma ReadyToAdvance(r: Receiver, sent: seq<Payload>, e: nat)
    requires ReceiverInv(r, sent, e)
    ensures r.expected == Wire(e) && Holding(r, sent, e) && e !in Buffered(r.buffer, e)
  {
    hide Wire, Buffered, Ahead;
  }

  lemma ExpectedArrival(r: Receiver, sent: seq<Payload>, e: nat, room: nat)
    requires Holding(r, sent, e) && e < |sent| && |sent[e]| <= MAX_PAYLOAD
    requires room > 0 && e !in Buffered(r.buffer, e)
    ensures var (r', result) := ReceiveAndDrain(r, Wire(e), sent[e], room);
            && result.Ok? && |result.value| > 0
            && Took(r, r', sent, e, e, result.value)
  {
    hide *;
    HoldingMeans(r, sent, e);
    ReceivesExpected(r, sent[e], room);
    Advance(r, sent, e);
    var r1 := r.(expected := WrappingAdd(r.expected, 1));
    var (r', rest) := Drain(r1, room - 1);
    DrainDelivers(r1, sent, e + 1, room - 1);
    TookExpected(r, r1, r', sent, e, rest);
  }

  lemma TookExpected(r: Receiver, r1: Receiver, r': Receiver, sent: seq<Payload>, e: nat, rest: seq<Payload>)
    requires Holding(r, sent, e) && e < |sent|
    requires r1.buffer == r.buffer && Buffered(r.buffer, e + 1) == Buffered(r.buffer, e)
    requires Drained(r1, r', sent, e + 1, e + 1 + |rest|) && rest == sent[e + 1..e + 1 + |rest|]
    ensures Took(r, r', sent, e, e, [sent[e]] + rest)
  {
    var out := [sent[e]] + rest;
    assert e + |out| == e + 1 + |rest|;
    assert out == sent[e..e + |out|];
    NothingBefore(r, sent, e);
    hide Holding, Buffered;
  }

  /**
   Without room the expected message is lost for good: the channel moves past it, hands out
   nothing, and ignores every later copy.
   */
  lemma LostWithoutRoom(r: Receiver, sent: seq<Payload>, e: nat, room: nat)
    requires Holding(r, sent, e) && e < |sent| && |sent[e]| <= MAX_PAYLOAD
    ensures var r1 := r.(expected := Wire(e + 1));
            && ReceiveAndDrain(r, Wire(e), sent[e], 0) == (r1, Ok([]))
            && ReceiveAndDrain(r1, Wire(e), sent[e], room) == (r1, Ok([]))
  {
    HoldingMeans(r, sent, e);
    ReceivesExpected(r, sent[e], 0);
    IsNewerIsGreater(e, e + 1);
    hide Wire, IsNewer, Drain;
  }

  lemma {:induction false} FindIgnores(buffer: Buffer, k: nat, p: Incoming, q: u16)
    requires k < |buffer| && buffer[k].None? && p.sequence != q
    ensures FindSequence(buffer[k := Some(p)], q) == FindSequence(buffer, q)
  {
    if k > 0 {
      assert buffer[k := Some(p)][1..] == buffer[1..][k - 1 := Some(p)];
      FindIgnores(buffer[1..], k - 1, p, q);
    } else {
      assert buffer[k := Some(p)][1..] == buffer[1..];
    }
  }

  /** A packet that is behind the expected sequence stays in its slot, whatever is drained. */
  lemma {:induction false} DrainIgnores(r: Receiver, sent: seq<Payload>, e: nat, m: nat, k: nat, p: Incoming, n: nat)
    requires Holding(r, sent, e) && m < e && |sent| < m + WINDOW
    requires k < |r.buffer| && r.buffer[k].None? && p.sequence == Wire(m)
    ensures var (r', out) := Drain(r, n);
            && |r'.buffer| == |r.buffer|
            && Drain(r.(buffer := r.buffer[k := Some(p)]), n) == (r'.(buffer := r'.buffer[k := Some(p)]), out)
    decreases n
  {
    hide *;
    var stale := r.(buffer := r.buffer[k := Some(p)]);
    DrainUnfold(r, n);
    DrainUnfold(stale, n);
    if n > 0 {
      HoldingMeans(r, sent, e);
      WireDiffers(e, m);
      NextIgnores(r, k, p);
      DrainNextDelivers(r, sent, e);
      if DrainNext(r).1.Some? { DrainIgnores(DrainNext(r).0, sent, e + 1, m, k, p, n - 1); }
    }
  }

  lemma WireDiffers(e: nat, m: nat)
    requires m < e < m + WINDOW
    ensures Wire(m) != Wire(e)
  {
    IsNewerIsGreater(e, m);
  }

  /** Draining one packet leaves a packet of another sequence in its slot. */
  lemma NextIgnores(r: Receiver, k: nat, p: Incoming)
    requires k < |r.buffer| && r.buffer[k].None? && p.sequence != r.expected
    ensures var (r', out) := DrainNext(r);
            && |r'.buffer| == |r.buffer| && r'.buffer[k].None?
            && DrainNext(r.(buffer := r.buffer[k := Some(p)])) == (r'.(buffer := r'.buffer[k := Some(p)]), out)
  {
    FindIgnores(r.buffer, k, p, r.expected);
    hide FindSequence, WrappingAdd;
    var i := FindSequence(r.buffer, r.expected);
    if i < |r.buffer| {
      assert r.buffer[k := Some(p)][i := None] == r.buffer[i := None][k := Some(p)];
    }
  }

  lemma StaleIsNotAhead(r: Receiver, sent: seq<Payload>, m: nat, e: nat, k: nat)
    requires k < |r.buffer| && r.buffer[k].Some? && r.buffer[k].value.sequence == Wire(m)
    requires m < e <= m + WINDOW
    ensures !Holding(r, sent, e)
  {
    LiftWire(e, m);
    assert !Ahead(r.buffer[k].value, sent, e);
  }

  /** A ready copy of the expected message: draining clears its slot and nothing else. */
  lemma ReadyCopy(r: Receiver, sent: seq<Payload>, e: nat) returns (k: nat)
    requires Holding(r, sent, e) && e in Buffered(r.buffer, e)
    ensures k < |r.buffer| && r.buffer[k].Some? && r.buffer[k].value.sequence == Wire(e)
    ensures var c := Receiver(WrappingAdd(r.expected, 1), r.buffer[k := None]);
            Holding(c, sent, e + 1) && c.buffer[k := r.buffer[k]] == r.buffer
  {
    HoldingMeans(r, sent, e);
    DrainNextDelivers(r, sent, e);
    hide Holding, Buffered, Wire;
    k := FindSequence(r.buffer, r.expected);
  }

  /** When the expected message arrives while its copy is ready, that copy is left behind. */
  lemma CopyLeftBehind(r: Receiver, sent: seq<Payload>, e: nat, room: nat)
    requires Holding(r, sent, e) && e in Buffered(r.buffer, e) && room > 0
    requires e < |sent| && |sent[e]| <= MAX_PAYLOAD
    ensures var (r', result) := ReceiveAndDrain(r, Wire(e), sent[e], room);
            && result.Ok? && |result.value| > 0
            && (exists k :: 0 <= k < |r'.buffer| && r'.buffer[k].Some? && r'.buffer[k].value.sequence == Wire(e))
            && !Holding(r', sent, e + |result.value|)
  {
    hide *;
    HoldingMeans(r, sent, e);
    ReceivesExpected(r, sent[e], room);
    var k := ReadyCopy(r, sent, e);
    var c := Receiver(WrappingAdd(r.expected, 1), r.buffer[k := None]);
    DrainIgnores(c, sent, e + 1, e, k, r.buffer[k].value, room - 1);
    DrainDelivers(c, sent, e + 1, room - 1);
    var (r', rest) := Drain(c, room - 1);
    DrainedBounds(c, r', sent, e + 1, e + 1 + |rest|);
    assert e + |[sent[e]] + rest| == e + 1 + |rest|;
    StaleIsNotAhead(r'.(buffer := r'.buffer[k := r.buffer[k]]), sent, e, e + 1 + |rest|, k);
    assert r'.buffer[k := r.buffer[k]][k] == r.buffer[k];
  }

  /**
   Exactly when the caller's output is large enough: after the expected message arrives the
   channel is left in order if and only if the output has room for it and for the whole run
   of buffered messages behind it.
   */
  lemma RoomNeeded(r: Receiver, sent: seq<Payload>, e: nat, room: nat)
    requires ReceiverInv(r, sent, e) && e < |sent| && |sent[e]| <= MAX_PAYLOAD
    ensures var (r', result) := ReceiveAndDrain(r, Wire(e), sent[e], room);
            && result.Ok?
            && (ReceiverInv(r', sent, e + |result.value|)
                <==> room > RunLength(Buffered(r.buffer, e), e + 1))
  {
    hide Buffered, Drain;
    Advance(r, sent, e);
    var r1 := r.(expected := WrappingAdd(r.expected, 1));
    if room == 0 {
      assert ReceiveAndDrain(r, Wire(e), sent[e], room) == (r1, Ok([]));
      IsNewerIsGreater(e, e + 1);
    } else {
      var (r', rest) := Drain(r1, room - 1);
      DrainIsComplete(r1, sent, e + 1, room - 1);
      assert ReceiveAndDrain(r, Wire(e), sent[e], room) == (r', Ok([sent[e]] + rest));
      assert e + |[sent[e]] + rest| == e + 1 + |rest|;
    }
  }

  lemma NoRoomNeeded(r: Receiver, e: nat, index: nat, room: nat)
    requires index != e
    ensures CanTake(r, e, index, room)
  {
  }

  /** A call that delivers nothing. */
  lemma TookNothing(r: Receiver, r': Receiver, sent: seq<Payload>, e: nat, index: nat)
    requires Holding(r', sent, e) && e <= |sent| && |r'.buffer| == |r.buffer|
    requires forall x :: x in Buffered(r'.buffer, e) <==> x in Buffered(r.buffer, e) || (x == index && x >= e)
    ensures Took(r, r', sent, e, index, [])
  {
    hide Holding, Buffered;
  }

  lemma ArrivalBehind(r: Receiver, sent: seq<Payload>, e: nat, index: nat, room: nat)
    requires Holding(r, sent, e)
    requires index < |sent| < index + WINDOW && |sent[index]| <= MAX_PAYLOAD && index < e
    ensures ReceiveAndDrain(r, Wire(index), sent[index], room) == (r, Ok([]))
    ensures Took(r, r, sent, e, index, [])
  {
    NothingBefore(r, sent, e);
    HoldingMeans(r, sent, e);
    IsNewerIsGreater(index, e);
    hide Holding, Wire, IsNewer, FindSequence, FirstEmpty;
    TookNothing(r, r, sent, e, index);
  }

  lemma ArrivalAhead(r: Receiver, sent: seq<Payload>, e: nat, index: nat, room: nat)
    requires Holding(r, sent, e)
    requires e < index < |sent| < index + WINDOW && |sent[index]| <= MAX_PAYLOAD
    ensures var (r', result) := ReceiveAndDrain(r, Wire(index), sent[index], room);
            && (result.Ok? ==> result.value == [] && Took(r, r', sent, e, index, []))
            && (result.Err? ==> && result.error == QueueFull && r' == r
                                && index !in Buffered(r.buffer, e)
                                && FirstEmpty(r.buffer) == |r.buffer|)
  {
    HoldingMeans(r, sent, e);
    IsNewerIsGreater(index, e);
    BufferedMeans(r, sent, e, index);
    var k := FirstEmpty(r.buffer);
    hide Holding, Buffered, Wire, IsNewer, Took, FindSequence, FirstEmpty;
    if index in Buffered(r.buffer, e) {
      TookNothing(r, r, sent, e, index);
    } else if k < |r.buffer| {
      StoreKeeps(r, sent, e, index, k);
      TookNothing(r, r.(buffer := r.buffer[k := Some(Incoming(Wire(index), sent[index]))]), sent, e, index);
    }
  }

  /** The expected message is taken exactly when it has room and no copy of it is ready. */
  lemma ArrivalExpected(r: Receiver, sent: seq<Payload>, e: nat, room: nat)
    requires Holding(r, sent, e) && e < |sent| && |sent[e]| <= MAX_PAYLOAD
    ensures var (r', result) := ReceiveAndDrain(r, Wire(e), sent[e], room);
            && result.Ok?
            && (Took(r, r', sent, e, e, result.value) <==> CanTake(r, e, e, room))
            && (room > 0 ==> result.value != [])
  {
    hide Buffered, ReceiveAndDrain, Drain;
    HoldingMeans(r, sent, e);
    ReceivesExpected(r, sent[e], room);
    if room == 0 {
      IsNewerIsGreater(e, e + 1);
      hide Wire;
    } else {
      hide Holding, Wire;
      if e in Buffered(r.buffer, e) { CopyLeftBehind(r, sent, e, room); } else { ExpectedArrival(r, sent, e, room); }
    }
  }

  /**
   One arrival of message `index`, less than 2^15 behind the newest, into an output of any
   length. It is refused only when it would need a slot and none is empty, and it keeps the
   channel in order exactly when, should it be the expected message, the output has room for
   it and its own copy is not still waiting to be drained.
   */
  lemma ArrivalKeeps(r: Receiver, sent: seq<Payload>, e: nat, index: nat, room: nat)
    requires Holding(r, sent, e)
    requires index < |sent| < index + WINDOW && |sent[index]| <= MAX_PAYLOAD
    ensures var (r', result) := ReceiveAndDrain(r, Wire(index), sent[index], room);
            && (result.Ok? ==> (Took(r, r', sent, e, index, result.value) <==> CanTake(r, e, index, room)))
            && (result.Ok? && index == e && room > 0 ==> result.value != [])
            && (result.Err? ==> && result.error == QueueFull && r' == r && e < index
                                && index !in Buffered(r.buffer, e)
                                && FirstEmpty(r.buffer) == |r.buffer|)
  {
    hide *;
    if index == e {
      ArrivalExpected(r, sent, e, room);
    } else {
      NoRoomNeeded(r, e, index, room);
      if index < e { ArrivalBehind(r, sent, e, index, room); } else { ArrivalAhead(r, sent, e, index, room); }
    }
  }

  /** A later message in the sender's history changes nothing for the receiver. */
  lemma HistoryGrows(r: Receiver, sent: seq<Payload>, e: nat, data: Payload)
    requires Holding(r, sent, e) && |sent| + 1 < e + WINDOW
    ensures Holding(r, sent + [data], e)
  {
    forall i | 0 <= i < |r.buffer| && r.buffer[i].Some?
      ensures Ahead(r.buffer[i].value, sent + [data], e)
    {
      assert Ahead(r.buffer[i].value, sent, e);
    }
  }

  lemma {:induction false} FullBufferSize(r: Receiver, sent: seq<Payload>, e: nat, k: nat)
    requires Holding(r, sent, e) && k <= |r.buffer|
    requires forall i :: 0 <= i < |r.buffer| ==> r.buffer[i].Some?
    ensures |set i | 0 <= i < k :: Lift(e, r.buffer[i].value.sequence)| == k
    decreases k
  {
    var s := set i | 0 <= i < k :: Lift(e, r.buffer[i].value.sequence);
    if k == 0 {
      assert s == {};
    } else {
      FullBufferSize(r, sent, e, k - 1);
      var t := set i | 0 <= i < k - 1 :: Lift(e, r.buffer[i].value.sequence);
      var x := Lift(e, r.buffer[k - 1].value.sequence);
      WireLift(e, r.buffer[k - 1].value.sequence);
      forall i | 0 <= i < k - 1
        ensures Lift(e, r.buffer[i].value.sequence) != x
      {
        WireLift(e, r.buffer[i].value.sequence);
      }
      assert s == t + {x};
    }
  }

  /** A full buffer holds as many messages as it has slots. */
  lemma FullBufferHolds(r: Receiver, sent: seq<Payload>, e: nat)
    requires Holding(r, sent, e) && FirstEmpty(r.buffer) == |r.buffer|
    ensures |Buffered(r.buffer, e)| == |r.buffer|
  {
    FullBufferSize(r, sent, e, |r.buffer|);
    assert Buffered(r.buffer, e) == set i | 0 <= i < |r.buffer| :: Lift(e, r.buffer[i].value.sequence);
  }

  /**
   With n messages ready and every message in flight below e + n + span, a buffer of n + span
   slots always has one for a message it does not hold; when nothing is ready one less will do.
   */
  lemma BufferHasRoom(r: Receiver, sent: seq<Payload>, e: nat, index: int, span: nat)
    requires Holding(r, sent, e) && e < index < |sent| && index !in Buffered(r.buffer, e)
    requires var n := RunLength(Buffered(r.buffer, e), e);
             |sent| <= e + n + span && |r.buffer| >= if n == 0 then span - 1 else n + span
    ensures FirstEmpty(r.buffer) < |r.buffer|
  {
    if FirstEmpty(r.buffer) == |r.buffer| {
      hide Buffered, Holding, Lift;
      FullBufferHolds(r, sent, e);
      NothingBefore(r, sent, e);
      var n := RunLength(Buffered(r.buffer, e), e);
      Pigeonhole(Buffered(r.buffer, e) + {index}, if n == 0 then e + 1 else e, e + n + span);
    }
  }

  /** The messages in the first slots and the one, if any, in the last. */
  lemma BufferedLast(buffer: Buffer, e: nat)
    requires buffer != []
    ensures var n := |buffer| - 1;
            Buffered(buffer, e) == Buffered(buffer[..n], e)
                                   + if buffer[n].Some? then {Lift(e, buffer[n].value.sequence)} else {}
  {
    hide Lift;
  }

  lemma {:induction false} BufferedSize(buffer: Buffer, e: nat)
    ensures |Buffered(buffer, e)| <= |buffer|
    decreases |buffer|
  {
    if buffer == [] {
      assert Buffered(buffer, e) == {};
    } else {
      hide Buffered;
      BufferedLast(buffer, e);
      BufferedSize(buffer[..|buffer| - 1], e);
    }
  }

  lemma {:induction false} RunBound(s: set<int>, e: int)
    ensures RunLength(s, e) <= |s|
    decreases |s|
  {
    if e in s {
      RunBound(s - {e}, e + 1);
    }
  }

  /** An output longer than the reorder buffer leaves nothing ready: a caller can check that. */
  lemma LongOutputEmpties(r: Receiver, sent: seq<Payload>, e: nat, room: nat)
    requires ReceiverInv(r, sent, e) && e < |sent| && |sent[e]| <= MAX_PAYLOAD && room > |r.buffer|
    ensures var (r', result) := ReceiveAndDrain(r, Wire(e), sent[e], room);
            result.Ok? && ReceiverInv(r', sent, e + |result.value|)
  {
    hide ReceiverInv, Buffered, ReceiveAndDrain, Wire;
    BufferedSize(r.buffer, e);
    RunBound(Buffered(r.buffer, e), e + 1);
    RoomNeeded(r, sent, e, room);
  }
}
