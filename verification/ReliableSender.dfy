/**
 The sending half of the reliable ordered channel as functions on the retransmission table:
 queueing behind the flight window, selective acknowledgment and retransmission ticks.
 `sent` is the unbounded history of queued messages; message number i travels as Wire(i).
 */
module ReliableSender {
  import opened SlotTables
  import opened Words
  import opened Bitwise
  import opened SequenceNumbers

  const MAX_PAYLOAD := 256
  const RETRY_TICKS := 4

  type Payload = seq<u8>

  datatype NetError = PayloadTooLarge(length: nat, max: nat) | QueueFull | ConnectionTimedOut

  datatype Pending = Pending(sequence: u16, payload: Payload, retryCountdown: u32, retryCount: u8)

  type Slots = seq<Option<Pending>>

  datatype Sender = Sender(next: u16, slots: Slots)

  /** Some unacknowledged packet is at least a table length behind the next sequence. */
  predicate WindowFull(slots: Slots, next: u16) {
    exists i :: 0 <= i < |slots| && slots[i].Some?
                && WrappingSub(next, slots[i].value.sequence) >= |slots|
  }

  function Queue(s: Sender, data: Payload): (Sender, Result<u16, NetError>) {
    if |data| > MAX_PAYLOAD then (s, Err(PayloadTooLarge(|data|, MAX_PAYLOAD)))
    else if WindowFull(s.slots, s.next) then (s, Err(QueueFull))
    else
      var k := FirstEmpty(s.slots);
      if k == |s.slots| then (s, Err(QueueFull))
      else
        (Sender(WrappingAdd(s.next, 1), s.slots[k := Some(Pending(s.next, data, RETRY_TICKS, 0))]),
         Ok(s.next))
  }

  /**
   What queueing does to any sender. A payload above 256 bytes is too large; otherwise the queue is
   full when a pending packet is a table length or more behind the next sequence, or no slot is
   empty. A refusal changes nothing; a success takes the first empty slot and the next number.
   */
  lemma QueueOutcome(s: Sender, data: Payload)
    ensures var (s', r) := Queue(s, data);
            var behind := exists i :: && 0 <= i < |s.slots| && s.slots[i].Some?
                                      && (s.next - s.slots[i].value.sequence) % 65536 >= |s.slots|;
            var full := forall i :: 0 <= i < |s.slots| ==> s.slots[i].Some?;
            && (r == Err(PayloadTooLarge(|data|, 256)) <==> |data| > 256)
            && (r == Err(QueueFull) <==> |data| <= 256 && (behind || full))
            && (r == Ok(s.next) <==> |data| <= 256 && !behind && !full)
            && (r.Err? ==> s' == s)
            && (r.Ok? ==>
                  && s'.next == (s.next + 1) % 65536
                  && exists k :: && 0 <= k < |s.slots| && s.slots[k].None?
                                 && (forall j :: 0 <= j < k ==> s.slots[j].Some?)
                                 && s'.slots == s.slots[k := Some(Pending(s.next, data, 4, 0))])
  {
    var k := FirstEmpty(s.slots);
    assert k == |s.slots| <==> forall i :: 0 <= i < |s.slots| ==> s.slots[i].Some?;
    assert WindowFull(s.slots, s.next) <==>
           exists i :: && 0 <= i < |s.slots| && s.slots[i].Some?
                       && (s.next - s.slots[i].value.sequence) % 65536 >= |s.slots|;
    hide WindowFull;
  }

  /** Whether the header `(ack, bits)` confirms wire sequence `q`. */
  predicate Confirms(ack: u16, bits: u32, q: u16) {
    q == ack
    || (IsNewer(ack, q)
        && var diff := WrappingSub(ack, q); 0 < diff <= 32 && Bit(bits, diff - 1))
  }

  function AckSlot(slot: Option<Pending>, ack: u16, bits: u32): Option<Pending> {
    if slot.Some? && Confirms(ack, bits, slot.value.sequence) then None else slot
  }

  function Acknowledge(slots: Slots, ack: u16, bits: u32): Slots {
    seq(|slots|, i requires 0 <= i < |slots| => AckSlot(slots[i], ack, bits))
  }

  datatype TickOutcome = Waiting | Retried | Expired

  /** One retransmission tick of one packet. */
  function TickPacket(p: Pending, maxRetries: u8): (Pending, TickOutcome) {
    if p.retryCountdown == 0 then
      var count := Min(p.retryCount + 1, 255);
      if count > maxRetries then (p.(retryCount := count), Expired)
      else
        var shift := Min(count - 1, 3);
        (p.(retryCount := count, retryCountdown := Min(RETRY_TICKS * Pow2(shift), 32)), Retried)
    else
      (p.(retryCountdown := p.retryCountdown - 1), Waiting)
  }

  /**
   One tick of one packet: the timer counts down, and at zero the packet has used one more retry.
   Beyond the limit it expires, and otherwise it is handed out and waits 4, 8, 16 and then 32 calls.
   */
  lemma TickExactly(p: Pending, maxRetries: u8)
    ensures var (p', outcome) := TickPacket(p, maxRetries);
            && p'.sequence == p.sequence && p'.payload == p.payload
            && if p.retryCountdown > 0 then
                 outcome == Waiting && p'.retryCountdown == p.retryCountdown - 1 && p'.retryCount == p.retryCount
               else
                 && p'.retryCount == (if p.retryCount < 255 then p.retryCount + 1 else 255)
                 && if p'.retryCount > maxRetries then outcome == Expired && p'.retryCountdown == 0
                    else
                      && outcome == Retried
                      && p'.retryCountdown == (if p'.retryCount == 1 then 4 else if p'.retryCount == 2 then 8
                                               else if p'.retryCount == 3 then 16 else 32)
  {
    Pow2Small();
    assert Pow2(0) == 1;
    hide Pow2;
  }

  datatype Tick = Tick(slots: Slots, retried: seq<(u16, Payload)>, timedOut: bool)

  /** One tick of the first `n` slots in table order; a packet that expires stops the scan. */
  function TickUpTo(slots: Slots, n: nat, maxRetries: u8): (t: Tick)
    requires n <= |slots|
    ensures |t.slots| == |slots|
    ensures forall i :: n <= i < |slots| ==> t.slots[i] == slots[i]
  {
    if n == 0 then Tick(slots, [], false)
    else
      var before := TickUpTo(slots, n - 1, maxRetries);
      if before.timedOut || slots[n - 1].None? then before
      else
        var (p, outcome) := TickPacket(slots[n - 1].value, maxRetries);
        Tick(before.slots[n - 1 := Some(p)],
             if outcome.Retried? then before.retried + [(p.sequence, p.payload)] else before.retried,
             outcome.Expired?)
  }

  /** One round of the scan. */
  lemma TickNext(slots: Slots, i: nat, maxRetries: u8)
    requires i < |slots|
    ensures var t := TickUpTo(slots, i, maxRetries);
            && t.slots[i] == slots[i]
            && TickUpTo(slots, i + 1, maxRetries) ==
               if t.timedOut || slots[i].None? then t
               else
                 var (p, outcome) := TickPacket(slots[i].value, maxRetries);
                 Tick(t.slots[i := Some(p)],
                      if outcome.Retried? then t.retried + [(p.sequence, p.payload)] else t.retried,
                      outcome.Expired?)
  {
    hide TickPacket;
  }

  ghost function Unacked(slots: Slots, n: nat): set<int> {
    set i | 0 <= i < |slots| && slots[i].Some? :: Lift(n, slots[i].value.sequence)
  }

  /** The entry is one of the last `cap` queued messages, with that message's payload. */
  ghost predicate Genuine(p: Pending, sent: seq<Payload>, cap: nat) {
    var index := Lift(|sent|, p.sequence);
    0 <= index < |sent| && |sent| - index <= cap && p.payload == sent[index]
  }

  ghost predicate DistinctSequences(slots: Slots) {
    forall i, j :: 0 <= i < j < |slots| && slots[i].Some? && slots[j].Some? ==>
      slots[i].value.sequence != slots[j].value.sequence
  }

  /** Every table entry is a distinct message of the last |slots| queued, with its own payload. */
  ghost predicate SenderInv(s: Sender, sent: seq<Payload>) {
    && 1 <= |s.slots| < WINDOW
    && s.next == Wire(|sent|)
    && (forall i :: 0 <= i < |s.slots| && s.slots[i].Some? ==> Genuine(s.slots[i].value, sent, |s.slots|))
    && DistinctSequences(s.slots)
  }

  lemma IndexStable(n: nat, m: nat, q: u16)
    requires n <= m && -WINDOW <= Lift(n, q) - m
    requires Lift(n, q) < n
    ensures Lift(m, q) == Lift(n, q) && Wire(Lift(n, q)) == q
  {
    WireLift(n, q);
    LiftWire(m, Lift(n, q));
  }

  /** The age test of the source measures the distance to the unbounded index. */
  lemma AgeIsDistance(n: nat, q: u16)
    requires 0 < n - Lift(n, q) < WINDOW
    ensures WrappingSub(Wire(n), q) == n - Lift(n, q)
  {
    WireLift(n, q);
    IsNewerIsGreater(n, Lift(n, q));
  }

  /** The pigeonhole principle: distinct numbers of an interval are no more than its length. */
  lemma {:induction false} Pigeonhole(s: set<int>, lo: int, hi: int)
    requires lo <= hi && forall x :: x in s ==> lo <= x < hi
    ensures |s| <= hi - lo
    decreases hi - lo
  {
    if lo < hi {
      var t := s - {hi - 1};
      Pigeonhole(t, lo, hi - 1);
      assert s <= t + {hi - 1};
      assert |s| <= |t| + 1;
    } else {
      assert s == {};
    }
  }

  lemma {:induction false} FullTableSize(slots: Slots, sent: seq<Payload>, k: nat)
    requires DistinctSequences(slots) && k <= |slots|
    requires forall i :: 0 <= i < |slots| ==> slots[i].Some?
    ensures |set i | 0 <= i < k :: Lift(|sent|, slots[i].value.sequence)| == k
    decreases k
  {
    var n := |sent|;
    var s := set i | 0 <= i < k :: Lift(n, slots[i].value.sequence);
    hide Lift, Wire;
    if k == 0 {
      assert s == {};
    } else {
      FullTableSize(slots, sent, k - 1);
      var t := set i | 0 <= i < k - 1 :: Lift(n, slots[i].value.sequence);
      var x := Lift(n, slots[k - 1].value.sequence);
      WireLift(n, slots[k - 1].value.sequence);
      forall i | 0 <= i < k - 1
        ensures Lift(n, slots[i].value.sequence) != x
      {
        WireLift(n, slots[i].value.sequence);
      }
      hide DistinctSequences;
      assert s == t + {x};
    }
  }

  /** Behind an open window the slot search never fails, because ages are distinct. */
  lemma SlotSearchNeverFails(s: Sender, sent: seq<Payload>)
    requires SenderInv(s, sent) && !WindowFull(s.slots, s.next)
    ensures FirstEmpty(s.slots) < |s.slots|
  {
    var n, slots := |sent|, s.slots;
    if FirstEmpty(slots) == |slots| {
      FullTableSize(slots, sent, |slots|);
      var all := set i | 0 <= i < |slots| :: Lift(n, slots[i].value.sequence);
      forall x | x in all
        ensures n - |slots| < x < n
      {
        var i :| 0 <= i < |slots| && x == Lift(n, slots[i].value.sequence);
        AgeIsDistance(n, slots[i].value.sequence);
      }
      Pigeonhole(all, n - |slots| + 1, n);
    }
  }

  lemma WindowFullMeans(s: Sender, sent: seq<Payload>)
    requires SenderInv(s, sent)
    ensures WindowFull(s.slots, s.next) <==> |sent| - |s.slots| in Unacked(s.slots, |sent|)
  {
    var n := |sent|;
    forall i | 0 <= i < |s.slots| && s.slots[i].Some?
      ensures WrappingSub(s.next, s.slots[i].value.sequence) == n - Lift(n, s.slots[i].value.sequence)
      ensures n - Lift(n, s.slots[i].value.sequence) <= |s.slots|
    {
      assert Genuine(s.slots[i].value, sent, |s.slots|);
      AgeIsDistance(n, s.slots[i].value.sequence);
    }
  }

  /** Queueing fails, changing nothing, exactly on an oversized payload or a full window. */
  lemma QueueRefuses(s: Sender, sent: seq<Payload>, data: Payload)
    requires SenderInv(s, sent)
    ensures var (s', r) := Queue(s, data);
            && (r.Ok? <==> |data| <= MAX_PAYLOAD && |sent| - |s.slots| !in Unacked(s.slots, |sent|))
            && (r.Err? ==> s' == s)
            && (r.Err? && |data| <= MAX_PAYLOAD ==> r.error == QueueFull)
  {
    WindowFullMeans(s, sent);
    if !WindowFull(s.slots, s.next) { SlotSearchNeverFails(s, sent); }
  }

  /** An entry inside the window stays genuine, under the same index, when a message is added. */
  lemma GenuineAppend(p: Pending, sent: seq<Payload>, data: Payload, cap: nat)
    requires Genuine(p, sent, cap) && |sent| - Lift(|sent|, p.sequence) < cap < WINDOW
    ensures Genuine(p, sent + [data], cap)
    ensures Lift(|sent| + 1, p.sequence) == Lift(|sent|, p.sequence)
    ensures p.sequence != Wire(|sent|)
  {
    IndexStable(|sent|, |sent| + 1, p.sequence);
    IsNewerIsGreater(|sent|, Lift(|sent|, p.sequence));
  }

  /** What a successful call writes. */
  lemma QueueWrites(s: Sender, data: Payload)
    requires Queue(s, data).1.Ok?
    ensures var (s', r) := Queue(s, data); var k := FirstEmpty(s.slots);
            && !WindowFull(s.slots, s.next) && k < |s.slots| && s.slots[k].None?
            && r.value == s.next && s'.next == WrappingAdd(s.next, 1)
            && s'.slots == s.slots[k := Some(Pending(s.next, data, RETRY_TICKS, 0))]
  {
    hide WindowFull;
  }

  /** The new entry is genuine, under the new index. */
  lemma NewEntry(sent: seq<Payload>, data: Payload, cap: nat)
    requires 1 <= cap
    ensures Genuine(Pending(Wire(|sent|), data, RETRY_TICKS, 0), sent + [data], cap)
    ensures Lift(|sent| + 1, Wire(|sent|)) == |sent| && WrappingAdd(Wire(|sent|), 1) == Wire(|sent| + 1)
  {
    WireNext(|sent|);
    LiftWire(|sent| + 1, |sent|);
  }

  /** Behind an open window every old entry stays genuine, under its index. */
  lemma OldEntry(s: Sender, sent: seq<Payload>, data: Payload, i: nat)
    requires SenderInv(s, sent) && i < |s.slots| && s.slots[i].Some?
    requires |sent| - |s.slots| !in Unacked(s.slots, |sent|)
    ensures Genuine(s.slots[i].value, sent + [data], |s.slots|)
    ensures Lift(|sent| + 1, s.slots[i].value.sequence) == Lift(|sent|, s.slots[i].value.sequence)
    ensures s.slots[i].value.sequence != Wire(|sent|)
  {
    assert Lift(|sent|, s.slots[i].value.sequence) in Unacked(s.slots, |sent|);
    assert Genuine(s.slots[i].value, sent, |s.slots|);
    GenuineAppend(s.slots[i].value, sent, data, |s.slots|);
  }

  /** A table in which one empty slot got a genuine entry of its own sequence. */
  lemma EntryAdded(s: Sender, s': Sender, sent: seq<Payload>, sent': seq<Payload>, k: nat)
    requires SenderInv(s, sent) && k < |s.slots| && s.slots[k].None?
    requires |s'.slots| == |s.slots| && s'.slots[k].Some? && s'.slots == s.slots[k := s'.slots[k]]
    requires s'.next == Wire(|sent'|) && Genuine(s'.slots[k].value, sent', |s.slots|)
    requires forall i :: 0 <= i < |s.slots| && s.slots[i].Some? ==>
               && Genuine(s.slots[i].value, sent', |s.slots|)
               && s.slots[i].value.sequence != s'.slots[k].value.sequence
    ensures SenderInv(s', sent')
  {
    hide Genuine, Wire;
  }

  lemma SenderMeans(s: Sender, sent: seq<Payload>)
    requires SenderInv(s, sent)
    ensures |s.slots| >= 1 && s.next == Wire(|sent|)
  {
    hide Genuine, DistinctSequences, Wire;
  }

  /** Filling an empty slot with message n adds it, and only it, to the pending messages. */
  lemma SlotAdds(slots: Slots, slots': Slots, n: nat, k: nat)
    requires k < |slots| == |slots'| && slots[k].None? && slots'[k].Some? && slots' == slots[k := slots'[k]]
    requires Lift(n + 1, slots'[k].value.sequence) == n
    requires forall i :: 0 <= i < |slots| && slots[i].Some? ==>
               Lift(n + 1, slots[i].value.sequence) == Lift(n, slots[i].value.sequence)
    ensures Unacked(slots', n + 1) == Unacked(slots, n) + {n}
  {
    hide Lift;
    forall x | x in Unacked(slots, n) + {n}
      ensures x in Unacked(slots', n + 1)
    {
      if x == n {
        assert x == Lift(n + 1, slots'[k].value.sequence);
      } else {
        var i :| 0 <= i < |slots| && slots[i].Some? && x == Lift(n, slots[i].value.sequence);
        assert slots'[i] == slots[i];
      }
    }
    forall x | x in Unacked(slots', n + 1)
      ensures x in Unacked(slots, n) + {n}
    {
      var i :| 0 <= i < |slots'| && slots'[i].Some? && x == Lift(n + 1, slots'[i].value.sequence);
      assert i == k || slots[i] == slots'[i];
    }
  }

  /** A successful call numbers the message |sent| and adds it, and only it, to the table. */
  lemma QueueAppends(s: Sender, sent: seq<Payload>, data: Payload)
    requires SenderInv(s, sent) && Queue(s, data).1.Ok?
    ensures var (s', r) := Queue(s, data); var n := |sent|;
            && r.value == Wire(n)
            && SenderInv(s', sent + [data])
            && Unacked(s'.slots, n + 1) == Unacked(s.slots, n) + {n}
  {
    hide *;
    var (s', r) := Queue(s, data);
    var n, k, cap := |sent|, FirstEmpty(s.slots), |s.slots|;
    SenderMeans(s, sent);
    QueueWrites(s, data);
    WindowFullMeans(s, sent);
    NewEntry(sent, data, cap);
    forall i | 0 <= i < cap && s.slots[i].Some?
      ensures Genuine(s.slots[i].value, sent + [data], cap)
      ensures Lift(n + 1, s.slots[i].value.sequence) == Lift(n, s.slots[i].value.sequence)
      ensures s.slots[i].value.sequence != Wire(n)
    {
      OldEntry(s, sent, data, i);
    }
    EntryAdded(s, s', sent, sent + [data], k);
    SlotAdds(s.slots, s'.slots, n, k);
  }

  /** The messages an acknowledgment `(Wire(h), bits)` names. */
  ghost predicate Names(h: int, bits: u32, index: int) {
    index == h || (h - 32 <= index < h && Bit(bits, h - 1 - index))
  }

  lemma ConfirmsMeans(h: int, bits: u32, n: nat, q: u16)
    requires h < n <= h + WINDOW && 0 < n - Lift(n, q) < WINDOW
    ensures Confirms(Wire(h), bits, q) <==> Names(h, bits, Lift(n, q))
  {
    IndexStable(n, n, q);
    IsNewerIsGreater(h, Lift(n, q));
  }

  /** An acknowledgment less than 2^15 stale retires exactly the messages it names. */
  lemma AcknowledgeKeeps(s: Sender, sent: seq<Payload>, h: int, bits: u32)
    requires SenderInv(s, sent) && h < |sent| <= h + WINDOW
    ensures var slots' := Acknowledge(s.slots, Wire(h), bits); var n := |sent|;
            && SenderInv(s.(slots := slots'), sent)
            && (forall x :: x in Unacked(slots', n) <==> x in Unacked(s.slots, n) && !Names(h, bits, x))
  {
    var slots' := Acknowledge(s.slots, Wire(h), bits);
    var n := |sent|;
    forall i | 0 <= i < |s.slots| && s.slots[i].Some?
      ensures slots'[i] == if Names(h, bits, Lift(n, s.slots[i].value.sequence)) then None else s.slots[i]
    {
      assert Genuine(s.slots[i].value, sent, |s.slots|);
      ConfirmsMeans(h, bits, n, s.slots[i].value.sequence);
    }
    assert forall i :: 0 <= i < |slots'| && slots'[i].Some? ==> s.slots[i] == slots'[i];
    assert SenderInv(s.(slots := slots'), sent);
  }

  /** A tick changes only timers: every entry keeps its sequence and payload. */
  lemma {:induction false} TickKeepsEntries(slots: Slots, n: nat, maxRetries: u8)
    requires n <= |slots|
    ensures var t := TickUpTo(slots, n, maxRetries);
            && (forall i :: 0 <= i < |slots| ==>
                  && t.slots[i].Some? == slots[i].Some?
                  && (slots[i].Some? ==> t.slots[i].value.sequence == slots[i].value.sequence
                                         && t.slots[i].value.payload == slots[i].value.payload))
            && (forall j :: 0 <= j < |t.retried| ==>
                  exists i :: 0 <= i < n && slots[i].Some?
                              && t.retried[j] == (slots[i].value.sequence, slots[i].value.payload))
  {
    if n > 0 {
      TickKeepsEntries(slots, n - 1, maxRetries);
    }
  }

  lemma TickKeeps(s: Sender, sent: seq<Payload>, maxRetries: u8)
    requires SenderInv(s, sent)
    ensures var t := TickUpTo(s.slots, |s.slots|, maxRetries);
            && SenderInv(s.(slots := t.slots), sent)
            && Unacked(t.slots, |sent|) == Unacked(s.slots, |sent|)
            && (forall p :: p in t.retried ==>
                  && Lift(|sent|, p.0) in Unacked(s.slots, |sent|)
                  && 0 <= Lift(|sent|, p.0) < |sent| && Wire(Lift(|sent|, p.0)) == p.0
                  && p.1 == sent[Lift(|sent|, p.0)])
  {
    var t := TickUpTo(s.slots, |s.slots|, maxRetries);
    var n := |sent|;
    TickKeepsEntries(s.slots, |s.slots|, maxRetries);
    forall x | x in Unacked(s.slots, n)
      ensures x in Unacked(t.slots, n)
    {
      var i :| 0 <= i < |s.slots| && s.slots[i].Some? && x == Lift(n, s.slots[i].value.sequence);
      assert t.slots[i].Some?;
    }
    forall x | x in Unacked(t.slots, n)
      ensures x in Unacked(s.slots, n)
    {
      var i :| 0 <= i < |t.slots| && t.slots[i].Some? && x == Lift(n, t.slots[i].value.sequence);
      assert s.slots[i].Some?;
    }
    forall p | p in t.retried
      ensures && Lift(n, p.0) in Unacked(s.slots, n)
              && 0 <= Lift(n, p.0) < n && Wire(Lift(n, p.0)) == p.0
              && p.1 == sent[Lift(n, p.0)]
    {
      var j :| 0 <= j < |t.retried| && t.retried[j] == p;
      WireLift(n, p.0);
    }
  }
}
