/**
 The bounded ingress and egress queues. Both keep packets in a ring of slots, make room for a
 newcomer by shifting out the oldest unreliable packet from anywhere in the ring, and differ
 only in which newcomers may cause that. The ring refines a plain sequence; over every run
 the reliable packets pass through exactly once and in order.
 */
module PriorityQueues {
  import opened Bitwise
  import opened Words

  datatype Packet<T> = Packet(payload: T, isReliable: bool, sequence: u16)

  datatype QueueError = QueueFull

  datatype Metrics = Metrics(
    reliableEnqueued: nat,
    unreliableEnqueued: nat,
    ingressStaleDropped: nat,
    egressUnreliableDropped: nat,
    saturationEvents: nat)

  const NO_METRICS := Metrics(0, 0, 0, 0, 0)

  // ----- The queue as a sequence -----

  /** The packets of one kind, in order. */
  function Select<T>(q: seq<Packet<T>>, reliable: bool): (s: seq<Packet<T>>)
    ensures |s| <= |q|
  {
    if q == [] then []
    else if q[0].isReliable == reliable then [q[0]] + Select(q[1..], reliable)
    else Select(q[1..], reliable)
  }

  lemma SelectCons<T>(p: Packet<T>, rest: seq<Packet<T>>, reliable: bool)
    ensures Select([p] + rest, reliable)
            == if p.isReliable == reliable then [p] + Select(rest, reliable) else Select(rest, reliable)
  {
    assert ([p] + rest)[1..] == rest;
  }

  lemma SelectNone<T>(reliable: bool)
    ensures Select<T>([], reliable) == []
  {
  }

  lemma HeadAppend<T>(a: seq<Packet<T>>, b: seq<Packet<T>>)
    requires a != []
    ensures [a[0]] + a[1..] == a && [a[0]] + (a[1..] + b) == a + b
  {
  }

  lemma ConsAppend<T>(p: Packet<T>, a: seq<Packet<T>>, b: seq<Packet<T>>)
    ensures [p] + (a + b) == ([p] + a) + b
  {
  }

  lemma {:induction false} SelectAppend<T>(a: seq<Packet<T>>, b: seq<Packet<T>>, reliable: bool)
    ensures Select(a + b, reliable) == Select(a, reliable) + Select(b, reliable)
  {
    hide *;
    if a == [] {
      SelectNone<T>(reliable);
      assert a + b == b;
      assert [] + Select(b, reliable) == Select(b, reliable);
    } else {
      var p, rest := a[0], a[1..];
      SelectAppend(rest, b, reliable);
      SelectCons(p, rest + b, reliable);
      SelectCons(p, rest, reliable);
      HeadAppend(a, b);
      if p.isReliable == reliable {
        ConsAppend(p, Select(rest, reliable), Select(b, reliable));
      }
    }
  }

  lemma {:induction false} SelectCounts<T>(q: seq<Packet<T>>)
    ensures |Select(q, true)| + |Select(q, false)| == |q|
    ensures |Select(q, false)| == 0 <==> forall i :: 0 <= i < |q| ==> q[i].isReliable
  {
    if q != [] {
      SelectCounts(q[1..]);
      assert forall i :: 0 <= i < |q| - 1 ==> q[1..][i] == q[i + 1];
      assert (forall i :: 0 <= i < |q| ==> q[i].isReliable)
             <==> q[0].isReliable && forall i :: 0 <= i < |q| - 1 ==> q[1..][i].isReliable by {
        forall i | 0 < i < |q|
          ensures q[i] == q[1..][i - 1]
        {
        }
      }
    }
  }

  /** The position of the oldest unreliable packet. */
  function OldestUnreliable<T>(q: seq<Packet<T>>): (i: nat)
    ensures i <= |q| && (i < |q| ==> !q[i].isReliable)
    ensures forall j :: 0 <= j < i ==> q[j].isReliable
    ensures i == |q| <==> Select(q, false) == []
  {
    if q == [] then 0 else if !q[0].isReliable then 0 else 1 + OldestUnreliable(q[1..])
  }

  /** The queue without its oldest unreliable packet. */
  function Evicted<T>(q: seq<Packet<T>>): (r: seq<Packet<T>>)
    requires Select(q, false) != []
    ensures |r| == |q| - 1
  {
    var i := OldestUnreliable(q);
    q[..i] + q[i + 1..]
  }

  lemma {:induction false} AllReliable<T>(q: seq<Packet<T>>)
    requires forall i :: 0 <= i < |q| ==> q[i].isReliable
    ensures Select(q, true) == q && Select(q, false) == []
  {
    if q != [] { AllReliable(q[1..]); }
  }

  /** Eviction leaves the reliable packets alone and takes the first of the others. */
  lemma EvictedSelects<T>(q: seq<Packet<T>>)
    requires Select(q, false) != []
    ensures Select(Evicted(q), true) == Select(q, true)
    ensures Select(Evicted(q), false) == Select(q, false)[1..]
  {
    var i := OldestUnreliable(q);
    var a, p, b := q[..i], q[i], q[i + 1..];
    assert q == (a + [p]) + b;
    AllReliable(a);
    assert Select([p], true) == [] && Select([p], false) == [p];
    forall k: bool
      ensures Select(q, k) == (Select(a, k) + Select([p], k)) + Select(b, k)
      ensures Select(Evicted(q), k) == Select(a, k) + Select(b, k)
    {
      SelectAppend(a + [p], b, k);
      SelectAppend(a, [p], k);
      SelectAppend(a, b, k);
    }
  }

  function UtilizationPct(len: nat, cap: nat): nat {
    if cap == 0 then 100 else len * 100 / cap
  }

  /** What a push leaves: the queue, the metrics, and whether the packet was taken. */
  datatype Pushed<T> = Pushed(q: seq<Packet<T>>, metrics: Metrics, taken: bool)

  function Enqueued<T>(q: seq<Packet<T>>, m: Metrics, p: Packet<T>): Pushed<T> {
    Pushed(q + [p],
           if p.isReliable then m.(reliableEnqueued := m.reliableEnqueued + 1)
           else m.(unreliableEnqueued := m.unreliableEnqueued + 1),
           true)
  }

  function IngressPush<T>(q: seq<Packet<T>>, cap: nat, m: Metrics, p: Packet<T>): Pushed<T> {
    if p.isReliable then
      if |q| < cap then Enqueued(q, m, p)
      else if Select(q, false) != [] then Enqueued(Evicted(q), m.(ingressStaleDropped := m.ingressStaleDropped + 1), p)
      else Pushed(q, m.(saturationEvents := m.saturationEvents + 1), false)
    else if |q| >= cap || UtilizationPct(|q|, cap) >= 95 then
      Pushed(q, m.(ingressStaleDropped := m.ingressStaleDropped + 1, saturationEvents := m.saturationEvents + 1), false)
    else Enqueued(q, m, p)
  }

  function EgressPush<T>(q: seq<Packet<T>>, cap: nat, m: Metrics, p: Packet<T>): Pushed<T> {
    if |q| < cap then Enqueued(q, m, p)
    else if Select(q, false) != [] then
      Enqueued(Evicted(q), m.(egressUnreliableDropped := m.egressUnreliableDropped + 1), p)
    else Pushed(q, m.(saturationEvents := m.saturationEvents + 1), false)
  }

  // ----- The ring -----

  /** Slot of the i-th packet behind the head. */
  function SlotOf(head: nat, i: nat, cap: nat): (s: nat)
    requires head < cap && i < cap
    ensures s < cap
  {
    if head + i < cap then head + i else head + i - cap
  }

  lemma SlotIsMod(head: nat, i: nat, cap: nat)
    requires head < cap && i < cap
    ensures (head + i) % cap == SlotOf(head, i, cap)
  {
    if head + i < cap { SmallMod(head + i, cap, 0); } else { SmallMod(head + i, cap, 1); }
  }

  lemma SmallMod(x: nat, m: nat, q: nat)
    requires 0 <= x - q * m < m && q < 2
    ensures x % m == x - q * m
  {
    if q == 1 { assert x == m + (x - m); }
  }

  lemma NextSlot(head: nat, i: nat, cap: nat)
    requires head < cap && i < cap
    ensures (SlotOf(head, i, cap) + 1) % cap == if i + 1 < cap then SlotOf(head, i + 1, cap) else head
  {
    var s := SlotOf(head, i, cap);
    if s + 1 < cap { SmallMod(s + 1, cap, 0); } else { SmallMod(s + 1, cap, 1); }
  }

  /** The slots in order from the head. */
  ghost function InOrder<S>(a: seq<S>, head: nat): (r: seq<S>)
    requires head < |a|
    ensures |r| == |a|
  {
    seq(|a|, k requires 0 <= k < |a| => a[SlotOf(head, k, |a|)])
  }

  lemma WrittenInOrder<S>(a: seq<S>, head: nat, i: nat, v: S)
    requires head < |a| && i < |a|
    ensures InOrder(a[SlotOf(head, i, |a|) := v], head) == InOrder(a, head)[i := v]
  {
  }

  /** What slot k holds when the packets behind i have moved forward as far as `at`. */
  ghost function Shifted<T>(q: seq<Packet<T>>, i: nat, at: nat, k: nat): Option<Packet<T>>
    requires i <= at < |q|
  {
    if k < i then Some(q[k]) else if k < at then Some(q[k + 1]) else if k < |q| then Some(q[k]) else None
  }

  /** The packets of a queue at the head of a ring of n slots. */
  ghost function Padded<T>(q: seq<Packet<T>>, n: nat): (order: seq<Option<Packet<T>>>)
    requires |q| <= n
    ensures |order| == n
  {
    seq(n, k requires 0 <= k < n => if k < |q| then Some(q[k]) else None)
  }

  /** Packets behind i have moved forward as far as `at`; slot `at` is free to be written. */
  ghost predicate Gap<T>(order: seq<Option<Packet<T>>>, q: seq<Packet<T>>, i: nat, at: nat) {
    && i <= at < |q| <= |order|
    && forall k: nat :: k < |order| && k != at ==> order[k] == Shifted(q, i, at, k)
  }

  lemma GapMoves<T>(order: seq<Option<Packet<T>>>, q: seq<Packet<T>>, i: nat, at: nat)
    requires Gap(order, q, i, at) && at + 1 < |q|
    ensures Gap(order[at + 1 := None][at := order[at + 1]], q, i, at + 1)
  {
  }

  lemma GapCloses<T>(order: seq<Option<Packet<T>>>, q: seq<Packet<T>>, i: nat)
    requires |q| > 0 && Gap(order, q, i, |q| - 1)
    ensures order[|q| - 1 := None] == Padded(q[..i] + q[i + 1..], |order|)
  {
  }

  lemma OrderAt<S>(a: seq<S>, head: nat, i: nat)
    requires head < |a| && i < |a|
    ensures InOrder(a, head)[i] == a[SlotOf(head, i, |a|)]
  {
  }

  /** The shift stops only at the last packet. */
  lemma ShiftGoesOn(head: nat, at: nat, last: nat, cap: nat)
    requires head < cap && at <= last < cap
    ensures SlotOf(head, at, cap) != SlotOf(head, last, cap) <==> at < last
  {
  }

  /** Moves every packet behind `curr` one slot forward, up to the slot `last`. */
  method CloseGap<T>(slots: array<Option<Packet<T>>>, head: nat, start: nat, last: nat,
                     ghost q: seq<Packet<T>>, ghost i: nat)
    requires i < |q| <= slots.Length && head < slots.Length
    requires start == SlotOf(head, i, slots.Length) && last == SlotOf(head, |q| - 1, slots.Length)
    requires Gap(InOrder(slots[..], head), q, i, i)
    modifies slots
    ensures Gap(InOrder(slots[..], head), q, i, |q| - 1)
  {
    hide SlotOf, Gap, InOrder;
    var curr := start;
    ghost var at: nat := i;
    ShiftGoesOn(head, at, |q| - 1, slots.Length);
    while curr != last
      invariant i <= at < |q| && curr == SlotOf(head, at, slots.Length)
      invariant at == |q| - 1 <==> curr == last
      invariant Gap(InOrder(slots[..], head), q, i, at)
      decreases |q| - at
    {
      NextSlot(head, at, slots.Length);
      var next := (curr + 1) % slots.Length;
      var nextVal := slots[next];
      ghost var a := slots[..];
      slots[next] := None;
      slots[curr] := nextVal;
      assert slots[..] == a[next := None][curr := nextVal];
      WrittenInOrder(a, head, at + 1, None);
      WrittenInOrder(a[next := None], head, at, nextVal);
      OrderAt(a, head, at + 1);
      GapMoves(InOrder(a, head), q, i, at);
      curr := next;
      at := at + 1;
      ShiftGoesOn(head, at, |q| - 1, slots.Length);
    }
  }

  class BoundedQueue<T> {
    const slots: array<Option<Packet<T>>>
    var head: nat
    var tail: nat
    var len: nat
    var reliableCount: nat
    var unreliableCount: nat
    var metrics: Metrics

    /** The ring's shape: `len` filled slots from `head`, the rest empty. */
    ghost predicate Ring()
      reads `head, `tail, `len, slots
      ensures Ring() ==> len <= slots.Length
    {
      && len <= slots.Length
      && (slots.Length == 0 ==> head == 0 && tail == 0)
      && (slots.Length > 0 ==>
            && head < slots.Length
            && tail == (if len == slots.Length then head else SlotOf(head, len, slots.Length)))
      && forall i :: 0 <= i < slots.Length ==> (slots[SlotOf(head, i, slots.Length)].Some? <==> i < len)
    }

    ghost function Contents(): (q: seq<Packet<T>>)
      reads `head, `tail, `len, slots
      requires Ring()
      ensures |q| == len
    {
      var a, h, n := slots, head, len;
      seq(n, i requires 0 <= i < n && h < a.Length && n <= a.Length && a[SlotOf(h, i, a.Length)].Some? reads a =>
        a[SlotOf(h, i, a.Length)].value)
    }

    ghost predicate Valid()
      reads `head, `tail, `len, `reliableCount, `unreliableCount, slots
    {
      && Ring()
      && reliableCount == |Select(Contents(), true)|
      && unreliableCount == |Select(Contents(), false)|
    }

    constructor (capacity: nat)
      ensures Valid() && fresh(slots) && slots.Length == capacity
      ensures Contents() == [] && metrics == NO_METRICS
    {
      slots := new Option<Packet<T>>[capacity](_ => None);
      head, tail, len, reliableCount, unreliableCount := 0, 0, 0, 0, 0;
      metrics := NO_METRICS;
    }

    predicate IsFull()
      reads this
    {
      len == slots.Length
    }

    /** Removes the packet at the head. */
    method Pop() returns (r: Option<Packet<T>>)
      requires Valid()
      modifies this`head, this`len, this`reliableCount, this`unreliableCount, slots
      ensures Valid()
      ensures old(Contents()) == [] ==> r == None && Contents() == []
      ensures old(Contents()) != [] ==> r == Some(old(Contents())[0]) && Contents() == old(Contents())[1..]
    {
      if len == 0 {
        return None;
      }
      ghost var q := Contents();
      assert SlotOf(head, 0, slots.Length) == head;
      r := slots[head];
      assert r == Some(q[0]);
      slots[head] := None;
      head := (head + 1) % slots.Length;
      len := len - 1;
      if r.value.isReliable {
        reliableCount := Max(reliableCount - 1, 0);
      } else {
        unreliableCount := Max(unreliableCount - 1, 0);
      }
      PoppedRing(q, old(head));
    }

    /** Moving the head one slot on drops the first packet and nothing else. */
    lemma PoppedRing(q: seq<Packet<T>>, was: nat)
      requires 0 < |q| == len + 1 <= slots.Length && was < slots.Length && head == (was + 1) % slots.Length
      requires tail == (if |q| == slots.Length then was else SlotOf(was, |q|, slots.Length))
      requires forall i :: 0 <= i < slots.Length ==>
                 slots[SlotOf(was, i, slots.Length)] == if 0 < i < |q| then Some(q[i]) else None
      ensures Ring() && Contents() == q[1..]
    {
      var cap := slots.Length;
      NextSlot(was, 0, cap);
      forall i | 0 <= i < cap
        ensures SlotOf(head, i, cap) == if i + 1 < cap then SlotOf(was, i + 1, cap) else SlotOf(was, 0, cap)
      {
      }
    }

    /** Fills the slot at the tail; the caller counts the packet. */
    method EnqueueTail(p: Packet<T>)
      requires Ring() && len < slots.Length
      modifies this`tail, this`len, slots
      ensures Ring() && Contents() == old(Contents()) + [p] && len == old(len) + 1
    {
      ghost var q := Contents();
      NextSlot(head, len, slots.Length);
      slots[tail] := Some(p);
      tail := (tail + 1) % slots.Length;
      len := len + 1;
      assert forall i :: 0 <= i < slots.Length ==>
          slots[SlotOf(head, i, slots.Length)] == if i < |q| then Some(q[i]) else if i == |q| then Some(p) else None;
    }

    /** How far behind the head the oldest unreliable packet is, if there is one. */
    method FindOldestUnreliable() returns (r: Option<nat>)
      requires Ring()
      ensures var i := OldestUnreliable(Contents()); r == if i < len then Some(i) else None
    {
      ghost var q := Contents();
      for i := 0 to len
        invariant i <= OldestUnreliable(q)
      {
        SlotIsMod(head, i, slots.Length);
        assert slots[SlotOf(head, i, slots.Length)] == Some(q[i]);
        if !slots[(head + i) % slots.Length].value.isReliable {
          return Some(i);
        }
      }
      r := None;
    }

    /** Shifts the packets behind the i-th one slot forward over it and drops the last slot. */
    method ShiftOut(i: nat)
      requires Ring() && i < len
      modifies this`tail, this`len, slots
      ensures Ring() && len == old(len) - 1
      ensures Contents() == old(Contents()[..i] + Contents()[i + 1..])
    {
      ghost var q := Contents();
      var cap := slots.Length;
      SlotIsMod(head, i, cap);
      var curr := (head + i) % cap;
      var last := if tail > 0 then tail - 1 else cap - 1;
      LastSlot();
      RingGap(i);
      CloseGap(slots, head, curr, last, q, i);
      hide SlotOf, Gap, InOrder;
      ghost var a := slots[..];
      tail := last;
      slots[tail] := None;
      len := len - 1;
      assert slots[..] == a[last := None];
      WrittenInOrder(a, head, len, None);
      GapCloses(InOrder(a, head), q, i);
      FromOrder(q[..i] + q[i + 1..]);
    }

    lemma RingGap(i: nat)
      requires Ring() && i < len
      ensures Gap(InOrder(slots[..], head), Contents(), i, i)
    {
    }

    /** The ring in order from the head determines the contents. */
    lemma FromOrder(q: seq<Packet<T>>)
      requires len < slots.Length && |q| == len && head < slots.Length && tail == SlotOf(head, len, slots.Length)
      requires InOrder(slots[..], head) == Padded(q, slots.Length)
      ensures Ring() && Contents() == q
    {
      hide SlotOf;
      forall k | 0 <= k < slots.Length
        ensures slots[SlotOf(head, k, slots.Length)] == if k < len then Some(q[k]) else None
      {
        assert InOrder(slots[..], head)[k] == slots[SlotOf(head, k, slots.Length)];
      }
    }

    /** The egress eviction: shifts out the oldest unreliable packet, wherever it stands, if there is one. */
    method EvictOldestUnreliable()
      requires Valid()
      modifies this`tail, this`len, this`unreliableCount, slots
      ensures Valid()
      ensures Contents() == if Select(old(Contents()), false) == [] then old(Contents()) else Evicted(old(Contents()))
    {
      hide Select, SlotOf;
      ghost var q := Contents();
      if unreliableCount == 0 || len == 0 {
        return;
      }
      var target := FindOldestUnreliable();
      if target.Some? {
        ShiftOut(target.value);
        unreliableCount := Max(unreliableCount - 1, 0);
        assert Contents() == Evicted(q);
        EvictedSelects(q);
      }
    }

    /** The ingress eviction also counts the packet it drops. */
    method EvictStaleIngress()
      requires Valid()
      modifies this`tail, this`len, this`unreliableCount, this`metrics, slots
      ensures Valid()
      ensures Contents() == if Select(old(Contents()), false) == [] then old(Contents()) else Evicted(old(Contents()))
      ensures metrics == if Select(old(Contents()), false) == [] then old(metrics)
                         else old(metrics).(ingressStaleDropped := old(metrics).ingressStaleDropped + 1)
    {
      hide Select, SlotOf, Ring, Contents, Evicted;
      var before := len;
      EvictOldestUnreliable();
      if len < before {
        metrics := metrics.(ingressStaleDropped := metrics.ingressStaleDropped + 1);
      }
    }

    lemma LastSlot()
      requires Ring() && len > 0
      ensures SlotOf(head, len - 1, slots.Length) == if tail > 0 then tail - 1 else slots.Length - 1
    {
    }

    /** Counts a packet that now stands at the tail. */
    lemma Counted(q: seq<Packet<T>>, p: Packet<T>)
      requires Ring() && Contents() == q + [p]
      requires reliableCount == |Select(q, true)| + (if p.isReliable then 1 else 0)
      requires unreliableCount == |Select(q, false)| + (if p.isReliable then 0 else 1)
      ensures Valid()
    {
      SelectAppend(q, [p], true);
      SelectAppend(q, [p], false);
      SelectCons(p, [], true);
      SelectCons(p, [], false);
      assert [p] + [] == [p];
    }

    method PushIngress(payload: T, isReliable: bool, sequence: u16) returns (r: Result<(), QueueError>)
      requires Valid()
      modifies this, slots
      ensures Valid()
      ensures var after := IngressPush(old(Contents()), slots.Length, old(metrics),
                                       Packet(payload, isReliable, sequence));
              && Contents() == after.q && metrics == after.metrics
              && r == if after.taken then Ok(()) else Err(QueueFull)
    {
      hide Select, SlotOf, Ring, Evicted, UtilizationPct;
      var packet := Packet(payload, isReliable, sequence);
      ghost var q := Contents();
      if isReliable {
        if IsFull() {
          if unreliableCount > 0 {
            EvictStaleIngress();
          } else {
            metrics := metrics.(saturationEvents := metrics.saturationEvents + 1);
            return Err(QueueFull);
          }
        }
        q := Contents();
        EnqueueTail(packet);
        reliableCount := reliableCount + 1;
        metrics := metrics.(reliableEnqueued := metrics.reliableEnqueued + 1);
      } else {
        if IsFull() || UtilizationPct(len, slots.Length) >= 95 {
          metrics := metrics.(ingressStaleDropped := metrics.ingressStaleDropped + 1,
                              saturationEvents := metrics.saturationEvents + 1);
          return Err(QueueFull);
        }
        EnqueueTail(packet);
        unreliableCount := unreliableCount + 1;
        metrics := metrics.(unreliableEnqueued := metrics.unreliableEnqueued + 1);
      }
      Counted(q, packet);
      r := Ok(());
    }

    method PushEgress(payload: T, isReliable: bool, sequence: u16) returns (r: Result<(), QueueError>)
      requires Valid()
      modifies this, slots
      ensures Valid()
      ensures var after := EgressPush(old(Contents()), slots.Length, old(metrics),
                                      Packet(payload, isReliable, sequence));
              && Contents() == after.q && metrics == after.metrics
              && r == if after.taken then Ok(()) else Err(QueueFull)
    {
      hide Select, SlotOf, Ring, Evicted;
      var packet := Packet(payload, isReliable, sequence);
      if IsFull() {
        if unreliableCount > 0 {
          EvictOldestUnreliable();
          metrics := metrics.(egressUnreliableDropped := metrics.egressUnreliableDropped + 1);
        } else {
          metrics := metrics.(saturationEvents := metrics.saturationEvents + 1);
          return Err(QueueFull);
        }
      }
      ghost var q := Contents();
      EnqueueTail(packet);
      if isReliable {
        reliableCount := reliableCount + 1;
        metrics := metrics.(reliableEnqueued := metrics.reliableEnqueued + 1);
      } else {
        unreliableCount := unreliableCount + 1;
        metrics := metrics.(unreliableEnqueued := metrics.unreliableEnqueued + 1);
      }
      Counted(q, packet);
      r := Ok(());
    }

    /** Pops as many packets as there are and fit, in order, into the front of `dest`. */
    method DrainInto(dest: array<Option<Packet<T>>>) returns (count: nat)
      requires Valid() && dest != slots
      modifies this`head, this`len, this`reliableCount, this`unreliableCount, slots, dest
      ensures Valid() && count == Min(dest.Length, old(len))
      ensures Contents() == old(Contents())[count..]
      ensures dest[..] == Drained(old(Contents()), old(dest[..]), count)
    {
      hide Select, SlotOf, Ring, Contents, Drained;
      ghost var q, was := Contents(), dest[..];
      count := Min(dest.Length, len);
      DrainedNone(q, was);
      for i := 0 to count
        invariant Valid() && Contents() == q[i..]
        invariant dest[..] == Drained(q, was, i)
      {
        DrainedNext(q, was, i);
        ghost var before := dest[..];
        dest[i] := Pop();
        assert dest[..] == before[i := Some(q[i])];
      }
    }
  }

  /** A destination whose first n slots have been filled from the front of q. */
  ghost function Drained<T>(q: seq<Packet<T>>, dest: seq<Option<Packet<T>>>, n: nat): seq<Option<Packet<T>>>
    requires n <= |q| && n <= |dest|
  {
    seq(n, k requires 0 <= k < n => Some(q[k])) + dest[n..]
  }

  lemma DrainedNone<T>(q: seq<Packet<T>>, dest: seq<Option<Packet<T>>>)
    ensures Drained(q, dest, 0) == dest && q[0..] == q
  {
  }

  lemma DrainedNext<T>(q: seq<Packet<T>>, dest: seq<Option<Packet<T>>>, i: nat)
    requires i < |q| && i < |dest|
    ensures |Drained(q, dest, i)| == |dest|
    ensures Drained(q, dest, i + 1) == Drained(q, dest, i)[i := Some(q[i])]
    ensures q[i..] != [] && q[i..][0] == q[i] && q[i..][1..] == q[i + 1..]
  {
  }

  // ----- Refusals -----

  /** A packet is refused exactly in these cases; a reliable one only by a queue full of reliable packets. */
  lemma RefusedExactly<T>(q: seq<Packet<T>>, cap: nat, m: Metrics, p: Packet<T>)
    requires |q| <= cap
    ensures var full := |q| == cap && forall i :: 0 <= i < |q| ==> q[i].isReliable;
            && (!EgressPush(q, cap, m, p).taken <==> full)
            && (!IngressPush(q, cap, m, p).taken <==> if p.isReliable then full else 100 * |q| >= 95 * cap)
    ensures !EgressPush(q, cap, m, p).taken ==> EgressPush(q, cap, m, p).q == q
    ensures !IngressPush(q, cap, m, p).taken ==> IngressPush(q, cap, m, p).q == q
  {
    SelectCounts(q);
    hide Select;
    UtilizationExactly(|q|, cap);
  }

  lemma UtilizationExactly(len: nat, cap: nat)
    requires len <= cap
    ensures len >= cap || UtilizationPct(len, cap) >= 95 <==> 100 * len >= 95 * cap
  {
    if cap > 0 { FloorReaches(len * 100, cap, 95); }
  }

  lemma FloorReaches(x: nat, m: nat, k: nat)
    requires m > 0
    ensures x / m >= k <==> x >= m * k
  {
    var q: int := x / m;
    assert x == m * q + x % m;
    if q < k {
      MulStep(m, q, k);
    } else if k < q {
      MulStep(m, k, q);
    }
  }

  // ----- Runs -----

  datatype Kind = Ingress | Egress

  datatype Op<T> = Push(packet: Packet<T>) | Pop

  /** A queue with its history: the packets taken in and refused, those popped, and how many were evicted. */
  datatype Run<T> = Run(q: seq<Packet<T>>, metrics: Metrics, accepted: seq<Packet<T>>,
                        refused: seq<Packet<T>>, popped: seq<Packet<T>>, evicted: nat)

  function NewRun<T>(): Run<T> { Run([], NO_METRICS, [], [], [], 0) }

  function PushOf<T>(kind: Kind, q: seq<Packet<T>>, cap: nat, m: Metrics, p: Packet<T>): Pushed<T> {
    match kind
    case Ingress => IngressPush(q, cap, m, p)
    case Egress => EgressPush(q, cap, m, p)
  }

  function Step<T>(kind: Kind, cap: nat, s: Run<T>, op: Op<T>): Run<T> {
    match op
    case Push(p) =>
      var after := PushOf(kind, s.q, cap, s.metrics, p);
      if !after.taken then s.(metrics := after.metrics, refused := s.refused + [p])
      else Run(after.q, after.metrics, s.accepted + [p], s.refused, s.popped,
               if |after.q| == |s.q| then s.evicted + 1 else s.evicted)
    case Pop =>
      if s.q == [] then s else s.(q := s.q[1..], popped := s.popped + [s.q[0]])
  }

  function After<T>(kind: Kind, cap: nat, s: Run<T>, ops: seq<Op<T>>): Run<T>
    decreases |ops|
  {
    if ops == [] then s else After(kind, cap, Step(kind, cap, s, ops[0]), ops[1..])
  }

  /** `a` is `b` with some packets left out. */
  ghost predicate Subsequence<T>(a: seq<T>, b: seq<T>) {
    if b == [] then a == []
    else
      || (a != [] && a[|a| - 1] == b[|b| - 1] && Subsequence(a[..|a| - 1], b[..|b| - 1]))
      || Subsequence(a, b[..|b| - 1])
  }

  lemma SubsequenceBoth<T>(a: seq<T>, b: seq<T>, x: T)
    requires Subsequence(a, b)
    ensures Subsequence(a + [x], b + [x])
  {
    assert (a + [x])[..|a|] == a && (b + [x])[..|b|] == b;
  }

  lemma {:induction false} SubsequenceWithout<T>(a: seq<T>, b: seq<T>, i: nat)
    requires Subsequence(a, b) && i < |a|
    ensures Subsequence(a[..i] + a[i + 1..], b)
  {
    if b != [] {
      var m, n := |a| - 1, |b| - 1;
      if a[m] == b[n] && Subsequence(a[..m], b[..n]) {
        if i == m {
          assert a[..i] + a[i + 1..] == a[..m];
        } else {
          SubsequenceWithout(a[..m], b[..n], i);
          assert (a[..i] + a[i + 1..])[..m - 1] == a[..m][..i] + a[..m][i + 1..];
        }
      } else {
        SubsequenceWithout(a, b[..n], i);
      }
    }
  }

  ghost predicate IsSuffix<T>(a: seq<T>, b: seq<T>) {
    |a| <= |b| && b[|b| - |a|..] == a
  }

  /** Reliable packets exactly once and in order; the unreliable ones waiting are the newest; no reordering. */
  ghost predicate Flow<T>(accepted: seq<Packet<T>>, popped: seq<Packet<T>>, q: seq<Packet<T>>) {
    && Select(accepted, true) == Select(popped, true) + Select(q, true)
    && IsSuffix(Select(q, false), Select(accepted, false))
    && Subsequence(popped + q, accepted)
  }

  /** The flow, and a full account of it in the counters. */
  ghost predicate Inv<T>(kind: Kind, cap: nat, s: Run<T>) {
    && |s.q| <= cap
    && Flow(s.accepted, s.popped, s.q)
    && |s.accepted| == |s.popped| + |s.q| + s.evicted
    && s.metrics.reliableEnqueued == |Select(s.accepted, true)|
    && s.metrics.unreliableEnqueued == |Select(s.accepted, false)|
    && s.metrics.saturationEvents == |s.refused|
    && (kind == Egress ==> s.metrics.egressUnreliableDropped == s.evicted && s.metrics.ingressStaleDropped == 0)
    && (kind == Ingress ==> && s.metrics.egressUnreliableDropped == 0
                            && s.metrics.ingressStaleDropped == s.evicted + |Select(s.refused, false)|)
  }

  lemma SelectOne<T>(q: seq<Packet<T>>, p: Packet<T>, k: bool)
    ensures Select(q + [p], k) == if p.isReliable == k then Select(q, k) + [p] else Select(q, k)
  {
    SelectAppend(q, [p], k);
    assert [p] + [] == [p];
    SelectCons(p, [], k);
  }

  lemma SuffixTail<T>(a: seq<T>, b: seq<T>)
    requires a != [] && IsSuffix(a, b)
    ensures IsSuffix(a[1..], b)
  {
    assert b[|b| - |a|..][1..] == b[|b| - |a| + 1..];
  }

  lemma SuffixBoth<T>(a: seq<T>, b: seq<T>, x: T)
    requires IsSuffix(a, b)
    ensures IsSuffix(a + [x], b + [x])
  {
    assert (b + [x])[|b| - |a|..] == b[|b| - |a|..] + [x];
  }

  lemma FlowEvict<T>(accepted: seq<Packet<T>>, popped: seq<Packet<T>>, q: seq<Packet<T>>)
    requires Flow(accepted, popped, q) && Select(q, false) != []
    ensures Flow(accepted, popped, Evicted(q))
  {
    hide Select, Subsequence, IsSuffix;
    EvictedSelects(q);
    SuffixTail(Select(q, false), Select(accepted, false));
    var i, n := OldestUnreliable(q), |popped|;
    SubsequenceWithout(popped + q, accepted, n + i);
    assert (popped + q)[..n + i] + (popped + q)[n + i + 1..] == popped + Evicted(q);
  }

  lemma FlowExtend<T>(accepted: seq<Packet<T>>, popped: seq<Packet<T>>, q: seq<Packet<T>>, p: Packet<T>)
    requires Flow(accepted, popped, q)
    ensures Flow(accepted + [p], popped, q + [p])
  {
    hide Select, Subsequence, IsSuffix;
    SelectOne(q, p, true);
    SelectOne(q, p, false);
    SelectOne(accepted, p, true);
    SelectOne(accepted, p, false);
    SubsequenceBoth(popped + q, accepted, p);
    assert popped + (q + [p]) == (popped + q) + [p];
    if p.isReliable {
      assert Select(popped, true) + (Select(q, true) + [p]) == (Select(popped, true) + Select(q, true)) + [p];
    } else {
      SuffixBoth(Select(q, false), Select(accepted, false), p);
    }
  }

  lemma Associative<T>(a: seq<T>, b: seq<T>, c: seq<T>)
    ensures (a + b) + c == a + (b + c)
  {
  }

  lemma FlowPop<T>(accepted: seq<Packet<T>>, popped: seq<Packet<T>>, p: Packet<T>, rest: seq<Packet<T>>)
    requires Flow(accepted, popped, [p] + rest)
    ensures Flow(accepted, popped + [p], rest)
  {
    hide Select, Subsequence, IsSuffix;
    SelectCons(p, rest, true);
    SelectCons(p, rest, false);
    SelectOne(popped, p, true);
    Associative(popped, [p], rest);
    if p.isReliable {
      Associative(Select(popped, true), [p], Select(rest, true));
    } else {
      SuffixTail([p] + Select(rest, false), Select(accepted, false));
      assert ([p] + Select(rest, false))[1..] == Select(rest, false);
    }
  }

  lemma PopKeeps<T>(kind: Kind, cap: nat, s: Run<T>)
    requires Inv(kind, cap, s)
    ensures Inv(kind, cap, Step(kind, cap, s, Pop))
  {
    hide Select, Flow;
    if s.q != [] {
      assert s.q == [s.q[0]] + s.q[1..];
      FlowPop(s.accepted, s.popped, s.q[0], s.q[1..]);
    }
  }

  lemma PushKeeps<T>(kind: Kind, cap: nat, s: Run<T>, p: Packet<T>)
    requires Inv(kind, cap, s)
    ensures Inv(kind, cap, Step(kind, cap, s, Push(p)))
  {
    hide Select, Flow, Evicted, UtilizationPct;
    if PushOf(kind, s.q, cap, s.metrics, p).taken {
      var q := if |s.q| < cap then s.q else Evicted(s.q);
      if |s.q| >= cap { FlowEvict(s.accepted, s.popped, s.q); }
      FlowExtend(s.accepted, s.popped, q, p);
      SelectOne(s.accepted, p, true);
      SelectOne(s.accepted, p, false);
    } else {
      SelectOne(s.refused, p, false);
    }
  }

  lemma {:induction false} EveryRunKeeps<T>(kind: Kind, cap: nat, s: Run<T>, ops: seq<Op<T>>)
    requires Inv(kind, cap, s)
    ensures Inv(kind, cap, After(kind, cap, s, ops))
    decreases |ops|
  {
    hide Inv;
    if ops != [] {
      match ops[0] {
        case Push(p) => PushKeeps(kind, cap, s, p);
        case Pop => PopKeeps(kind, cap, s);
      }
      EveryRunKeeps(kind, cap, Step(kind, cap, s, ops[0]), ops[1..]);
    }
  }

  /** Over every run: reliable packets exactly once and in order, unreliable ones a fresh suffix, and full accounts. */
  lemma EveryRunIsSound<T>(kind: Kind, cap: nat, ops: seq<Op<T>>)
    ensures Inv(kind, cap, After(kind, cap, NewRun(), ops))
  {
    EveryRunKeeps(kind, cap, NewRun(), ops);
  }

  // ----- Evictions -----

  /** The counters after a push: what was taken in, the two kinds of drop, and whether it found the queue saturated. */
  ghost predicate Counted<T>(m: Metrics, p: Packet<T>, taken: bool, stale: nat, dropped: nat, saturated: nat,
                             n: Metrics)
  {
    && n.reliableEnqueued == m.reliableEnqueued + (if taken && p.isReliable then 1 else 0)
    && n.unreliableEnqueued == m.unreliableEnqueued + (if taken && !p.isReliable then 1 else 0)
    && n.ingressStaleDropped == m.ingressStaleDropped + stale
    && n.egressUnreliableDropped == m.egressUnreliableDropped + dropped
    && n.saturationEvents == m.saturationEvents + saturated
  }

  /** The oldest unreliable packet of the queue stands at i. */
  ghost predicate OldestAt<T>(q: seq<Packet<T>>, i: int) {
    && 0 <= i < |q|
    && !q[i].isReliable
    && forall j :: 0 <= j < i ==> q[j].isReliable
  }

  /**
   A packet that is taken joins the tail. A queue with room gives nothing up for it; only a full
   one does, and then exactly its oldest unreliable packet, counted as a drop of its kind.
   */
  lemma PushExactly<T>(kind: Kind, q: seq<Packet<T>>, cap: nat, m: Metrics, p: Packet<T>)
    requires |q| <= cap
    ensures var t := PushOf(kind, q, cap, m, p);
            && (t.taken && |q| < cap ==> t.q == q + [p] && Counted(m, p, true, 0, 0, 0, t.metrics))
            && (t.taken && |q| == cap ==>
                  && (exists i :: 0 <= i < |q| && OldestAt(q, i) && t.q == q[..i] + q[i + 1..] + [p])
                  && (kind == Ingress ==> p.isReliable && Counted(m, p, true, 1, 0, 0, t.metrics))
                  && (kind == Egress ==> Counted(m, p, true, 0, 1, 0, t.metrics)))
            && (!t.taken ==>
                  && t.q == q
                  && Counted(m, p, false, if kind == Ingress && !p.isReliable then 1 else 0, 0, 1, t.metrics))
  {
    if |q| == cap && PushOf(kind, q, cap, m, p).taken {
      var i := OldestUnreliable(q);
      assert OldestAt(q, i);
    }
  }

  /** Fewer than `cap` packets wait whenever a packet is taken. */
  ghost predicate RoomThroughout<T>(kind: Kind, cap: nat, s: Run<T>, ops: seq<Op<T>>)
    decreases |ops|
  {
    ops != [] ==>
      && (ops[0].Push? && PushOf(kind, s.q, cap, s.metrics, ops[0].packet).taken ==> |s.q| < cap)
      && RoomThroughout(kind, cap, Step(kind, cap, s, ops[0]), ops[1..])
  }

  lemma StepEvicts<T>(kind: Kind, cap: nat, s: Run<T>, op: Op<T>)
    requires |s.q| <= cap
    ensures var t := Step(kind, cap, s, op);
            var room := op.Push? && PushOf(kind, s.q, cap, s.metrics, op.packet).taken ==> |s.q| < cap;
            && |t.q| <= cap
            && t.evicted == (if room then s.evicted else s.evicted + 1)
            && (room && s.popped + s.q == s.accepted ==> t.popped + t.q == t.accepted)
  {
    match op {
      case Push(p) =>
        PushExactly(kind, s.q, cap, s.metrics, p);
        Associative(s.popped, s.q, [p]);
      case Pop =>
        if s.q != [] {
          Associative(s.popped, [s.q[0]], s.q[1..]);
          assert [s.q[0]] + s.q[1..] == s.q;
        }
    }
  }

  lemma {:induction false} RunEvicts<T>(kind: Kind, cap: nat, s: Run<T>, ops: seq<Op<T>>)
    requires |s.q| <= cap
    ensures var t := After(kind, cap, s, ops);
            && s.evicted <= t.evicted
            && (t.evicted == s.evicted <==> RoomThroughout(kind, cap, s, ops))
            && (t.evicted == s.evicted && s.popped + s.q == s.accepted ==> t.popped + t.q == t.accepted)
    decreases |ops|
  {
    if ops != [] {
      StepEvicts(kind, cap, s, ops[0]);
      hide Step, PushOf;
      RunEvicts(kind, cap, Step(kind, cap, s, ops[0]), ops[1..]);
    }
  }

  /**
   Over every run: packets are evicted exactly when some packet was taken by a full queue.
   Otherwise everything taken leaves in the order it came, and nothing taken is counted as dropped.
   */
  lemma EvictsOnlyWhenFull<T>(kind: Kind, cap: nat, ops: seq<Op<T>>)
    ensures var t := After(kind, cap, NewRun(), ops);
            && (RoomThroughout(kind, cap, NewRun(), ops) <==> t.evicted == 0)
            && (RoomThroughout(kind, cap, NewRun(), ops) <==> t.popped + t.q == t.accepted)
            && (RoomThroughout(kind, cap, NewRun(), ops) && kind == Egress ==> t.metrics.egressUnreliableDropped == 0)
            && (RoomThroughout(kind, cap, NewRun(), ops) && kind == Ingress ==>
                  t.metrics.ingressStaleDropped == |Select(t.refused, false)|)
  {
    hide Select, Step, PushOf;
    RunEvicts(kind, cap, NewRun<T>(), ops);
    EveryRunIsSound(kind, cap, ops);
    assert NewRun<T>().popped + NewRun<T>().q == NewRun<T>().accepted;
  }

  // ----- Waiting time -----

  function Pops<T>(ops: seq<Op<T>>): nat
    decreases |ops|
  {
    if ops == [] then 0 else (if ops[0].Pop? then 1 else 0) + Pops(ops[1..])
  }

  lemma {:induction false} PoppedGrows<T>(kind: Kind, cap: nat, s: Run<T>, ops: seq<Op<T>>)
    ensures s.popped <= After(kind, cap, s, ops).popped
    decreases |ops|
  {
    if ops != [] {
      hide Evicted, Select, UtilizationPct;
      PoppedGrows(kind, cap, Step(kind, cap, s, ops[0]), ops[1..]);
    }
  }

  lemma SelectWithout<T>(a: seq<Packet<T>>, i: nat)
    requires i < |a| && !a[i].isReliable
    ensures Select(a[..i] + a[i + 1..], true) == Select(a, true)
  {
    hide Select;
    assert a == (a[..i] + [a[i]]) + a[i + 1..];
    SelectAppend(a[..i] + [a[i]], a[i + 1..], true);
    SelectOne(a[..i], a[i], true);
    SelectAppend(a[..i], a[i + 1..], true);
  }

  lemma EvictedPlace<T>(popped: seq<Packet<T>>, q: seq<Packet<T>>, p: Packet<T>, i: nat) returns (j: nat)
    requires i < |q| && q[i].isReliable && Select(q, false) != []
    ensures var r := Evicted(q) + [p];
            && j <= i && j < |r| && r[j].isReliable
            && Select(popped + r[..j + 1], true) == Select(popped + q[..i + 1], true)
  {
    hide Select;
    var o, n, r := OldestUnreliable(q), |popped|, Evicted(q) + [p];
    assert o != i;
    if o < i {
      j := i - 1;
      var a := popped + q[..i + 1];
      assert popped + r[..j + 1] == a[..n + o] + a[n + o + 1..];
      SelectWithout(a, n + o);
    } else {
      j := i;
      assert r[..j + 1] == q[..i + 1];
    }
  }

  /** Where a reliable packet stands after a push, and that the reliable ones ahead of it still do. */
  lemma PushKeepsPlace<T>(kind: Kind, cap: nat, s: Run<T>, p: Packet<T>, i: nat) returns (j: nat)
    requires i < |s.q| && s.q[i].isReliable
    ensures var t := Step(kind, cap, s, Push(p));
            && j <= i && j < |t.q| && t.q[j].isReliable && t.popped == s.popped
            && Select(t.popped + t.q[..j + 1], true) == Select(s.popped + s.q[..i + 1], true)
  {
    hide Select, UtilizationPct, Evicted;
    j := i;
    if PushOf(kind, s.q, cap, s.metrics, p).taken {
      if |s.q| >= cap {
        j := EvictedPlace(s.popped, s.q, p, i);
      } else {
        assert (s.q + [p])[..i + 1] == s.q[..i + 1];
      }
    }
  }

  /**
   Whatever pushes come between, a reliable packet with i packets ahead of it is among the
   popped ones, in its place, after i + 1 pops.
   */
  lemma {:induction false} ReliableLeavesInTime<T>(kind: Kind, cap: nat, s: Run<T>, ops: seq<Op<T>>, i: nat)
    requires i < |s.q| && s.q[i].isReliable && i < Pops(ops)
    ensures Select(s.popped + s.q[..i + 1], true) <= Select(After(kind, cap, s, ops).popped, true)
    decreases |ops|
  {
    var t := Step(kind, cap, s, ops[0]);
    match ops[0] {
      case Push(p) =>
        var j := PushKeepsPlace(kind, cap, s, p, i);
        hide Select, Step;
        ReliableLeavesInTime(kind, cap, t, ops[1..], j);
      case Pop =>
        if i == 0 {
          var last := After(kind, cap, s, ops).popped;
          assert s.popped + s.q[..1] == t.popped;
          PoppedGrows(kind, cap, t, ops[1..]);
          assert last == t.popped + last[|t.popped|..];
          SelectAppend(t.popped, last[|t.popped|..], true);
        } else {
          assert t.popped + t.q[..i] == s.popped + s.q[..i + 1];
          hide Select, Step;
          ReliableLeavesInTime(kind, cap, t, ops[1..], i - 1);
        }
    }
  }
}
