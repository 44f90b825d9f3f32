/**
 The retransmission timetable. Calls of `check_retransmissions` are numbered from 0; a packet
 that is never acknowledged is retried at calls 4, 9, 18, 35 and then every 33 after it was
 queued, whatever else is in the table, until some packet of the table has used up its retries.
 */
module RetrySchedule {
  import opened Words
  import opened Bitwise
  import opened ReliableSender

  datatype Timers = Timers(slots: Slots, timedOut: bool)

  datatype Outcome = Outcome(result: Result<(), NetError>, retried: seq<(u16, Payload)>)

  /** One call, as ReliableChannel.Channel.CheckRetransmissions performs it. */
  function Call(s: Timers, maxRetries: u8): (Timers, Outcome) {
    if s.timedOut then (s, Outcome(Err(ConnectionTimedOut), []))
    else
      var t := TickUpTo(s.slots, |s.slots|, maxRetries);
      (Timers(t.slots, t.timedOut),
       Outcome(if t.timedOut then Err(ConnectionTimedOut) else Ok(()), t.retried))
  }

  function AfterCalls(s: Timers, maxRetries: u8, c: nat): Timers {
    if c == 0 then s else Call(AfterCalls(s, maxRetries, c - 1), maxRetries).0
  }

  /** What call number `c` returns. */
  function CallNumber(s: Timers, maxRetries: u8, c: nat): Outcome {
    Call(AfterCalls(s, maxRetries, c), maxRetries).1
  }

  /** The call at which retry number `j` falls due. */
  function Due(j: nat): int {
    match j
    case 0 => -1
    case 1 => 4
    case 2 => 9
    case 3 => 18
    case _ => 35 + 33 * (j - 4)
  }

  predicate IsDue(c: nat) {
    c == 4 || c == 9 || c == 18 || (c >= 35 && (c - 35) % 33 == 0)
  }

  /** How many retries fell due before call `c`. */
  function RetriesBefore(c: nat): (j: nat)
    ensures Due(j) < c <= Due(j + 1)
    ensures IsDue(c) <==> c == Due(j + 1)
  {
    if c <= 4 then 0 else if c <= 9 then 1 else if c <= 18 then 2 else if c <= 35 then 3
    else 4 + (c - 36) / 33
  }

  /** The packet between retry j and retry j + 1, just before call `c`. */
  function Counting(q: u16, data: Payload, c: nat, j: nat): Pending
    requires Due(j) < c <= Due(j + 1)
  {
    Pending(q, data, Due(j + 1) - c, Min(j, 255))
  }

  lemma CountingStart(q: u16, data: Payload)
    ensures Counting(q, data, 0, 0) == Pending(q, data, RETRY_TICKS, 0)
  {
  }

  lemma CountingStep(q: u16, data: Payload, maxRetries: u8, c: nat, j: nat)
    requires Due(j) < c <= Due(j + 1)
    ensures var (p, outcome) := TickPacket(Counting(q, data, c, j), maxRetries);
            if c < Due(j + 1) then outcome == Waiting && p == Counting(q, data, c + 1, j)
            else if j + 1 > maxRetries && maxRetries < 255 then outcome == Expired
            else outcome == Retried && p == Counting(q, data, c + 1, j + 1)
  {
    Pow2Small();
    assert Pow2(0) == 1;
  }

  lemma {:induction false} TimedOutForever(s: Timers, maxRetries: u8, c: nat, d: nat)
    requires c <= d && AfterCalls(s, maxRetries, c).timedOut
    ensures AfterCalls(s, maxRetries, d).timedOut
    decreases d
  {
    if c < d { TimedOutForever(s, maxRetries, c, d - 1); }
  }

  // ----- Any table -----

  /** The packet is as it was queued `age` calls ago and has not been acknowledged since. */
  ghost predicate Aged(p: Pending, age: nat) {
    p == Counting(p.sequence, p.payload, age, RetriesBefore(age))
  }

  /** Every packet of the table has its age, and none has used up its retries. */
  ghost predicate AgedTable(slots: Slots, ages: seq<nat>, maxRetries: u8) {
    && |ages| == |slots|
    && forall i :: 0 <= i < |slots| && slots[i].Some? ==> Aged(slots[i].value, ages[i]) && Lasts(ages[i], maxRetries)
  }

  /** A packet of this age has not expired; with 255 retries it never does. */
  predicate Lasts(age: nat, maxRetries: u8) { maxRetries <= 254 ==> age <= Due(maxRetries + 1) }

  function Older(ages: seq<nat>, c: nat): (older: seq<nat>)
    ensures |older| == |ages|
  {
    seq(|ages|, i requires 0 <= i < |ages| => ages[i] + c)
  }

  /** The packets of the first n slots that are due, in table order. */
  function DueList(slots: Slots, ages: seq<nat>, n: nat): seq<(u16, Payload)>
    requires n <= |slots| == |ages|
  {
    if n == 0 then []
    else
      DueList(slots, ages, n - 1)
      + if slots[n - 1].Some? && IsDue(ages[n - 1])
        then [(slots[n - 1].value.sequence, slots[n - 1].value.payload)] else []
  }

  /** The first of n slots whose packet runs out of retries at this call, or n. */
  function FirstExpiring(slots: Slots, ages: seq<nat>, maxRetries: u8, n: nat): (f: nat)
    requires n <= |slots| == |ages|
    ensures f <= n
    ensures f < n <==> exists i :: 0 <= i < n && slots[i].Some? && !Lasts(ages[i] + 1, maxRetries)
  {
    if n == 0 then 0
    else
      var f := FirstExpiring(slots, ages, maxRetries, n - 1);
      if f < n - 1 then f else if slots[n - 1].Some? && !Lasts(ages[n - 1] + 1, maxRetries) then n - 1 else n
  }

  /** The same messages in the same slots. */
  ghost predicate SameMessages(s: Slots, t: Slots) {
    && |s| == |t|
    && forall i :: 0 <= i < |s| ==>
         && s[i].Some? == t[i].Some?
         && (s[i].Some? ==> s[i].value.sequence == t[i].value.sequence && s[i].value.payload == t[i].value.payload)
  }

  /** One tick of an aged packet. */
  lemma AgedTick(p: Pending, age: nat, maxRetries: u8)
    requires Aged(p, age) && Lasts(age, maxRetries)
    ensures var (p', outcome) := TickPacket(p, maxRetries);
            && (outcome.Expired? <==> !Lasts(age + 1, maxRetries))
            && (outcome.Retried? <==> IsDue(age) && Lasts(age + 1, maxRetries))
            && p'.sequence == p.sequence && p'.payload == p.payload
            && (!outcome.Expired? ==> Aged(p', age + 1))
  {
    var j := RetriesBefore(age);
    CountingStep(p.sequence, p.payload, maxRetries, age, j);
    RetriesStep(age);
    DueIsIncreasing(j, maxRetries + 1);
    DueIsIncreasing(maxRetries + 1, j + 1);
    DueIsIncreasing(j + 1, maxRetries + 1);
    hide TickPacket;
  }

  /** One call treats the slots independently, up to the first that expires. */
  lemma {:induction false} TableTick(slots: Slots, ages: seq<nat>, maxRetries: u8, n: nat)
    requires AgedTable(slots, ages, maxRetries) && n <= |slots|
    ensures var t := TickUpTo(slots, n, maxRetries); var f := FirstExpiring(slots, ages, maxRetries, n);
            && (t.timedOut <==> f < n)
            && t.retried == DueList(slots, ages, f)
            && SameMessages(slots, t.slots)
            && (f == n ==> forall i :: 0 <= i < n && slots[i].Some? ==> Aged(t.slots[i].value, ages[i] + 1))
  {
    hide Aged, Lasts, TickPacket, IsDue, TickUpTo, DueList;
    if n == 0 {
      NothingTicked(slots, maxRetries);
      assert DueList(slots, ages, 0) == [] by { NothingDue(slots, ages); }
    } else {
      TableTick(slots, ages, maxRetries, n - 1);
      DueStep(slots, ages, n - 1);
      TickNext(slots, n - 1, maxRetries);
      if slots[n - 1].Some? { AgedTick(slots[n - 1].value, ages[n - 1], maxRetries); }
    }
  }

  lemma NothingDue(slots: Slots, ages: seq<nat>)
    requires |slots| == |ages|
    ensures DueList(slots, ages, 0) == []
  {
  }

  lemma NothingTicked(slots: Slots, maxRetries: u8)
    ensures TickUpTo(slots, 0, maxRetries) == Tick(slots, [], false)
  {
  }

  /** What a call returns for a table of these messages at these ages. */
  function TableOutcome(slots: Slots, ages: seq<nat>, maxRetries: u8): Outcome
    requires |slots| == |ages|
  {
    var f := FirstExpiring(slots, ages, maxRetries, |slots|);
    Outcome(if f < |slots| then Err(ConnectionTimedOut) else Ok(()), DueList(slots, ages, f))
  }

  /** No packet has expired before call `c`. */
  ghost predicate AllLast(slots: Slots, ages: seq<nat>, maxRetries: u8, c: nat)
    requires |slots| == |ages|
  {
    forall i :: 0 <= i < |slots| && slots[i].Some? ==> Lasts(ages[i] + c, maxRetries)
  }

  lemma TableCall(slots: Slots, ages: seq<nat>, maxRetries: u8)
    requires AgedTable(slots, ages, maxRetries)
    ensures var (s', outcome) := Call(Timers(slots, false), maxRetries);
            && outcome == TableOutcome(slots, ages, maxRetries)
            && SameMessages(slots, s'.slots)
            && (s'.timedOut <==> !AllLast(slots, ages, maxRetries, 1))
            && (!s'.timedOut ==> AgedTable(s'.slots, Older(ages, 1), maxRetries))
  {
    TableTick(slots, ages, maxRetries, |slots|);
    hide Aged, Lasts, TickUpTo, DueList, FirstExpiring, Counting;
    var f := FirstExpiring(slots, ages, maxRetries, |slots|);
    assert f == |slots| <==> AllLast(slots, ages, maxRetries, 1);
    if f == |slots| { TableAges(slots, ages, maxRetries); }
  }

  /** A table whose packets are one call older. */
  lemma TableAges(slots: Slots, ages: seq<nat>, maxRetries: u8)
    requires |ages| == |slots| && AllLast(slots, ages, maxRetries, 1)
    requires var t := TickUpTo(slots, |slots|, maxRetries);
             && SameMessages(slots, t.slots)
             && forall i :: 0 <= i < |slots| && slots[i].Some? ==> Aged(t.slots[i].value, ages[i] + 1)
    ensures AgedTable(TickUpTo(slots, |slots|, maxRetries).slots, Older(ages, 1), maxRetries)
  {
    hide Aged, Lasts, TickUpTo;
  }

  lemma {:induction false} SameDueList(s: Slots, t: Slots, ages: seq<nat>, n: nat)
    requires SameMessages(s, t) && n <= |s| == |ages|
    ensures DueList(s, ages, n) == DueList(t, ages, n)
  {
    hide IsDue;
    if n > 0 { SameDueList(s, t, ages, n - 1); }
  }

  lemma {:induction false} SameFirstExpiring(s: Slots, t: Slots, ages: seq<nat>, maxRetries: u8, n: nat)
    requires SameMessages(s, t) && n <= |s| == |ages|
    ensures FirstExpiring(s, ages, maxRetries, n) == FirstExpiring(t, ages, maxRetries, n)
  {
    hide Lasts;
    if n > 0 { SameFirstExpiring(s, t, ages, maxRetries, n - 1); }
  }

  /**
   The whole timetable of any table: the channel has timed out before call c exactly when some
   packet has outlived its retries by then; until then every packet keeps its own age, and the
   call hands out the packets that are due, in table order, up to the first that expires.
   */
  lemma {:induction false} TableSchedule(slots: Slots, ages: seq<nat>, maxRetries: u8, c: nat)
    requires AgedTable(slots, ages, maxRetries)
    ensures var s := AfterCalls(Timers(slots, false), maxRetries, c);
            && (s.timedOut <==> !AllLast(slots, ages, maxRetries, c))
            && (!s.timedOut ==> && AgedTable(s.slots, Older(ages, c), maxRetries) && SameMessages(slots, s.slots)
                                && CallNumber(Timers(slots, false), maxRetries, c)
                                   == TableOutcome(slots, Older(ages, c), maxRetries))
  {
    hide Aged, TickUpTo, DueList, FirstExpiring, Call, Due;
    if c == 0 {
      assert Older(ages, 0) == ages;
      TableCall(slots, ages, maxRetries);
    } else {
      TableSchedule(slots, ages, maxRetries, c - 1);
      var before := AfterCalls(Timers(slots, false), maxRetries, c - 1);
      StillTimedOut(before, maxRetries);
      assert Older(Older(ages, c - 1), 1) == Older(ages, c);
      if !before.timedOut {
        TableCall(before.slots, Older(ages, c - 1), maxRetries);
        var after := AfterCalls(Timers(slots, false), maxRetries, c);
        if !after.timedOut {
          TableCall(after.slots, Older(ages, c), maxRetries);
          SameDueList(slots, after.slots, Older(ages, c), FirstExpiring(slots, Older(ages, c), maxRetries, |slots|));
          SameFirstExpiring(slots, after.slots, Older(ages, c), maxRetries, |slots|);
        }
      }
    }
  }

  lemma StillTimedOut(s: Timers, maxRetries: u8)
    ensures s.timedOut ==> Call(s, maxRetries).0.timedOut
  {
  }

  /** No unacknowledged packet waits more than 33 calls for its next retry. */
  lemma NextRetryWithin33(age: nat) returns (wait: nat)
    ensures wait <= 32 && IsDue(age + wait)
  {
    wait := Due(RetriesBefore(age) + 1) - age;
    RetriesStep(age + wait);
  }

  // ----- A lone packet -----

  /** A table whose slot `k` is its only packet. */
  function Lone(cap: nat, k: nat, p: Pending): (slots: Slots)
    requires k < cap
    ensures |slots| == cap
  {
    seq(cap, i => if i == k then Some(p) else None)
  }

  lemma LoneAt(cap: nat, k: nat, p: Pending, i: nat)
    requires k < cap && i < cap
    ensures Lone(cap, k, p)[i] == if i == k then Some(p) else None
  {
  }

  lemma DueStep(slots: Slots, ages: seq<nat>, n: nat)
    requires n < |slots| == |ages|
    ensures DueList(slots, ages, n + 1) ==
            DueList(slots, ages, n)
            + if slots[n].Some? && IsDue(ages[n]) then [(slots[n].value.sequence, slots[n].value.payload)] else []
  {
    hide IsDue;
  }

  lemma {:induction false} LoneDueList(cap: nat, k: nat, p: Pending, c: nat, n: nat)
    requires k < cap && n <= cap
    ensures DueList(Lone(cap, k, p), seq(cap, _ => c), n) == if n > k && IsDue(c) then [(p.sequence, p.payload)] else []
  {
    hide IsDue, DueList, Lone;
    if n == 0 {
      NothingDue(Lone(cap, k, p), seq(cap, _ => c));
    } else {
      LoneDueList(cap, k, p, c, n - 1);
      DueStep(Lone(cap, k, p), seq(cap, _ => c), n - 1);
      LoneAt(cap, k, p, n - 1);
    }
  }

  /**
   With m <= 254 retries allowed a lone packet is retried exactly at the m due calls and the channel
   is timed out from the next due call on; with m = 255 the saturating counter never expires.
   */
  lemma LoneRetrySchedule(cap: nat, k: nat, q: u16, data: Payload, maxRetries: u8, c: nat)
    requires k < cap
    ensures CallNumber(Timers(Lone(cap, k, Pending(q, data, RETRY_TICKS, 0)), false), maxRetries, c)
            == if maxRetries <= 254 && c >= Due(maxRetries + 1) then Outcome(Err(ConnectionTimedOut), [])
               else Outcome(Ok(()), if IsDue(c) then [(q, data)] else [])
  {
    hide Lone, Older, AgedTable, AllLast, SameMessages, TableOutcome, CallNumber, AfterCalls, Lasts, IsDue, Due;
    var p := Pending(q, data, RETRY_TICKS, 0);
    var slots, ages := Lone(cap, k, p), seq(cap, _ => 0);
    LoneAged(cap, k, q, data, maxRetries);
    TableSchedule(slots, ages, maxRetries, c);
    assert Older(ages, c) == seq(cap, _ => c) by { OlderZeros(cap, c); }
    LoneOutcome(cap, k, p, maxRetries, c);
    LoneLasts(cap, k, p, maxRetries, c);
    CallTimedOut(Timers(slots, false), maxRetries, c);
    LastsIs(c, maxRetries);
    LastsIs(c + 1, maxRetries);
  }

  lemma OlderZeros(cap: nat, c: nat)
    ensures Older(seq(cap, _ => 0), c) == seq(cap, _ => c)
  {
  }

  lemma LastsIs(age: nat, maxRetries: u8)
    ensures Lasts(age, maxRetries) <==> (maxRetries <= 254 ==> age <= Due(maxRetries + 1))
  {
  }

  lemma CallTimedOut(s: Timers, maxRetries: u8, c: nat)
    ensures AfterCalls(s, maxRetries, c).timedOut ==>
              CallNumber(s, maxRetries, c) == Outcome(Err(ConnectionTimedOut), [])
  {
    hide AfterCalls;
  }

  lemma LoneAged(cap: nat, k: nat, q: u16, data: Payload, maxRetries: u8)
    requires k < cap
    ensures AgedTable(Lone(cap, k, Pending(q, data, RETRY_TICKS, 0)), seq(cap, _ => 0), maxRetries)
  {
    CountingStart(q, data);
    RetriesStart();
    DueIsIncreasing(0, maxRetries + 1);
    hide Counting, RetriesBefore;
  }

  lemma LoneOutcome(cap: nat, k: nat, p: Pending, maxRetries: u8, c: nat)
    requires k < cap
    ensures TableOutcome(Lone(cap, k, p), seq(cap, _ => c), maxRetries)
            == if Lasts(c + 1, maxRetries) then Outcome(Ok(()), if IsDue(c) then [(p.sequence, p.payload)] else [])
               else Outcome(Err(ConnectionTimedOut), [])
  {
    var slots, ages := Lone(cap, k, p), seq(cap, _ => c);
    var f := FirstExpiring(slots, ages, maxRetries, cap);
    LoneDueList(cap, k, p, c, f);
    assert slots[k].Some?;
    hide IsDue, DueList, Lasts;
    if !Lasts(c + 1, maxRetries) { LoneFirst(cap, k, p, maxRetries, c, cap); }
  }

  lemma {:induction false} LoneFirst(cap: nat, k: nat, p: Pending, maxRetries: u8, c: nat, n: nat)
    requires k < cap && n <= cap && !Lasts(c + 1, maxRetries)
    ensures FirstExpiring(Lone(cap, k, p), seq(cap, _ => c), maxRetries, n) == Min(n, k)
  {
    hide Lasts;
    if n > 0 { LoneFirst(cap, k, p, maxRetries, c, n - 1); }
  }

  lemma LoneLasts(cap: nat, k: nat, p: Pending, maxRetries: u8, c: nat)
    requires k < cap
    ensures AllLast(Lone(cap, k, p), seq(cap, _ => 0), maxRetries, c) <==> Lasts(c, maxRetries)
  {
    hide Lasts;
    var slots, ages := Lone(cap, k, p), seq(cap, _ => 0);
    assert slots[k].Some? && ages[k] == 0;
  }

  lemma DueIsIncreasing(i: nat, j: nat)
    ensures i < j <==> Due(i) < Due(j)
  {
  }

  /** How many times the packet was handed out in the first `n` calls. */
  function RetriesIn(s: Timers, maxRetries: u8, n: nat): nat {
    if n == 0 then 0 else RetriesIn(s, maxRetries, n - 1) + |CallNumber(s, maxRetries, n - 1).retried|
  }

  lemma RetriesStart()
    ensures RetriesBefore(0) == 0
  {
  }

  lemma RetriesStep(c: nat)
    ensures RetriesBefore(c + 1) == RetriesBefore(c) + if IsDue(c) then 1 else 0
    ensures Due(RetriesBefore(c) + 1) >= c
    ensures IsDue(c) <==> Due(RetriesBefore(c) + 1) == c
  {
  }

  /** Retried at every due call, and exactly m times in all. */
  lemma {:induction false} RetriedExactly(cap: nat, k: nat, q: u16, data: Payload, maxRetries: u8, n: nat)
    requires k < cap && maxRetries <= 254
    ensures RetriesIn(Timers(Lone(cap, k, Pending(q, data, RETRY_TICKS, 0)), false), maxRetries, n)
            == Min(RetriesBefore(n), maxRetries)
  {
    hide CallNumber, Lone, Due, RetriesBefore, IsDue;
    if n == 0 {
      RetriesStart();
    } else {
      var j := RetriesBefore(n - 1);
      RetriedExactly(cap, k, q, data, maxRetries, n - 1);
      LoneRetrySchedule(cap, k, q, data, maxRetries, n - 1);
      RetriesStep(n - 1);
      DueIsIncreasing(j + 1, maxRetries + 1);
      DueIsIncreasing(j, maxRetries + 1);
      DueIsIncreasing(maxRetries + 1, j + 1);
    }
  }
}
