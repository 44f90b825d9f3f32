/**
 The matching loop of the regional order book, on values: price-time priority over unsorted
 slots, one trade per step. The results: it walks the crossing orders exactly in the order
 (price, placed tick, slot), it conserves quantity, and it trades at the best possible total.
 */
module Matching {
  import opened SlotTables
  import opened Words

  datatype OrderType = Limit | ImmediateOrCancel | FillOrKill

  datatype OrderStatus = Active | PartiallyFilled | Filled | Cancelled | Rejected

  datatype MarketOrder = MarketOrder(
    orderId: u64, accountId: u64, itemTypeId: u32, isBuy: bool, unitPrice: u64,
    initialQuantity: u32, remainingQuantity: u32, stationId: u32,
    orderType: OrderType, status: OrderStatus, placedTick: u64, expirationTick: u64)

  datatype TradeExecution = TradeExecution(
    tradeId: nat, buyOrderId: u64, sellOrderId: u64, buyerAccountId: u64, sellerAccountId: u64,
    itemTypeId: u32, quantity: u32, unitPrice: u64, totalPrice: u64, stationId: u32, tick: u64)

  /** One side of the book: resting orders in unsorted slots. */
  type Side = seq<Option<MarketOrder>>

  predicate Crosses(o: MarketOrder, price: u64) {
    if o.isBuy then price <= o.unitPrice else price >= o.unitPrice
  }

  predicate Eligible(side: Side, o: MarketOrder, i: int) {
    0 <= i < |side| && side[i].Some? && Crosses(o, side[i].value.unitPrice)
  }

  /** `a` is strictly ahead of `b` by price, then by placement tick, for an incoming order. */
  predicate Better(isBuy: bool, a: MarketOrder, b: MarketOrder) {
    || (if isBuy then a.unitPrice < b.unitPrice else a.unitPrice > b.unitPrice)
    || (a.unitPrice == b.unitPrice && a.placedTick < b.placedTick)
  }

  /** Slot i precedes slot j in the order (price, tick, slot). */
  predicate Outranks(side: Side, isBuy: bool, i: nat, j: nat)
    requires i < |side| && j < |side| && side[i].Some? && side[j].Some?
  {
    || Better(isBuy, side[i].value, side[j].value)
    || (!Better(isBuy, side[j].value, side[i].value) && i < j)
  }

  /** The scan for the best match over the first `n` slots. */
  function BestUpTo(side: Side, o: MarketOrder, n: nat): (best: Option<nat>)
    requires n <= |side|
    ensures best.Some? ==> best.value < n && Eligible(side, o, best.value)
  {
    if n == 0 then None
    else
      var best := BestUpTo(side, o, n - 1);
      if !Eligible(side, o, n - 1) then best
      else if best.None? || Better(o.isBuy, side[n - 1].value, side[best.value].value) then Some(n - 1)
      else best
  }

  function Best(side: Side, o: MarketOrder): (best: Option<nat>)
    ensures best.Some? ==> Eligible(side, o, best.value)
  {
    BestUpTo(side, o, |side|)
  }

  /** The scan finds the first of the eligible slots in priority order. */
  lemma {:induction false} BestIsFirst(side: Side, o: MarketOrder, n: nat)
    requires n <= |side|
    ensures var best := BestUpTo(side, o, n);
            && (best.None? <==> forall i :: 0 <= i < n ==> !Eligible(side, o, i))
            && (best.Some? ==> forall i :: 0 <= i < n && i != best.value && Eligible(side, o, i) ==>
                                 Outranks(side, o.isBuy, best.value, i))
  {
    if n > 0 { BestIsFirst(side, o, n - 1); }
  }

  /** A matching in progress. */
  datatype Fill = Fill(side: Side, incoming: MarketOrder, trades: seq<TradeExecution>, nextTradeId: nat)

  function Execution(incoming: MarketOrder, resting: MarketOrder, quantity: u32, id: nat, tick: u64)
    : TradeExecution
  {
    var total := Min(quantity * resting.unitPrice, U64_MAX);
    if incoming.isBuy then
      TradeExecution(id, incoming.orderId, resting.orderId, incoming.accountId, resting.accountId,
                     incoming.itemTypeId, quantity, resting.unitPrice, total, resting.stationId, tick)
    else
      TradeExecution(id, resting.orderId, incoming.orderId, resting.accountId, incoming.accountId,
                     incoming.itemTypeId, quantity, resting.unitPrice, total, incoming.stationId, tick)
  }

  /** One trade against the order in slot `i`, at that order's price. */
  function TradeAt(f: Fill, i: nat, tick: u64): (f': Fill)
    requires i < |f.side| && f.side[i].Some?
    ensures |f'.side| == |f.side|
  {
    var resting := f.side[i].value;
    var quantity := Min(f.incoming.remainingQuantity, resting.remainingQuantity);
    var left := resting.remainingQuantity - quantity;
    Fill(f.side[i := if left == 0 then None
                     else Some(resting.(remainingQuantity := left, status := PartiallyFilled))],
         f.incoming.(remainingQuantity := f.incoming.remainingQuantity - quantity),
         f.trades + [Execution(f.incoming, resting, quantity, f.nextTradeId, tick)],
         f.nextTradeId + 1)
  }

  /** The matching loop with `room` trade records left in the caller's output. */
  function Match(f: Fill, room: nat, tick: u64): (f': Fill)
    ensures |f'.side| == |f.side|
    decreases room
  {
    if f.incoming.remainingQuantity == 0 || room == 0 then f
    else
      var best := Best(f.side, f.incoming);
      if best.None? then f else Match(TradeAt(f, best.value, tick), room - 1, tick)
  }

  /** The reference: walk a list of slots from the front until the order is filled. */
  function Walk(f: Fill, slots: seq<nat>, tick: u64): Fill
    requires forall k :: 0 <= k < |slots| ==> slots[k] < |f.side|
    decreases |slots|
  {
    if f.incoming.remainingQuantity == 0 || slots == [] then f
    else if f.side[slots[0]].None? then f
    else Walk(TradeAt(f, slots[0], tick), slots[1..], tick)
  }

  /** `slots` lists the orders crossing `o`, each once, sorted by (price, tick, slot). */
  ghost predicate Ranking(side: Side, o: MarketOrder, slots: seq<nat>) {
    && (forall k :: 0 <= k < |slots| ==> Eligible(side, o, slots[k]))
    && (forall k, l :: 0 <= k < l < |slots| ==> Outranks(side, o.isBuy, slots[k], slots[l]))
    && (forall i :: Eligible(side, o, i) ==> i in slots)
  }

  /** The slot is eligible and precedes every other eligible one. */
  ghost predicate IsFirst(side: Side, o: MarketOrder, a: int) {
    Eligible(side, o, a)
    && forall i :: Eligible(side, o, i) && i != a ==> Outranks(side, o.isBuy, a, i)
  }

  lemma FirstIsUnique(side: Side, o: MarketOrder, a: int, b: int)
    requires IsFirst(side, o, a) && IsFirst(side, o, b)
    ensures a == b
  {
  }

  lemma RankingFirst(side: Side, o: MarketOrder, slots: seq<nat>)
    requires Ranking(side, o, slots)
    ensures Best(side, o) == if slots == [] then None else Some(slots[0])
  {
    BestIsFirst(side, o, |side|);
    if slots != [] {
      assert Eligible(side, o, slots[0]);
      assert IsFirst(side, o, slots[0]);
      FirstIsUnique(side, o, slots[0], Best(side, o).value);
    }
  }

  lemma RankingRest(f: Fill, slots: seq<nat>, tick: u64)
    requires Ranking(f.side, f.incoming, slots) && slots != []
    requires TradeAt(f, slots[0], tick).side[slots[0]].None?
    ensures var f' := TradeAt(f, slots[0], tick); Ranking(f'.side, f'.incoming, slots[1..])
  {
    var f' := TradeAt(f, slots[0], tick);
    forall k | 0 < k < |slots|
      ensures slots[k] != slots[0]
    {
      assert Outranks(f.side, f.incoming.isBuy, slots[0], slots[k]);
    }
    forall i | Eligible(f'.side, f'.incoming, i)
      ensures i in slots[1..]
    {
      assert Eligible(f.side, f.incoming, i);
    }
  }

  lemma RankingApart(side: Side, o: MarketOrder, slots: seq<nat>)
    requires Ranking(side, o, slots)
    ensures slots != [] ==> slots[0] !in slots[1..] && side[slots[0]].Some?
    ensures forall k :: 0 <= k < |slots| ==> slots[k] < |side|
  {
    forall k | 0 < k < |slots|
      ensures slots[k] != slots[0]
    {
      assert Outranks(side, o.isBuy, slots[0], slots[k]);
    }
    forall k | 0 <= k < |slots|
      ensures slots[k] < |side| && side[slots[k]].Some?
    {
      assert Eligible(side, o, slots[k]);
    }
  }

  /** One round of the matching loop. */
  lemma MatchUnfold(f: Fill, room: nat, tick: u64)
    ensures Match(f, room, tick) ==
            if f.incoming.remainingQuantity == 0 || room == 0 || Best(f.side, f.incoming).None? then f
            else Match(TradeAt(f, Best(f.side, f.incoming).value, tick), room - 1, tick)
  {
    hide TradeAt, Best;
  }

  lemma WalkUnfold(f: Fill, slots: seq<nat>, tick: u64)
    requires forall k :: 0 <= k < |slots| ==> slots[k] < |f.side|
    ensures Walk(f, slots, tick) ==
            if f.incoming.remainingQuantity == 0 || slots == [] || f.side[slots[0]].None? then f
            else Walk(TradeAt(f, slots[0], tick), slots[1..], tick)
  {
    hide TradeAt;
  }

  lemma TradeFills(f: Fill, i: nat, tick: u64)
    requires i < |f.side| && f.side[i].Some?
    ensures var f' := TradeAt(f, i, tick); f'.side[i].Some? ==> f'.incoming.remainingQuantity == 0
  {
  }

  /**
   Refinement: the slot-scanning loop makes exactly the trades of the sorted walk, cut off after
   as many orders as the output has room for.
   */
  lemma {:induction false} MatchIsSortedWalk(f: Fill, slots: seq<nat>, room: nat, tick: u64)
    requires Ranking(f.side, f.incoming, slots)
    ensures forall k :: 0 <= k < |slots| ==> slots[k] < |f.side|
    ensures Match(f, room, tick) == Walk(f, slots[..Min(room, |slots|)], tick)
    decreases |slots|
  {
    hide Ranking, Match, Walk, TradeAt, Best, Eligible, Outranks;
    var n := Min(room, |slots|);
    RankingFirst(f.side, f.incoming, slots);
    RankingApart(f.side, f.incoming, slots);
    MatchUnfold(f, room, tick);
    WalkUnfold(f, slots[..n], tick);
    if f.incoming.remainingQuantity > 0 && n > 0 {
      var i, f1, rest := slots[0], TradeAt(f, slots[0], tick), slots[1..][..n - 1];
      assert slots[..n][0] == i && slots[..n][1..] == rest;
      if f1.side[i].None? {
        RankingRest(f, slots, tick);
        MatchIsSortedWalk(f1, slots[1..], room - 1, tick);
      } else {
        TradeFills(f, i, tick);
        MatchUnfold(f1, room - 1, tick);
        WalkUnfold(f1, rest, tick);
      }
    }
  }

  /** The crossing orders in the order the scan finds them, each cleared before the next. */
  function Ranked(side: Side, o: MarketOrder): seq<nat>
    decreases Occupied(side)
  {
    var best := Best(side, o);
    if best.None? then []
    else
      OccupiedClear(side, best.value);
      [best.value] + Ranked(side[best.value := None], o)
  }

  lemma RankingGrows(side: Side, o: MarketOrder, i: nat, rest: seq<nat>)
    requires Best(side, o) == Some(i) && Ranking(side[i := None], o, rest)
    ensures Ranking(side, o, [i] + rest)
  {
    BestIsFirst(side, o, |side|);
    var slots := [i] + rest;
    forall k | 0 <= k < |rest|
      ensures Outranks(side, o.isBuy, i, rest[k]) && rest[k] != i
    {
      assert Eligible(side[i := None], o, rest[k]);
    }
    forall k, l | 0 <= k < l < |slots|
      ensures Outranks(side, o.isBuy, slots[k], slots[l])
    {
      if k > 0 { assert Outranks(side[i := None], o.isBuy, rest[k - 1], rest[l - 1]); }
    }
    forall j | Eligible(side, o, j)
      ensures j in slots
    {
      if j != i { assert Eligible(side[i := None], o, j); }
    }
  }

  lemma NothingRanks(side: Side, o: MarketOrder)
    requires Best(side, o).None?
    ensures Ranking(side, o, [])
  {
    BestIsFirst(side, o, |side|);
  }

  /** A ranking of the crossing orders always exists. */
  lemma {:induction false} RankingExists(side: Side, o: MarketOrder)
    ensures Ranking(side, o, Ranked(side, o)) && |Ranked(side, o)| <= Occupied(side)
    decreases Occupied(side)
  {
    hide Ranking, Best, Occupied;
    var best := Best(side, o);
    if best.None? {
      NothingRanks(side, o);
    } else {
      OccupiedClear(side, best.value);
      RankingExists(side[best.value := None], o);
      RankingGrows(side, o, best.value, Ranked(side[best.value := None], o));
    }
  }

  // ----- What the loop leaves -----

  /** Every resting order still has something to trade. */
  ghost predicate Positive(side: Side) {
    forall i :: 0 <= i < |side| && side[i].Some? ==> side[i].value.remainingQuantity > 0
  }

  /** `o` after some trading: less remains and the status says so, and no other field changed. */
  predicate Reduced(o: MarketOrder, o': MarketOrder) {
    && o'.remainingQuantity <= o.remainingQuantity
    && o' == o.(remainingQuantity := o'.remainingQuantity, status := o'.status)
    && o'.status == if o'.remainingQuantity < o.remainingQuantity then PartiallyFilled else o.status
  }

  /** `t` is `s` after some trading: orders were reduced or left, and no slot was filled. */
  ghost predicate Shrunk(s: Side, t: Side) {
    && |t| == |s|
    && forall i :: 0 <= i < |s| && t[i].Some? ==> s[i].Some? && Reduced(s[i].value, t[i].value)
  }

  /** The incoming order after some trading: only its remaining quantity went down. */
  ghost predicate PartOf(o: MarketOrder, o': MarketOrder) {
    o'.remainingQuantity <= o.remainingQuantity
    && o' == o.(remainingQuantity := o'.remainingQuantity)
  }

  /** One trade either removes an order from the side or fills the incoming one. */
  lemma TradeAtStep(f: Fill, i: nat, tick: u64)
    requires Positive(f.side) && i < |f.side| && f.side[i].Some? && f.incoming.remainingQuantity > 0
    ensures var f' := TradeAt(f, i, tick);
            && Positive(f'.side) && Shrunk(f.side, f'.side) && PartOf(f.incoming, f'.incoming)
            && Occupied(f.side) >= 1
            && Occupied(f'.side) == Occupied(f.side) - (if f'.side[i].None? then 1 else 0)
            && (f'.side[i].Some? ==> f'.incoming.remainingQuantity == 0)
            && f'.nextTradeId == f.nextTradeId + 1
  {
    var f' := TradeAt(f, i, tick);
    OccupiedClear(f.side, i);
    if f'.side[i].Some? { OccupiedUpdate(f.side, i, f'.side[i].value); }
  }

  /**
   The loop makes at most one trade per resting order. It only shrinks the side and the
   incoming order, and stops unfilled with output to spare only when nothing crosses.
   */
  ghost predicate Leaves(f: Fill, f': Fill, room: nat) {
    && Positive(f'.side) && Shrunk(f.side, f'.side) && PartOf(f.incoming, f'.incoming)
    && f.trades <= f'.trades
    && var made := |f'.trades| - |f.trades|;
       && made <= room && made <= Occupied(f.side)
       && f'.nextTradeId == f.nextTradeId + made
       && (f'.incoming.remainingQuantity > 0 ==> Occupied(f'.side) + made == Occupied(f.side))
       && (f'.incoming.remainingQuantity > 0 && made < room ==> Best(f'.side, f'.incoming).None?)
  }

  /** So whatever survives keeps its place: trading never changes who goes before whom. */
  lemma SurvivorsKeepRank(s: Side, t: Side, isBuy: bool, i: nat, j: nat)
    requires Shrunk(s, t) && i < |t| && j < |t| && t[i].Some? && t[j].Some?
    ensures s[i].Some? && s[j].Some? && (Outranks(t, isBuy, i, j) <==> Outranks(s, isBuy, i, j))
  {
    assert Reduced(s[i].value, t[i].value) && Reduced(s[j].value, t[j].value);
  }

  lemma ShrunkTransitive(s: Side, t: Side, u: Side)
    requires Shrunk(s, t) && Shrunk(t, u)
    ensures Shrunk(s, u)
  {
  }

  lemma LeavesNothing(f: Fill, room: nat)
    requires Positive(f.side)
    requires f.incoming.remainingQuantity == 0 || room == 0 || Best(f.side, f.incoming).None?
    ensures Leaves(f, f, room)
  {
  }

  lemma LeavesCompose(f: Fill, f1: Fill, f': Fill, i: nat, room: nat)
    requires i < |f.side| && i < |f1.side| && room > 0
    requires Shrunk(f.side, f1.side) && PartOf(f.incoming, f1.incoming)
    requires Occupied(f.side) >= 1 && Occupied(f1.side) == Occupied(f.side) - (if f1.side[i].None? then 1 else 0)
    requires f1.side[i].Some? ==> f1.incoming.remainingQuantity == 0 && f' == f1
    requires f1.nextTradeId == f.nextTradeId + 1 && f.trades <= f1.trades && |f1.trades| == |f.trades| + 1
    requires Leaves(f1, f', room - 1)
    ensures Leaves(f, f', room)
  {
    ShrunkTransitive(f.side, f1.side, f'.side);
    hide Shrunk, Positive, Best, Occupied;
  }

  lemma {:induction false} MatchLeaves(f: Fill, room: nat, tick: u64)
    requires Positive(f.side)
    ensures Leaves(f, Match(f, room, tick), room)
    decreases room
  {
    hide Match, Leaves, Best, Positive, Shrunk, PartOf, Occupied;
    MatchUnfold(f, room, tick);
    var best := Best(f.side, f.incoming);
    if f.incoming.remainingQuantity == 0 || room == 0 || best.None? {
      LeavesNothing(f, room);
    } else {
      var f1 := TradeAt(f, best.value, tick);
      assert f.trades <= f1.trades && |f1.trades| == |f.trades| + 1;
      TradeAtStep(f, best.value, tick);
      hide TradeAt;
      MatchLeaves(f1, room - 1, tick);
      MatchUnfold(f1, room - 1, tick);
      LeavesCompose(f, f1, Match(f1, room - 1, tick), best.value, room);
    }
  }

  /** With room for every resting order no crossing order survives an unfilled incoming one. */
  lemma MatchExhausts(f: Fill, room: nat, tick: u64)
    requires Positive(f.side) && room >= Occupied(f.side)
    ensures var f' := Match(f, room, tick);
            && |f'.trades| - |f.trades| <= Occupied(f.side)
            && (f'.incoming.remainingQuantity > 0 ==>
                  forall i :: 0 <= i < |f'.side| ==> !Eligible(f'.side, f'.incoming, i))
  {
    MatchLeaves(f, room, tick);
    var f' := Match(f, room, tick);
    BestIsFirst(f'.side, f'.incoming, |f'.side|);
    if f'.incoming.remainingQuantity > 0 && |f'.trades| - |f.trades| == room {
      NothingOccupied(f'.side);
    }
  }

  /** With less output than trades to make, the loop stops part way with more to do. */
  lemma {:induction false} MatchRoom(f: Fill, room: nat, big: nat, tick: u64)
    requires room <= big
    ensures var whole, part := Match(f, big, tick), Match(f, room, tick);
            if room >= |whole.trades| - |f.trades| then part == whole
            else part.incoming.remainingQuantity > 0 && Best(part.side, part.incoming).Some?
    ensures |Match(f, big, tick).trades| >= |f.trades|
    decreases room, big
  {
    var best := Best(f.side, f.incoming);
    if f.incoming.remainingQuantity > 0 && best.Some? && big > 0 {
      if room > 0 {
        MatchRoom(TradeAt(f, best.value, tick), room - 1, big - 1, tick);
      } else {
        MatchRoom(TradeAt(f, best.value, tick), 0, big - 1, tick);
      }
    }
  }

  /**
   The trade is between `o` and the crossing order in slot i of `side`, at that order's price,
   which is within both limits, and the goods are at the seller's station.
   */
  ghost predicate Honest(side: Side, o: MarketOrder, i: nat, t: TradeExecution) {
    && Eligible(side, o, i) && t.quantity > 0
    && var resting := side[i].value;
       var buyer, seller := if o.isBuy then o else resting, if o.isBuy then resting else o;
       && t.buyOrderId == buyer.orderId && t.buyerAccountId == buyer.accountId
       && t.sellOrderId == seller.orderId && t.sellerAccountId == seller.accountId
       && t.stationId == seller.stationId && t.itemTypeId == o.itemTypeId
       && t.unitPrice == resting.unitPrice
       && seller.unitPrice <= t.unitPrice <= buyer.unitPrice
       && t.quantity <= resting.remainingQuantity
       && (t.quantity * t.unitPrice <= U64_MAX ==> t.totalPrice == t.quantity * t.unitPrice)
  }

  /** The trades from f to f' are honest, numbered in sequence, and each with its own order. */
  ghost predicate AllHonest(f: Fill, f': Fill, tick: u64, slots: seq<nat>) {
    && |f'.trades| == |f.trades| + |slots|
    && (forall k :: 0 <= k < |slots| ==>
          var t := f'.trades[|f.trades| + k];
          && Honest(f.side, f.incoming, slots[k], t)
          && t.tradeId == f.nextTradeId + k && t.tick == tick)
    && (forall k, l :: 0 <= k < l < |slots| ==> slots[k] != slots[l])
  }

  lemma FirstTradeIsHonest(f: Fill, i: nat, tick: u64)
    requires Positive(f.side) && Eligible(f.side, f.incoming, i) && f.incoming.remainingQuantity > 0
    ensures Honest(f.side, f.incoming, i, TradeAt(f, i, tick).trades[|f.trades|])
  {
  }

  lemma NoTradesHonest(f: Fill, tick: u64)
    ensures AllHonest(f, f, tick, [])
  {
  }

  lemma EligibleSlot(f: Fill, i: nat)
    requires Eligible(f.side, f.incoming, i)
    ensures i < |f.side| && f.side[i].Some?
  {
  }

  lemma {:induction false} TradesAreHonest(f: Fill, room: nat, tick: u64) returns (slots: seq<nat>)
    requires Positive(f.side)
    ensures AllHonest(f, Match(f, room, tick), tick, slots)
    decreases room
  {
    hide Match, Best, TradeAt, Honest, AllHonest, Positive, Shrunk, PartOf, Occupied, Eligible;
    slots := [];
    NoTradesHonest(f, tick);
    MatchUnfold(f, room, tick);
    var best := Best(f.side, f.incoming);
    if f.incoming.remainingQuantity > 0 && room > 0 && best.Some? {
      var i := best.value;
      EligibleSlot(f, i);
      var f1 := TradeAt(f, i, tick);
      TradeAtStep(f, i, tick);
      FirstTradeIsHonest(f, i, tick);
      var rest := TradesAreHonest(f1, room - 1, tick);
      MatchLeaves(f1, room - 1, tick);
      MatchUnfold(f1, room - 1, tick);
      slots := [i] + rest;
      TradesCompose(f, f1, Match(f1, room - 1, tick), i, tick, rest);
    }
  }

  lemma TradesCompose(f: Fill, f1: Fill, f': Fill, i: nat, tick: u64, rest: seq<nat>)
    requires i < |f.side| && f.side[i].Some? && f1 == TradeAt(f, i, tick)
    requires Honest(f.side, f.incoming, i, f1.trades[|f.trades|])
    requires AllHonest(f1, f', tick, rest) && f1.trades <= f'.trades
    requires f1.side[i].None? || f' == f1
    ensures AllHonest(f, f', tick, [i] + rest)
  {
    var slots := [i] + rest;
    forall k | 0 <= k < |slots|
      ensures var t := f'.trades[|f.trades| + k];
              Honest(f.side, f.incoming, slots[k], t) && t.tradeId == f.nextTradeId + k && t.tick == tick
      ensures k > 0 ==> slots[k] != i
    {
      if k == 0 {
        assert f'.trades[|f.trades|] == f1.trades[|f.trades|];
      } else {
        assert Honest(f1.side, f1.incoming, rest[k - 1], f'.trades[|f1.trades| + (k - 1)]);
      }
    }
  }
}
