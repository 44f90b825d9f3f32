/**
 The order book as the source has it: two fixed arrays of slots, two counters and a trade
 number, updated in place. Each method is proved equal to the function that specifies it.
 The source writes the buy and the sell branch out separately; here `side` names the array
 that the branch works on.
 */
module OrderBookInPlace {
  import opened SlotTables
  import opened Words
  import opened Matching
  import opened MatchingTotals
  import opened OrderBook

  class RegionalMarket {
    const itemTypeId: u32
    const bids: array<Option<MarketOrder>>
    const asks: array<Option<MarketOrder>>
    var bidCount: nat
    var askCount: nat
    var nextTradeId: nat

    function State(): Book
      reads this, bids, asks
    {
      Book(itemTypeId, bids[..], asks[..], nextTradeId)
    }

    /** The counters equal the numbers of occupied slots. */
    ghost predicate Valid()
      reads this, bids, asks
    {
      && bids != asks && bids.Length == asks.Length == MAX_ORDERS_PER_SIDE
      && bidCount == Occupied(bids[..]) && askCount == Occupied(asks[..])
    }

    constructor (itemType: u32)
      ensures Valid() && State() == Empty(itemType)
      ensures fresh(bids) && fresh(asks)
    {
      itemTypeId := itemType;
      bids := new Option<MarketOrder>[MAX_ORDERS_PER_SIDE](_ => None);
      asks := new Option<MarketOrder>[MAX_ORDERS_PER_SIDE](_ => None);
      bidCount, askCount, nextTradeId := 0, 0, 1;
      new;
      NothingOccupied(bids[..]);
      NothingOccupied(asks[..]);
    }

    /** The highest resting bid. */
    method BestBidPrice() returns (best: Option<u64>)
      requires Valid()
      ensures best.None? <==> forall i :: 0 <= i < bids.Length ==> bids[i].None?
      ensures best.Some? ==>
                && (exists i :: 0 <= i < bids.Length && bids[i].Some? && bids[i].value.unitPrice == best.value)
                && (forall i :: 0 <= i < bids.Length && bids[i].Some? ==> bids[i].value.unitPrice <= best.value)
    {
      best := None;
      for i := 0 to bids.Length
        invariant best.None? <==> forall j :: 0 <= j < i ==> bids[j].None?
        invariant best.Some? ==>
            && (exists j :: 0 <= j < i && bids[j].Some? && bids[j].value.unitPrice == best.value)
            && (forall j :: 0 <= j < i && bids[j].Some? ==> bids[j].value.unitPrice <= best.value)
      {
        if bids[i].Some? && (best.None? || bids[i].value.unitPrice > best.value) {
          best := Some(bids[i].value.unitPrice);
        }
      }
    }

    /** The lowest resting ask. */
    method BestAskPrice() returns (best: Option<u64>)
      requires Valid()
      ensures best.None? <==> forall i :: 0 <= i < asks.Length ==> asks[i].None?
      ensures best.Some? ==>
                && (exists i :: 0 <= i < asks.Length && asks[i].Some? && asks[i].value.unitPrice == best.value)
                && (forall i :: 0 <= i < asks.Length && asks[i].Some? ==> asks[i].value.unitPrice >= best.value)
    {
      best := None;
      for i := 0 to asks.Length
        invariant best.None? <==> forall j :: 0 <= j < i ==> asks[j].None?
        invariant best.Some? ==>
            && (exists j :: 0 <= j < i && asks[j].Some? && asks[j].value.unitPrice == best.value)
            && (forall j :: 0 <= j < i && asks[j].Some? ==> asks[j].value.unitPrice >= best.value)
      {
        if asks[i].Some? && (best.None? || asks[i].value.unitPrice < best.value) {
          best := Some(asks[i].value.unitPrice);
        }
      }
    }

    method InsertRestingOrder(order: MarketOrder) returns (r: Result<(), MarketError>)
      requires Valid()
      modifies this`bidCount, this`askCount, bids, asks
      ensures Valid()
      ensures var (side, result) := Insert(Own(old(State()), order.isBuy), order);
              State() == WithOwn(old(State()), order.isBuy, side) && r == result
    {
      var side := if order.isBuy then bids else asks;
      var count := if order.isBuy then bidCount else askCount;
      if count >= MAX_ORDERS_PER_SIDE {
        return Err(OrderBookFull);
      }
      ghost var found, first := FindOrder(side[..], order.orderId), FirstEmpty(side[..]);
      for i := 0 to side.Length
        invariant i <= found
      {
        if side[i].Some? && side[i].value.orderId == order.orderId {
          assert found == i;
          return Err(DuplicateOrderId);
        }
      }
      var k := 0;
      while k < side.Length && side[k].Some?
        invariant k <= first
      {
        k := k + 1;
      }
      if k == side.Length {
        return Err(OrderBookFull);
      }
      OccupiedUpdate(side[..], k, order);
      side[k] := Some(order);
      if order.isBuy { bidCount := bidCount + 1; } else { askCount := askCount + 1; }
      r := Ok(());
    }

    /** Looks for order `id` on one side and clears its slot if `account` owns it. */
    method CancelOnSide(id: u64, account: u64, isBuy: bool) returns (r: Option<Result<MarketOrder, MarketError>>)
      requires Valid()
      modifies this`bidCount, this`askCount, bids, asks
      ensures Valid()
      ensures var own := Own(old(State()), isBuy); var k := FindOrder(own, id);
              if k == |own| then State() == old(State()) && r == None
              else var (side, result) := CancelOn(own, k, account);
                   State() == WithOwn(old(State()), isBuy, side) && r == Some(result)
    {
      var side := if isBuy then bids else asks;
      ghost var found := FindOrder(side[..], id);
      for i := 0 to side.Length
        invariant i <= found
        invariant State() == old(State()) && Valid()
      {
        if side[i].Some? && side[i].value.orderId == id {
          assert found == i;
          var o := side[i].value;
          if o.accountId != account {
            return Some(Err(UnauthorizedCancellation));
          }
          OccupiedClear(side[..], i);
          side[i] := None;
          if isBuy { bidCount := bidCount - 1; } else { askCount := askCount - 1; }
          return Some(Ok(o.(status := Cancelled)));
        }
      }
      r := None;
    }

    method CancelOrder(orderId: u64, accountId: u64) returns (r: Result<MarketOrder, MarketError>)
      requires Valid()
      modifies this`bidCount, this`askCount, bids, asks
      ensures Valid()
      ensures (State(), r) == Cancel(old(State()), orderId, accountId)
    {
      var onBids := CancelOnSide(orderId, accountId, true);
      if onBids.Some? {
        return onBids.value;
      }
      var onAsks := CancelOnSide(orderId, accountId, false);
      if onAsks.Some? {
        return onAsks.value;
      }
      r := Err(OrderNotFound);
    }

    /** The fill-or-kill volume check: a 32-bit running sum over the crossing orders. */
    method AvailableQuantity(incoming: MarketOrder) returns (available: u32)
      requires Valid()
      ensures available == WrappedDepth(Opposing(State(), incoming.isBuy), incoming)
    {
      var side := if incoming.isBuy then asks else bids;
      available := 0;
      for i := 0 to side.Length
        invariant available == Depth(side[..i], incoming) % 0x1_0000_0000
      {
        DepthSnoc(side[..i], side[i], incoming);
        assert side[..i + 1] == side[..i] + [side[i]];
        if side[i].Some? && Crosses(incoming, side[i].value.unitPrice) {
          available := (available + side[i].value.remainingQuantity) % 0x1_0000_0000;
        }
      }
      assert side[..side.Length] == side[..];
    }

    /** The scan for the resting order with the best price, then the lowest tick. */
    method FindBest(incoming: MarketOrder) returns (best: Option<nat>)
      requires Valid()
      ensures best == Best(Opposing(State(), incoming.isBuy), incoming)
    {
      var side := if incoming.isBuy then asks else bids;
      best := None;
      for i := 0 to side.Length
        invariant best == BestUpTo(side[..], incoming, i)
      {
        if side[i].Some? && Crosses(incoming, side[i].value.unitPrice) {
          if best.None? || Better(incoming.isBuy, side[i].value, side[best.value].value) {
            best := Some(i);
          }
        }
      }
    }

    /** The matching in progress: the side being matched, the incoming order and its trades. */
    function Progress(incoming: MarketOrder, trades: seq<TradeExecution>): Fill
      reads this, bids, asks
    {
      Fill(Opposing(State(), incoming.isBuy), incoming, trades, nextTradeId)
    }

    /** One trade with the order in slot `idx`, written to `tradesOut[at]`. */
    method ExecuteTrade(incoming: MarketOrder, idx: nat, tradesOut: array<TradeExecution>, at: nat, tick: u64)
      returns (left: MarketOrder)
      requires Valid() && at < tradesOut.Length
      requires Eligible(Opposing(State(), incoming.isBuy), incoming, idx)
      modifies this`bidCount, this`askCount, this`nextTradeId, bids, asks, tradesOut
      ensures Valid() && left.isBuy == incoming.isBuy
      ensures Progress(left, tradesOut[..at + 1]) == TradeAt(old(Progress(incoming, tradesOut[..at])), idx, tick)
      ensures Own(State(), incoming.isBuy) == Own(old(State()), incoming.isBuy)
      ensures forall i :: at < i < tradesOut.Length ==> tradesOut[i] == old(tradesOut[i])
    {
      hide Occupied;
      var side := if incoming.isBuy then asks else bids;
      var resting := side[idx].value;
      var matched := Min(incoming.remainingQuantity, resting.remainingQuantity);
      ghost var before := tradesOut[..at];
      tradesOut[at] := Execution(incoming, resting, matched, nextTradeId, tick);
      assert tradesOut[..at + 1] == before + [tradesOut[at]];
      nextTradeId := nextTradeId + 1;
      left := incoming.(remainingQuantity := incoming.remainingQuantity - matched);
      resting := resting.(remainingQuantity := resting.remainingQuantity - matched);
      if resting.remainingQuantity == 0 {
        ClearSlot(incoming.isBuy, idx);
      } else {
        ReplaceSlot(incoming.isBuy, idx, resting.(status := PartiallyFilled));
      }
    }

    /** The filled order leaves its slot, and the counter of its side follows. */
    method ClearSlot(isBuy: bool, idx: nat)
      requires Valid() && idx < MAX_ORDERS_PER_SIDE && Opposing(State(), isBuy)[idx].Some?
      modifies this`bidCount, this`askCount, bids, asks
      ensures Valid()
      ensures State() == WithOpposing(old(State()), isBuy, Opposing(old(State()), isBuy)[idx := None])
    {
      var side := if isBuy then asks else bids;
      ghost var was := side[..];
      OccupiedClear(was, idx);
      hide Occupied;
      side[idx] := None;
      assert side[..] == was[idx := None];
      if isBuy { askCount := askCount - 1; } else { bidCount := bidCount - 1; }
    }

    /** The order in the slot goes on with less. */
    method ReplaceSlot(isBuy: bool, idx: nat, order: MarketOrder)
      requires Valid() && idx < MAX_ORDERS_PER_SIDE && Opposing(State(), isBuy)[idx].Some?
      modifies bids, asks
      ensures Valid()
      ensures State() == WithOpposing(old(State()), isBuy, Opposing(old(State()), isBuy)[idx := Some(order)])
    {
      var side := if isBuy then asks else bids;
      ghost var was := side[..];
      OccupiedUpdate(was, idx, order);
      hide Occupied;
      side[idx] := Some(order);
      assert side[..] == was[idx := Some(order)];
    }

    /** The matching loop. */
    method MatchIncoming(order: MarketOrder, tradesOut: array<TradeExecution>, tick: u64)
      returns (count: nat, incoming: MarketOrder)
      requires Valid()
      modifies this`bidCount, this`askCount, this`nextTradeId, bids, asks, tradesOut
      ensures Valid() && count <= tradesOut.Length && incoming.isBuy == order.isBuy
      ensures Progress(incoming, tradesOut[..count]) == Match(old(Progress(order, [])), tradesOut.Length, tick)
      ensures Own(State(), order.isBuy) == Own(old(State()), order.isBuy)
      ensures forall i :: count <= i < tradesOut.Length ==> tradesOut[i] == old(tradesOut[i])
    {
      hide Match, TradeAt, Best;
      count, incoming := 0, order;
      ghost var goal := Match(Progress(order, []), tradesOut.Length, tick);
      assert tradesOut[..0] == [];
      while incoming.remainingQuantity > 0 && count < tradesOut.Length
        invariant Valid() && count <= tradesOut.Length
        invariant incoming.isBuy == order.isBuy
        invariant Own(State(), order.isBuy) == Own(old(State()), order.isBuy)
        invariant goal == Match(Progress(incoming, tradesOut[..count]), tradesOut.Length - count, tick)
        invariant forall i :: count <= i < tradesOut.Length ==> tradesOut[i] == old(tradesOut[i])
        decreases tradesOut.Length - count
      {
        MatchUnfold(Progress(incoming, tradesOut[..count]), tradesOut.Length - count, tick);
        var best := FindBest(incoming);
        if best.None? {
          return;
        }
        incoming := ExecuteTrade(incoming, best.value, tradesOut, count, tick);
        count := count + 1;
      }
      MatchUnfold(Progress(incoming, tradesOut[..count]), tradesOut.Length - count, tick);
    }

    /** Trades stay made, and written out, even when the rest of the order cannot be rested. */
    method PlaceOrder(order: MarketOrder, tradesOut: array<TradeExecution>, currentTick: u64)
      returns (r: Result<(nat, MarketOrder), MarketError>)
      requires Valid()
      modifies this`bidCount, this`askCount, this`nextTradeId, bids, asks, tradesOut
      ensures Valid()
      ensures var p := Place(old(State()), order, tradesOut.Length, currentTick);
              && State() == p.book
              && |p.trades| <= tradesOut.Length && tradesOut[..|p.trades|] == p.trades
              && (forall i :: |p.trades| <= i < tradesOut.Length ==> tradesOut[i] == old(tradesOut[i]))
              && r == (if p.result.Ok? then Ok((|p.trades|, p.result.value)) else Err(p.result.error))
    {
      hide Match, Insert, Depth, Occupied;
      if order.unitPrice == 0 || order.initialQuantity == 0 {
        return Err(InvalidOrderParameters);
      }
      if order.orderType.FillOrKill? {
        var available := AvailableQuantity(order);
        if available < order.initialQuantity {
          return Err(FillOrKillUnfulfilled);
        }
      }
      var count, incoming := MatchIncoming(order, tradesOut, currentTick);
      if incoming.remainingQuantity == 0 {
        incoming := incoming.(status := Filled);
      } else if incoming.orderType.ImmediateOrCancel? {
        incoming := incoming.(status := if count > 0 then PartiallyFilled else Cancelled);
      } else if incoming.orderType.Limit? {
        incoming := incoming.(status := if count > 0 then PartiallyFilled else Active);
        var rested := InsertRestingOrder(incoming);
        if rested.Err? {
          return Err(rested.error);
        }
      }
      r := Ok((count, incoming));
    }
  }

  lemma {:induction false} DepthSnoc(side: Side, x: Option<MarketOrder>, o: MarketOrder)
    ensures Depth(side + [x], o) == Depth(side, o) + Depth([x], o)
  {
    if side == [] {
      assert side + [x] == [x];
    } else {
      assert (side + [x])[1..] == side[1..] + [x];
      DepthSnoc(side[1..], x, o);
    }
  }
}
