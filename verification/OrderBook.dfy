/**
 The regional order book: placing, resting and cancelling orders over two fixed arrays of
 slots. Placement and cancellation are first given as functions of the book's value, about
 which the book invariant is proved over every run; the class then implements them in place.
 */
module OrderBook {
  import opened SlotTables
  import opened Words
  import opened Matching
  import opened MatchingTotals

  const MAX_ORDERS_PER_SIDE := 64

  datatype MarketError =
    | OrderBookFull | DuplicateOrderId | OrderNotFound | UnauthorizedCancellation
    | InvalidOrderParameters | FillOrKillUnfulfilled | OrderNotActive

  datatype Book = Book(itemTypeId: u32, bids: Side, asks: Side, nextTradeId: nat)

  datatype Placement = Placement(book: Book, trades: seq<TradeExecution>, result: Result<MarketOrder, MarketError>)

  /** The side an incoming order trades against, and the side it would rest on. */
  function Opposing(b: Book, isBuy: bool): Side { if isBuy then b.asks else b.bids }

  function Own(b: Book, isBuy: bool): Side { if isBuy then b.bids else b.asks }

  function WithOpposing(b: Book, isBuy: bool, side: Side): Book {
    if isBuy then b.(asks := side) else b.(bids := side)
  }

  function WithOwn(b: Book, isBuy: bool, side: Side): Book {
    if isBuy then b.(bids := side) else b.(asks := side)
  }

  /** The first slot holding order `id`, or the side length when there is none. */
  function FindOrder(side: Side, id: u64): (k: nat)
    ensures k <= |side|
    ensures forall j :: 0 <= j < k ==> !(side[j].Some? && side[j].value.orderId == id)
    ensures k < |side| ==> side[k].Some? && side[k].value.orderId == id
  {
    if side == [] || (side[0].Some? && side[0].value.orderId == id) then 0
    else 1 + FindOrder(side[1..], id)
  }

  function Insert(side: Side, order: MarketOrder): (p: (Side, Result<(), MarketError>))
    ensures p.1.Err? ==> p.0 == side
  {
    if Occupied(side) >= MAX_ORDERS_PER_SIDE then (side, Err(OrderBookFull))
    else if FindOrder(side, order.orderId) < |side| then (side, Err(DuplicateOrderId))
    else
      var k := FirstEmpty(side);
      if k == |side| then (side, Err(OrderBookFull)) else (side[k := Some(order)], Ok(()))
  }

  function CancelOn(side: Side, k: nat, account: u64): (Side, Result<MarketOrder, MarketError>)
    requires k < |side| && side[k].Some?
  {
    if side[k].value.accountId != account then (side, Err(UnauthorizedCancellation))
    else (side[k := None], Ok(side[k].value.(status := Cancelled)))
  }

  /** Bids are searched before asks. */
  function Cancel(b: Book, id: u64, account: u64): (Book, Result<MarketOrder, MarketError>) {
    var k := FindOrder(b.bids, id);
    if k < |b.bids| then
      var (side, r) := CancelOn(b.bids, k, account); (b.(bids := side), r)
    else
      var l := FindOrder(b.asks, id);
      if l < |b.asks| then
        var (side, r) := CancelOn(b.asks, l, account); (b.(asks := side), r)
      else (b, Err(OrderNotFound))
  }

  /** The fill-or-kill depth check adds quantities in a 32-bit word. */
  function WrappedDepth(side: Side, o: MarketOrder): u32 { Depth(side, o) % 0x1_0000_0000 }

  /** The state of the matching loop when `o` arrives. */
  function Start(b: Book, o: MarketOrder): Fill { Fill(Opposing(b, o.isBuy), o, [], b.nextTradeId) }

  function StatusAfter(o: MarketOrder, traded: bool): OrderStatus {
    if o.remainingQuantity == 0 then Filled
    else if o.orderType.ImmediateOrCancel? then (if traded then PartiallyFilled else Cancelled)
    else if o.orderType.Limit? then (if traded then PartiallyFilled else Active)
    else o.status
  }

  /** Placing `o` with room for `room` trade records in the caller's output. */
  function Place(b: Book, o: MarketOrder, room: nat, tick: u64): Placement {
    if o.unitPrice == 0 || o.initialQuantity == 0 then
      Placement(b, [], Err(InvalidOrderParameters))
    else if o.orderType.FillOrKill? && WrappedDepth(Opposing(b, o.isBuy), o) < o.initialQuantity then
      Placement(b, [], Err(FillOrKillUnfulfilled))
    else
      var f := Match(Start(b, o), room, tick);
      var matched := WithOpposing(b, o.isBuy, f.side).(nextTradeId := f.nextTradeId);
      var final := f.incoming.(status := StatusAfter(f.incoming, f.trades != []));
      if final.remainingQuantity > 0 && final.orderType.Limit? then
        var (side, r) := Insert(Own(matched, o.isBuy), final);
        if r.Err? then Placement(matched, f.trades, Err(r.error))
        else Placement(WithOwn(matched, o.isBuy, side), f.trades, Ok(final))
      else Placement(matched, f.trades, Ok(final))
  }

  // ----- The book invariant -----

  ghost predicate UniqueIds(side: Side) {
    forall i, j :: 0 <= i < j < |side| && side[i].Some? && side[j].Some? ==>
      side[i].value.orderId != side[j].value.orderId
  }

  ghost predicate SideInv(side: Side, isBuy: bool) {
    && |side| == MAX_ORDERS_PER_SIDE
    && Positive(side)
    && UniqueIds(side)
    && forall i :: 0 <= i < |side| && side[i].Some? ==> side[i].value.isBuy == isBuy
  }

  /** No resting bid reaches a resting ask. */
  ghost predicate Uncrossed(b: Book) {
    forall i, j :: 0 <= i < |b.bids| && 0 <= j < |b.asks| && b.bids[i].Some? && b.asks[j].Some? ==>
      b.bids[i].value.unitPrice < b.asks[j].value.unitPrice
  }

  ghost predicate Inv(b: Book) {
    SideInv(b.bids, true) && SideInv(b.asks, false) && Uncrossed(b)
  }

  lemma ShrunkKeepsSide(s: Side, t: Side, isBuy: bool)
    requires SideInv(s, isBuy) && Shrunk(s, t) && Positive(t)
    ensures SideInv(t, isBuy)
  {
  }

  lemma InsertKeepsSide(side: Side, order: MarketOrder)
    requires SideInv(side, order.isBuy) && order.remainingQuantity > 0
    ensures var (side', r) := Insert(side, order);
            && SideInv(side', order.isBuy)
            && (r.Err? ==> side' == side)
            && (r.Ok? <==> Occupied(side) < MAX_ORDERS_PER_SIDE && FindOrder(side, order.orderId) == |side|)
            && (r.Ok? ==> && Occupied(side') == Occupied(side) + 1
                          && exists k :: 0 <= k < |side| && side[k].None? && side' == side[k := Some(order)])
  {
    OccupiedBound(side);
    var k := FirstEmpty(side);
    if k < |side| { OccupiedUpdate(side, k, order); }
  }

  lemma CancelKeepsInv(b: Book, id: u64, account: u64)
    requires Inv(b)
    ensures Inv(Cancel(b, id, account).0)
  {
  }

  /** The matched book: both sides sound, and nothing left to cross an unfilled order. */
  lemma MatchedBook(b: Book, o: MarketOrder, room: nat, tick: u64)
    requires Inv(b)
    ensures var f := Match(Start(b, o), room, tick);
            && Inv(WithOpposing(b, o.isBuy, f.side).(nextTradeId := f.nextTradeId))
            && PartOf(o, f.incoming)
            && (room >= MAX_ORDERS_PER_SIDE && f.incoming.remainingQuantity > 0 ==>
                  NothingCrosses(f.side, o))
  {
    var f0 := Start(b, o);
    MatchLeaves(f0, room, tick);
    var f := Match(f0, room, tick);
    ShrunkKeepsSide(f0.side, f.side, !o.isBuy);
    OccupiedBound(f0.side);
    if room >= MAX_ORDERS_PER_SIDE { MatchExhausts(f0, room, tick); }
    SameCrossings(f.side, o, f.incoming);
    ShrunkKeepsUncrossed(b, o.isBuy, f.side);
  }

  lemma ShrunkKeepsUncrossed(b: Book, isBuy: bool, side: Side)
    requires Uncrossed(b) && Shrunk(Opposing(b, isBuy), side)
    ensures Uncrossed(WithOpposing(b, isBuy, side))
  {
  }

  ghost predicate NothingCrosses(side: Side, o: MarketOrder) {
    forall i :: 0 <= i < |side| ==> !Eligible(side, o, i)
  }

  /** Resting an order keeps the book uncrossed exactly when nothing opposite crosses it. */
  lemma RestingUncrossed(b: Book, o: MarketOrder, k: nat)
    requires Uncrossed(b) && k < |Own(b, o.isBuy)| && Own(b, o.isBuy)[k].None?
    ensures Uncrossed(WithOwn(b, o.isBuy, Own(b, o.isBuy)[k := Some(o)]))
            <==> NothingCrosses(Opposing(b, o.isBuy), o)
  {
    var b' := WithOwn(b, o.isBuy, Own(b, o.isBuy)[k := Some(o)]);
    var own, opp := Own(b', o.isBuy), Opposing(b, o.isBuy);
    assert own[k] == Some(o);
    if Uncrossed(b') {
      forall i | 0 <= i < |opp|
        ensures !Eligible(opp, o, i)
      {
        if opp[i].Some? {
          if o.isBuy {
            assert b'.bids[k].Some? && b'.asks[i].Some?;
          } else {
            assert b'.bids[i].Some? && b'.asks[k].Some?;
          }
        }
      }
    }
    if NothingCrosses(opp, o) {
      forall i, j | 0 <= i < |b'.bids| && 0 <= j < |b'.asks| && b'.bids[i].Some? && b'.asks[j].Some?
        ensures b'.bids[i].value.unitPrice < b'.asks[j].value.unitPrice
      {
        assert !Eligible(opp, o, if o.isBuy then j else i);
      }
    }
  }

  lemma RestKeepsInv(b: Book, o: MarketOrder)
    requires Inv(b) && o.remainingQuantity > 0
    ensures var (side, r) := Insert(Own(b, o.isBuy), o);
            r.Ok? ==> (Inv(WithOwn(b, o.isBuy, side)) <==> NothingCrosses(Opposing(b, o.isBuy), o))
  {
    InsertKeepsSide(Own(b, o.isBuy), o);
    var (side, r) := Insert(Own(b, o.isBuy), o);
    if r.Ok? {
      var k :| 0 <= k < |side| && Own(b, o.isBuy)[k].None? && side == Own(b, o.isBuy)[k := Some(o)];
      RestingUncrossed(b, o, k);
    }
  }

  lemma SameCrossings(side: Side, o: MarketOrder, o': MarketOrder)
    requires o'.isBuy == o.isBuy && o'.unitPrice == o.unitPrice
    ensures NothingCrosses(side, o') == NothingCrosses(side, o)
  {
    assert forall i :: Eligible(side, o, i) == Eligible(side, o', i);
  }

  /** The book and order after the matching loop, before the order may come to rest. */
  function Matched(b: Book, o: MarketOrder, room: nat, tick: u64): (Book, MarketOrder) {
    var f := Match(Start(b, o), room, tick);
    (WithOpposing(b, o.isBuy, f.side).(nextTradeId := f.nextTradeId),
     f.incoming.(status := StatusAfter(f.incoming, f.trades != [])))
  }

  lemma PlaceRests(b: Book, o: MarketOrder, room: nat, tick: u64)
    requires Inv(b)
    ensures var (m, final) := Matched(b, o, room, tick); var p := Place(b, o, room, tick);
            && Inv(m) && final.isBuy == o.isBuy && final.unitPrice == o.unitPrice
            && final.orderType == o.orderType
            && (p.result.Ok? ==> p.result.value == final)
            && (p.result.Ok? && o.orderType.Limit? && final.remainingQuantity > 0 ==>
                  (Inv(p.book) <==> NothingCrosses(Match(Start(b, o), room, tick).side, o)))
            && (!(p.result.Ok? && o.orderType.Limit? && final.remainingQuantity > 0) ==>
                  p.book == m || p.book == b)
  {
    var (m, final) := Matched(b, o, room, tick);
    var f := Match(Start(b, o), room, tick);
    MatchedBook(b, o, room, tick);
    if final.remainingQuantity > 0 {
      RestKeepsInv(m, final);
      SameCrossings(f.side, o, final);
    }
    hide Match, Inv, Insert, NothingCrosses, Depth, StatusAfter;
  }

  // ----- Placement and cancellation in full -----

  /** Resting takes the first empty slot, and fails on a full side before it looks at identifiers. */
  lemma InsertExactly(side: Side, order: MarketOrder)
    requires SideInv(side, order.isBuy) && order.remainingQuantity > 0
    ensures var (side', r) := Insert(side, order);
            if Occupied(side) >= MAX_ORDERS_PER_SIDE then (side', r) == (side, Err(OrderBookFull))
            else if FindOrder(side, order.orderId) < |side| then (side', r) == (side, Err(DuplicateOrderId))
            else var k := FirstEmpty(side); k < |side| && r.Ok? && side' == side[k := Some(order)]
  {
    InsertKeepsSide(side, order);
  }

  /** What is left of a placed order tells its status. */
  predicate Reports(o: MarketOrder, left: u32, traded: bool, status: OrderStatus) {
    if left == 0 then status == Filled
    else match o.orderType
      case Limit => status == if traded then PartiallyFilled else Active
      case ImmediateOrCancel => status == if traded then PartiallyFilled else Cancelled
      case FillOrKill => status == o.status
  }

  /** What a placement that is not refused at the door leaves, with `left` of the order unfilled. */
  ghost predicate Placed(b: Book, o: MarketOrder, p: Placement, left: u32) {
    var own, rests := Own(b, o.isBuy), o.orderType.Limit? && left > 0;
    && p.book.itemTypeId == b.itemTypeId && p.book.nextTradeId == b.nextTradeId + |p.trades|
    && Shrunk(Opposing(b, o.isBuy), Opposing(p.book, o.isBuy))
    && if rests && Occupied(own) >= MAX_ORDERS_PER_SIDE then
         p.result == Err(OrderBookFull) && Own(p.book, o.isBuy) == own
       else if rests && FindOrder(own, o.orderId) < |own| then
         p.result == Err(DuplicateOrderId) && Own(p.book, o.isBuy) == own
       else
         && p.result.Ok?
         && p.result.value == o.(remainingQuantity := left, status := p.result.value.status)
         && Reports(o, left, p.trades != [], p.result.value.status)
         && var k := FirstEmpty(own);
            if rests then k < |own| && Own(p.book, o.isBuy) == own[k := Some(p.result.value)]
            else Own(p.book, o.isBuy) == own
  }

  /** The match as a placement sees it: what is left, and what the loop did to the other side. */
  lemma MatchedIs(b: Book, o: MarketOrder, room: nat, tick: u64)
    requires Inv(b)
    ensures var (m, final) := Matched(b, o, room, tick); var f := Match(Start(b, o), room, tick);
            && Quantity(f.trades) <= o.remainingQuantity
            && final.remainingQuantity == o.remainingQuantity - Quantity(f.trades)
            && final == o.(remainingQuantity := final.remainingQuantity, status := final.status)
            && Reports(o, final.remainingQuantity, f.trades != [], final.status)
            && m.itemTypeId == b.itemTypeId && m.nextTradeId == b.nextTradeId + |f.trades|
            && Own(m, o.isBuy) == Own(b, o.isBuy) && Shrunk(Opposing(b, o.isBuy), Opposing(m, o.isBuy))
            && SideInv(Own(m, o.isBuy), o.isBuy)
  {
    MatchConserves(Start(b, o), room, tick);
    MatchLeaves(Start(b, o), room, tick);
    assert Quantity([]) == 0;
    hide Match, Shrunk, Quantity, UniqueIds, Positive, Total, Depth, Value, Worth;
  }

  lemma PlaceUnfold(b: Book, o: MarketOrder, room: nat, tick: u64)
    ensures var p := Place(b, o, room, tick); var (m, final) := Matched(b, o, room, tick);
            var trades := Match(Start(b, o), room, tick).trades;
            if o.unitPrice == 0 || o.initialQuantity == 0 then
              p == Placement(b, [], Err(InvalidOrderParameters))
            else if o.orderType.FillOrKill? && WrappedDepth(Opposing(b, o.isBuy), o) < o.initialQuantity then
              p == Placement(b, [], Err(FillOrKillUnfulfilled))
            else if final.remainingQuantity > 0 && o.orderType.Limit? then
              var (side, r) := Insert(Own(m, o.isBuy), final);
              p == if r.Err? then Placement(m, trades, Err(r.error))
                   else Placement(WithOwn(m, o.isBuy, side), trades, Ok(final))
            else p == Placement(m, trades, Ok(final))
  {
    MatchKeepsOrder(Start(b, o), room, tick);
    hide Match, Insert, WrappedDepth, StatusAfter;
  }

  /** The loop changes nothing about the incoming order but its remaining quantity. */
  lemma {:induction false} MatchKeepsOrder(f: Fill, room: nat, tick: u64)
    ensures var o' := Match(f, room, tick).incoming; o' == f.incoming.(remainingQuantity := o'.remainingQuantity)
    decreases room
  {
    hide Best;
    if f.incoming.remainingQuantity > 0 && room > 0 && Best(f.side, f.incoming).Some? {
      MatchKeepsOrder(TradeAt(f, Best(f.side, f.incoming).value, tick), room - 1, tick);
    }
  }

  lemma PlacedIs(b: Book, o: MarketOrder, p: Placement, m: Book, final: MarketOrder)
    requires final == o.(remainingQuantity := final.remainingQuantity, status := final.status)
    requires Reports(o, final.remainingQuantity, p.trades != [], final.status)
    requires m.itemTypeId == b.itemTypeId && m.nextTradeId == b.nextTradeId + |p.trades|
    requires Own(m, o.isBuy) == Own(b, o.isBuy) && Shrunk(Opposing(b, o.isBuy), Opposing(m, o.isBuy))
    requires if final.remainingQuantity > 0 && o.orderType.Limit? then
               var (side, r) := Insert(Own(m, o.isBuy), final);
               p == (if r.Err? then Placement(m, p.trades, Err(r.error))
                     else Placement(WithOwn(m, o.isBuy, side), p.trades, Ok(final)))
             else p == Placement(m, p.trades, Ok(final))
    requires final.remainingQuantity > 0 ==>
               var side := Own(m, o.isBuy); var (side', r) := Insert(side, final);
               if Occupied(side) >= MAX_ORDERS_PER_SIDE then (side', r) == (side, Err(OrderBookFull))
               else if FindOrder(side, o.orderId) < |side| then (side', r) == (side, Err(DuplicateOrderId))
               else var k := FirstEmpty(side); k < |side| && r.Ok? && side' == side[k := Some(final)]
    ensures Placed(b, o, p, final.remainingQuantity)
  {
    hide Insert, Shrunk, FindOrder, FirstEmpty, Occupied, Reports;
  }

  /**
   Placement in full. It is refused at the door for invalid parameters or too little depth, the
   book untouched; otherwise it makes the matching loop's trades, and the opposing orders they
   leave differ from what they were in remaining quantity and status alone. What is left of a
   limit order rests in the first empty slot; a full side or a taken identifier is reported then,
   after the trades were made.
   */
  lemma PlaceExactly(b: Book, o: MarketOrder, room: nat, tick: u64)
    requires Inv(b)
    ensures var p := Place(b, o, room, tick);
            if o.unitPrice == 0 || o.initialQuantity == 0 then
              p == Placement(b, [], Err(InvalidOrderParameters))
            else if o.orderType.FillOrKill? && WrappedDepth(Opposing(b, o.isBuy), o) < o.initialQuantity then
              p == Placement(b, [], Err(FillOrKillUnfulfilled))
            else
              && p.trades == Match(Start(b, o), room, tick).trades
              && Quantity(p.trades) <= o.remainingQuantity
              && Placed(b, o, p, o.remainingQuantity - Quantity(p.trades))
  {
    hide *;
    PlaceUnfold(b, o, room, tick);
    MatchedIs(b, o, room, tick);
    var (m, final) := Matched(b, o, room, tick);
    if final.remainingQuantity > 0 { InsertExactly(Own(m, o.isBuy), final); }
    if o.unitPrice != 0 && o.initialQuantity != 0
       && !(o.orderType.FillOrKill? && WrappedDepth(Opposing(b, o.isBuy), o) < o.initialQuantity) {
      PlacedIs(b, o, Place(b, o, room, tick), m, final);
    }
  }

  /** The first order a cancellation comes to: bids before asks, slots in order. */
  ghost predicate FirstHeld(b: Book, id: u64, isBuy: bool, k: nat) {
    && HoldsAt(Own(b, isBuy), id, k)
    && (forall j: nat :: j < k ==> !HoldsAt(Own(b, isBuy), id, j))
    && (!isBuy ==> forall j: nat :: !HoldsAt(b.bids, id, j))
  }

  predicate HoldsAt(side: Side, id: u64, k: nat) {
    k < |side| && side[k].Some? && side[k].value.orderId == id
  }

  /**
   Cancellation in full: the first order found under the identifier leaves its slot, and nothing
   else changes, if it carries the caller's account; otherwise the call is refused and changes
   nothing.
   */
  lemma CancelExactly(b: Book, id: u64, account: u64, isBuy: bool, k: nat)
    requires FirstHeld(b, id, isBuy, k)
    ensures var side := Own(b, isBuy);
            Cancel(b, id, account) ==
            if side[k].value.accountId == account
            then (WithOwn(b, isBuy, side[k := None]), Ok(side[k].value.(status := Cancelled)))
            else (b, Err(UnauthorizedCancellation))
  {
    assert HoldsAt(Own(b, isBuy), id, FindOrder(Own(b, isBuy), id));
    assert FindOrder(b.bids, id) < |b.bids| ==> HoldsAt(b.bids, id, FindOrder(b.bids, id));
    hide FindOrder;
  }

  /** An order is not found exactly when neither side holds the identifier. */
  lemma CancelNotFound(b: Book, id: u64, account: u64)
    ensures Cancel(b, id, account) == (b, Err(OrderNotFound))
            <==> forall isBuy: bool, k: nat :: !HoldsAt(Own(b, isBuy), id, k)
    ensures Cancel(b, id, account).1 == Err(OrderNotFound) ==> Cancel(b, id, account).0 == b
  {
    assert FindOrder(b.bids, id) < |b.bids| ==> HoldsAt(Own(b, true), id, FindOrder(b.bids, id));
    assert FindOrder(b.asks, id) < |b.asks| ==> HoldsAt(Own(b, false), id, FindOrder(b.asks, id));
    hide FindOrder;
  }

  /** From b to b' only slots that held `id` for `account` were emptied. */
  ghost predicate OnlyEmptied(b: Book, b': Book, id: u64, account: u64) {
    forall isBuy: bool ::
      && |Own(b', isBuy)| == |Own(b, isBuy)|
      && forall k: nat :: k < |Own(b, isBuy)| && Own(b', isBuy)[k] != Own(b, isBuy)[k] ==>
           && Own(b', isBuy)[k].None? && HoldsAt(Own(b, isBuy), id, k)
           && Own(b, isBuy)[k].value.accountId == account
  }

  lemma OneEmptied(b: Book, isBuy: bool, k: nat, id: u64, account: u64)
    requires HoldsAt(Own(b, isBuy), id, k) && Own(b, isBuy)[k].value.accountId == account
    ensures OnlyEmptied(b, WithOwn(b, isBuy, Own(b, isBuy)[k := None]), id, account)
  {
  }

  /** Whoever cancels something owns it, and a refusal changes nothing. */
  lemma OnlyOwnersCancel(b: Book, id: u64, account: u64)
    ensures var (b', r) := Cancel(b, id, account);
            && OnlyEmptied(b, b', id, account)
            && (r.Err? ==> b' == b)
            && (r.Ok? ==> r.value.orderId == id && r.value.accountId == account)
  {
    var k, l := FindOrder(b.bids, id), FindOrder(b.asks, id);
    assert k < |b.bids| ==> FirstHeld(b, id, true, k);
    assert k == |b.bids| && l < |b.asks| ==> FirstHeld(b, id, false, l);
    assert k == |b.bids| && l == |b.asks| ==> Cancel(b, id, account) == (b, Err(OrderNotFound));
    hide Cancel, FindOrder;
    if k < |b.bids| {
      CancelExactly(b, id, account, true, k);
      if b.bids[k].value.accountId == account { OneEmptied(b, true, k, id, account); }
    } else if l < |b.asks| {
      CancelExactly(b, id, account, false, l);
      if b.asks[l].value.accountId == account { OneEmptied(b, false, l, id, account); }
    }
  }

  /** Placing keeps the book invariant when the output holds a trade per resting order. */
  lemma PlaceKeepsInv(b: Book, o: MarketOrder, room: nat, tick: u64)
    requires Inv(b) && room >= MAX_ORDERS_PER_SIDE
    ensures Inv(Place(b, o, room, tick).book)
  {
    PlaceRests(b, o, room, tick);
    MatchedBook(b, o, room, tick);
    hide Match, Inv, Place;
  }

  /** Whether a limit order with quantity left would come to rest on its own side. */
  predicate CanRest(b: Book, o: MarketOrder) {
    && o.orderType.Limit? && o.unitPrice > 0 && o.initialQuantity > 0
    && Occupied(Own(b, o.isBuy)) < MAX_ORDERS_PER_SIDE
    && FindOrder(Own(b, o.isBuy), o.orderId) == |Own(b, o.isBuy)|
  }

  /** More orders cross than the output has room for, and the first `room` of them do not fill `o`. */
  predicate Unfinished(side: Side, o: MarketOrder, slots: seq<nat>, room: nat)
    requires forall k :: 0 <= k < |slots| ==> slots[k] < |side|
  {
    room < |slots| && Covered(side, slots[..room]) < o.remainingQuantity
  }

  lemma RankedSlots(side: Side, o: MarketOrder, slots: seq<nat>)
    requires Ranking(side, o, slots)
    ensures forall k :: 0 <= k < |slots| ==> slots[k] < |side|
  {
    RankingApart(side, o, slots);
  }

  /** What the loop leaves of an order, read off the ranked orders it crosses. */
  lemma MatchedExactly(b: Book, o: MarketOrder, room: nat, tick: u64, slots: seq<nat>)
    requires Inv(b) && Ranking(Opposing(b, o.isBuy), o, slots)
    ensures forall k :: 0 <= k < |slots| ==> slots[k] < |Opposing(b, o.isBuy)|
    ensures var f := Match(Start(b, o), room, tick); var side := Opposing(b, o.isBuy);
            && f.incoming.remainingQuantity == Max(o.remainingQuantity - Covered(side, slots[..Min(room, |slots|)]), 0)
            && (f.incoming.remainingQuantity > 0 && !NothingCrosses(f.side, o) <==> Unfinished(side, o, slots, room))
  {
    hide Match, Covered, Ranking, Best;
    RankedSlots(Opposing(b, o.isBuy), o, slots);
    var f := Match(Start(b, o), room, tick);
    MatchCovers(Start(b, o), slots, room, tick);
    MatchLeaves(Start(b, o), room, tick);
    BestIsSome(f.side, f.incoming);
    SameCrossings(f.side, o, f.incoming);
  }

  lemma BestIsSome(side: Side, o: MarketOrder)
    ensures Best(side, o).None? <==> NothingCrosses(side, o)
  {
    BestIsFirst(side, o, |side|);
  }

  lemma InsertSucceeds(b: Book, o: MarketOrder)
    requires Inv(b) && o.remainingQuantity > 0
    ensures Insert(Own(b, o.isBuy), o).1.Ok?
            <==> Occupied(Own(b, o.isBuy)) < MAX_ORDERS_PER_SIDE
                 && FindOrder(Own(b, o.isBuy), o.orderId) == |Own(b, o.isBuy)|
  {
    InsertKeepsSide(Own(b, o.isBuy), o);
  }

  /**
   Exactly when a placement leaves a sound book, for every output length: unless a limit order
   that can rest is left unfinished by an output too short for the trades it needs.
   */
  lemma OutputNeeded(b: Book, o: MarketOrder, room: nat, tick: u64, slots: seq<nat>)
    requires Inv(b) && Ranking(Opposing(b, o.isBuy), o, slots)
    ensures forall k :: 0 <= k < |slots| ==> slots[k] < |Opposing(b, o.isBuy)|
    ensures Inv(Place(b, o, room, tick).book)
            <==> !(CanRest(b, o) && Unfinished(Opposing(b, o.isBuy), o, slots, room))
  {
    MatchedExactly(b, o, room, tick, slots);
    PlaceRests(b, o, room, tick);
    var (m, final) := Matched(b, o, room, tick);
    MatchLeaves(Start(b, o), room, tick);
    if final.remainingQuantity > 0 { InsertSucceeds(m, final); }
    hide Match, Inv, Insert, NothingCrosses, Unfinished, Ranking, Depth, StatusAfter, FindOrder, Occupied,
         PartOf, Shrunk;
  }

  lemma NoOrders(itemTypeId: u32)
    ensures var b := Empty(itemTypeId);
            && |b.bids| == MAX_ORDERS_PER_SIDE == |b.asks|
            && (forall i :: 0 <= i < MAX_ORDERS_PER_SIDE ==> b.bids[i].None? && b.asks[i].None?)
            && Occupied(b.bids) == 0 == Occupied(b.asks)
            && forall id :: FindOrder(b.bids, id) == |b.bids| && FindOrder(b.asks, id) == |b.asks|
  {
    var b := Empty(itemTypeId);
    NothingOccupied(b.bids);
    NothingOccupied(b.asks);
    forall id: u64
      ensures FindOrder(b.bids, id) == |b.bids| && FindOrder(b.asks, id) == |b.asks|
    {
      hide FindOrder;
      NotFound(b.bids, id);
      NotFound(b.asks, id);
    }
  }

  function OneAskBook(ask: MarketOrder): Book {
    Empty(1).(asks := Empty(1).asks[0 := Some(ask)])
  }

  lemma OneAsk(ask: MarketOrder)
    requires !ask.isBuy && ask.remainingQuantity > 0
    ensures var b := OneAskBook(ask);
            && Inv(b) && |b.asks| > 0 && b.asks[0] == Some(ask)
            && Occupied(b.bids) == 0 && |b.bids| == MAX_ORDERS_PER_SIDE
            && forall id :: FindOrder(b.bids, id) == |b.bids|
  {
    var b := OneAskBook(ask);
    NoOrders(1);
    assert b.bids == Empty(1).bids && b.asks == Empty(1).asks[0 := Some(ask)];
    hide Occupied, Empty, OneAskBook;
  }

  /** An order that something crosses is left unfinished by an output without room. */
  lemma NoRoomUnfinished(side: Side, o: MarketOrder, i: nat)
    requires Eligible(side, o, i) && o.remainingQuantity > 0
    ensures Ranking(side, o, Ranked(side, o))
    ensures forall k :: 0 <= k < |Ranked(side, o)| ==> Ranked(side, o)[k] < |side|
    ensures Unfinished(side, o, Ranked(side, o), 0)
  {
    RankingExists(side, o);
    RankedSlots(side, o, Ranked(side, o));
    CoveredNothing(side, Ranked(side, o)[..0]);
    hide Ranked, Covered;
  }

  /** One ask of one unit, a limit purchase that meets it, and an output with no room: a crossed book. */
  lemma ShortOutputCrosses(tick: u64)
    ensures var b := OneAskBook(Ask(1, 1));
            var buy := MarketOrder(2, 8, 1, true, 5, 1, 1, 3, Limit, Active, 0, 1000);
            Inv(b) && !Inv(Place(b, buy, 0, tick).book)
  {
    var b := OneAskBook(Ask(1, 1));
    var buy := MarketOrder(2, 8, 1, true, 5, 1, 1, 3, Limit, Active, 0, 1000);
    OneAsk(Ask(1, 1));
    hide OneAskBook, Inv, Place, Ranking, Ranked, Unfinished, FindOrder, Occupied;
    NoRoomUnfinished(b.asks, buy, 0);
    OutputNeeded(b, buy, 0, tick, Ranked(b.asks, buy));
  }

  lemma {:induction false} NotFound(side: Side, id: u64)
    requires forall i :: 0 <= i < |side| ==> side[i].None?
    ensures FindOrder(side, id) == |side|
  {
  }

  // ----- Fill-or-kill -----

  /**
   A fill-or-kill order is refused with the book untouched, exactly when the wrapped depth falls
   short (or its parameters are invalid). Otherwise it takes what the first `room` crossing
   orders hold, so it is filled exactly when these hold enough.
   */
  lemma FillOrKillExactly(b: Book, o: MarketOrder, room: nat, tick: u64, slots: seq<nat>)
    requires Inv(b) && o.orderType.FillOrKill? && Ranking(Opposing(b, o.isBuy), o, slots)
    ensures forall k :: 0 <= k < |slots| ==> slots[k] < |Opposing(b, o.isBuy)|
    ensures var p := Place(b, o, room, tick); var side := Opposing(b, o.isBuy);
            && (p.result.Ok? <==> o.unitPrice > 0 && o.initialQuantity > 0
                                   && WrappedDepth(side, o) >= o.initialQuantity)
            && (p.result.Err? ==> p.book == b && p.trades == [])
            && (p.result.Ok? ==>
                  && p.result.value.remainingQuantity + Quantity(p.trades) == o.remainingQuantity
                  && (p.result.value.remainingQuantity == 0
                      <==> Covered(side, slots[..Min(room, |slots|)]) >= o.remainingQuantity))
  {
    hide Place, Match, Covered, Inv, Ranking, Unfinished, NothingCrosses, WrappedDepth, Quantity, Opposing, Start;
    PlaceFillOrKill(b, o, room, tick);
    MatchedExactly(b, o, room, tick, slots);
    MatchedTrades(b, o, room, tick);
  }

  lemma MatchedTrades(b: Book, o: MarketOrder, room: nat, tick: u64)
    ensures var f := Match(Start(b, o), room, tick);
            f.incoming.remainingQuantity + Quantity(f.trades) == o.remainingQuantity
  {
    hide Match;
    MatchConserves(Start(b, o), room, tick);
  }

  lemma PlaceFillOrKill(b: Book, o: MarketOrder, room: nat, tick: u64)
    requires o.orderType.FillOrKill? && Inv(b)
    ensures var p := Place(b, o, room, tick); var f := Match(Start(b, o), room, tick);
            && (p.result.Ok? <==> o.unitPrice > 0 && o.initialQuantity > 0
                                  && WrappedDepth(Opposing(b, o.isBuy), o) >= o.initialQuantity)
            && (p.result.Err? ==> p.book == b && p.trades == [])
            && (p.result.Ok? ==> p.trades == f.trades
                                 && p.result.value.remainingQuantity == f.incoming.remainingQuantity)
  {
    MatchLeaves(Start(b, o), room, tick);
    hide Match, WrappedDepth, Insert, StatusAfter, Inv, Shrunk, Positive, Occupied, Best;
  }

  /**
   A fresh fill-or-kill order with room for a trade per resting order is filled completely, or
   nothing at all happens; it is refused although there is depth exactly when the depth wraps.
   */
  lemma FillOrKillIsAllOrNothing(b: Book, o: MarketOrder, room: nat, tick: u64)
    requires Inv(b) && room >= MAX_ORDERS_PER_SIDE
    requires o.orderType.FillOrKill? && o.remainingQuantity == o.initialQuantity
    requires o.unitPrice > 0 && o.initialQuantity > 0
    ensures var p := Place(b, o, room, tick);
            && (p.result.Ok? ==> p.result.value.remainingQuantity == 0 && p.result.value.status == Filled
                                 && Quantity(p.trades) == o.initialQuantity)
            && (p.result.Err? ==> p.result.error == FillOrKillUnfulfilled && p.book == b && p.trades == [])
    ensures var depth := Depth(Opposing(b, o.isBuy), o);
            && (Place(b, o, room, tick).result.Ok? ==> depth >= o.initialQuantity)
            && (depth >= o.initialQuantity && Place(b, o, room, tick).result.Err?
                <==> depth >= 0x1_0000_0000 && depth % 0x1_0000_0000 < o.initialQuantity)
  {
    hide Match, Depth, Quantity, Inv;
    var depth := Depth(Opposing(b, o.isBuy), o);
    DepthWraps(depth, o.initialQuantity);
    if depth >= o.initialQuantity { CompleteFill(b, o, room, tick); }
  }

  lemma DepthWraps(depth: nat, q: u32)
    ensures depth % 0x1_0000_0000 >= q ==> depth >= q
    ensures depth >= q && depth % 0x1_0000_0000 < q <==> depth >= 0x1_0000_0000 && depth % 0x1_0000_0000 < q
  {
  }

  /** With depth enough, the loop fills the order and its trades add up to it. */
  lemma CompleteFill(b: Book, o: MarketOrder, room: nat, tick: u64)
    requires Inv(b) && room >= MAX_ORDERS_PER_SIDE && Depth(Opposing(b, o.isBuy), o) >= o.remainingQuantity
    ensures var f := Match(Start(b, o), room, tick);
            f.incoming == o.(remainingQuantity := 0) && Quantity(f.trades) == o.remainingQuantity
  {
    hide Match, Depth;
    var f0 := Start(b, o);
    OccupiedBound(f0.side);
    FilledIsMinOfDepth(f0, room, tick);
    MatchConserves(f0, room, tick);
    MatchLeaves(f0, room, tick);
  }

  function Ask(id: u64, quantity: u32): MarketOrder {
    MarketOrder(id, 7, 1, false, 5, quantity, quantity, 3, Limit, Active, 0, 1000)
  }

  /** Two asks of 2^31 units hold plenty, yet a fill-or-kill purchase of one unit is killed. */
  lemma WrappedDepthRejects(rest: Side, tick: u64)
    requires |rest| == MAX_ORDERS_PER_SIDE - 2 && forall i :: 0 <= i < |rest| ==> rest[i].None?
    ensures var asks := [Some(Ask(1, 0x8000_0000)), Some(Ask(2, 0x8000_0000))] + rest;
            var buy := MarketOrder(3, 8, 1, true, 5, 1, 1, 3, FillOrKill, Active, 0, 1000);
            && Inv(Book(1, rest + [None, None], asks, 1))
            && Depth(asks, buy) == 0x1_0000_0000
            && Place(Book(1, rest + [None, None], asks, 1), buy, 64, tick).result == Err(FillOrKillUnfulfilled)
  {
    var asks := [Some(Ask(1, 0x8000_0000)), Some(Ask(2, 0x8000_0000))] + rest;
    var buy := MarketOrder(3, 8, 1, true, 5, 1, 1, 3, FillOrKill, Active, 0, 1000);
    NoDepth(rest, buy);
    assert asks[1..] == [Some(Ask(2, 0x8000_0000))] + rest && asks[1..][1..] == rest;
  }

  // ----- Runs -----

  datatype Op =
    | PlaceOp(order: MarketOrder, room: nat, tick: u64)
    | CancelOp(orderId: u64, accountId: u64)

  function Apply(b: Book, op: Op): Book {
    match op
    case PlaceOp(o, room, tick) => Place(b, o, room, tick).book
    case CancelOp(id, account) => Cancel(b, id, account).0
  }

  function Empty(itemTypeId: u32): Book {
    var none := seq(MAX_ORDERS_PER_SIDE, _ => None);
    Book(itemTypeId, none, none, 1)
  }

  /** The operation is no limit order that can rest and for which the output is too short. */
  predicate Fits(b: Book, op: Op) {
    match op
    case PlaceOp(o, room, _) =>
      var side := Opposing(b, o.isBuy);
      RankingExists(side, o);
      RankedSlots(side, o, Ranked(side, o));
      !(CanRest(b, o) && Unfinished(side, o, Ranked(side, o), room))
    case CancelOp(_, _) => true
  }

  /** What one operation needs, exactly. */
  lemma OpKeepsInv(b: Book, op: Op)
    requires Inv(b)
    ensures Inv(Apply(b, op)) <==> Fits(b, op)
  {
    match op {
      case PlaceOp(o, room, tick) =>
        RankingExists(Opposing(b, o.isBuy), o);
        OutputNeeded(b, o, room, tick, Ranked(Opposing(b, o.isBuy), o));
      case CancelOp(id, account) => CancelKeepsInv(b, id, account);
    }
  }

  /** An output with a trade per resting order always fits. */
  lemma FullOutputFits(b: Book, op: Op)
    requires Inv(b) && (op.PlaceOp? ==> op.room >= MAX_ORDERS_PER_SIDE)
    ensures Fits(b, op)
  {
    if op.PlaceOp? { PlaceKeepsInv(b, op.order, op.room, op.tick); }
    hide Inv, Place, Fits;
    OpKeepsInv(b, op);
  }

  /** The book after the first n operations of a run. */
  function BookAt(itemTypeId: u32, ops: seq<Op>, n: nat): Book
    requires n <= |ops|
  {
    if n == 0 then Empty(itemTypeId) else Apply(BookAt(itemTypeId, ops, n - 1), ops[n - 1])
  }

  lemma EmptyIsSound(itemTypeId: u32)
    ensures Inv(Empty(itemTypeId))
  {
  }

  lemma {:induction false} FittingRunKeepsInv(itemTypeId: u32, ops: seq<Op>, n: nat)
    requires n <= |ops|
    requires forall m: nat :: m < n ==> Fits(BookAt(itemTypeId, ops, m), ops[m])
    ensures Inv(BookAt(itemTypeId, ops, n))
  {
    hide Fits, Apply, Inv, Empty;
    if n == 0 {
      EmptyIsSound(itemTypeId);
    } else {
      FittingRunKeepsInv(itemTypeId, ops, n - 1);
      OpKeepsInv(BookAt(itemTypeId, ops, n - 1), ops[n - 1]);
    }
  }

  /** The book is uncrossed and positive at every moment of the run. */
  ghost predicate AlwaysSound(itemTypeId: u32, ops: seq<Op>) {
    forall n: nat :: n <= |ops| ==> Inv(BookAt(itemTypeId, ops, n))
  }

  /** No output of the run is too short for an order that could rest. */
  ghost predicate AlwaysFits(itemTypeId: u32, ops: seq<Op>) {
    forall n: nat :: n < |ops| ==> Fits(BookAt(itemTypeId, ops, n), ops[n])
  }

  lemma NextBook(itemTypeId: u32, ops: seq<Op>, n: nat)
    requires n < |ops|
    ensures BookAt(itemTypeId, ops, n + 1) == Apply(BookAt(itemTypeId, ops, n), ops[n])
  {
    hide Apply;
  }

  lemma SoundMeansFits(itemTypeId: u32, ops: seq<Op>, n: nat)
    requires AlwaysSound(itemTypeId, ops) && n < |ops|
    ensures Fits(BookAt(itemTypeId, ops, n), ops[n])
  {
    hide Inv, Fits, Apply, BookAt;
    NextBook(itemTypeId, ops, n);
    OpKeepsInv(BookAt(itemTypeId, ops, n), ops[n]);
  }

  /** Over every run of placements and cancellations: sound throughout if and only if every output fits. */
  lemma EveryRunKeepsInv(itemTypeId: u32, ops: seq<Op>)
    ensures AlwaysSound(itemTypeId, ops) <==> AlwaysFits(itemTypeId, ops)
  {
    hide Inv, Fits, BookAt;
    if AlwaysFits(itemTypeId, ops) {
      forall n: nat | n <= |ops|
        ensures Inv(BookAt(itemTypeId, ops, n))
      {
        FittingRunKeepsInv(itemTypeId, ops, n);
      }
    }
    if AlwaysSound(itemTypeId, ops) {
      forall n: nat | n < |ops|
        ensures Fits(BookAt(itemTypeId, ops, n), ops[n])
      {
        SoundMeansFits(itemTypeId, ops, n);
      }
    }
  }

  /** In particular every run into full-size outputs keeps it so. */
  lemma {:induction false} FullOutputsKeepInv(itemTypeId: u32, ops: seq<Op>, n: nat)
    requires forall op :: op in ops && op.PlaceOp? ==> op.room >= MAX_ORDERS_PER_SIDE
    requires n <= |ops|
    ensures Inv(BookAt(itemTypeId, ops, n))
  {
    hide Fits, Apply, Inv, Empty;
    if n == 0 {
      EmptyIsSound(itemTypeId);
    } else {
      FullOutputsKeepInv(itemTypeId, ops, n - 1);
      assert ops[n - 1] in ops;
      FullOutputFits(BookAt(itemTypeId, ops, n - 1), ops[n - 1]);
      OpKeepsInv(BookAt(itemTypeId, ops, n - 1), ops[n - 1]);
    }
  }

  /**
   Cancelling undoes resting: the book is as it was, and the order comes back cancelled, if
   and only if no bid carries a resting ask's identifier (cancellation looks at bids first).
   */
  lemma CancelUndoesRest(b: Book, o: MarketOrder)
    requires Inv(b) && o.remainingQuantity > 0 && Insert(Own(b, o.isBuy), o).1.Ok?
    ensures var rested := WithOwn(b, o.isBuy, Insert(Own(b, o.isBuy), o).0);
            Cancel(rested, o.orderId, o.accountId) == (b, Ok(o.(status := Cancelled)))
            <==> o.isBuy || FindOrder(b.bids, o.orderId) == |b.bids|
  {
    InsertKeepsSide(Own(b, o.isBuy), o);
    var own := Own(b, o.isBuy);
    var (side, _) := Insert(own, o);
    var k :| 0 <= k < |side| && own[k].None? && side == own[k := Some(o)];
    RestedIsFound(own, o, k);
    hide Insert, FindOrder, Occupied, UniqueIds, Positive;
    var m := FindOrder(b.bids, o.orderId);
    if !o.isBuy && m < |b.bids| { assert b.bids[m := None] != b.bids; }
  }

  lemma RestedIsFound(own: Side, o: MarketOrder, k: nat)
    requires k < |own| && own[k].None? && FindOrder(own, o.orderId) == |own|
    ensures FindOrder(own[k := Some(o)], o.orderId) == k && own[k := Some(o)][k := None] == own
  {
    var side := own[k := Some(o)];
    assert side[k] == Some(o);
  }

  /** The exception: a bid with the ask's identifier is found first, and that is what gets cancelled or refused. */
  lemma ShadowedCancel(b: Book, o: MarketOrder)
    requires Inv(b) && !o.isBuy && FindOrder(b.bids, o.orderId) < |b.bids|
    ensures var k := FindOrder(b.bids, o.orderId); var rested := b.(asks := Insert(b.asks, o).0);
            Cancel(rested, o.orderId, o.accountId) ==
            if b.bids[k].value.accountId != o.accountId then (rested, Err(UnauthorizedCancellation))
            else (rested.(bids := b.bids[k := None]), Ok(b.bids[k].value.(status := Cancelled)))
  {
    hide Inv, Insert, FindOrder;
  }

  /** It happens: another account's bid under the identifier of an ask that can rest. */
  lemma ShadowedCancelFails()
    ensures var b := OneBidBook(Ask(1, 1).(isBuy := true, unitPrice := 4, accountId := 9));
            && Inv(b) && Insert(b.asks, Ask(1, 1)).1.Ok?
            && Cancel(b.(asks := Insert(b.asks, Ask(1, 1)).0), 1, 7).1 == Err(UnauthorizedCancellation)
  {
    hide Inv, Insert, FindOrder, Occupied, Cancel;
    var bid := Ask(1, 1).(isBuy := true, unitPrice := 4, accountId := 9);
    OneBid(bid);
    hide OneBidBook;
    InsertSucceeds(OneBidBook(bid), Ask(1, 1));
    ShadowedCancel(OneBidBook(bid), Ask(1, 1));
  }

  function OneBidBook(bid: MarketOrder): Book {
    Empty(1).(bids := Empty(1).bids[0 := Some(bid)])
  }

  /** An otherwise empty book with one sound order is sound. */
  lemma OneBid(bid: MarketOrder)
    requires bid.isBuy && bid.remainingQuantity > 0
    ensures var b := OneBidBook(bid);
            && Inv(b) && |b.bids| > 0 && b.bids[0] == Some(bid) && FindOrder(b.bids, bid.orderId) == 0
            && Occupied(b.asks) == 0 && |b.asks| == MAX_ORDERS_PER_SIDE
            && forall id :: FindOrder(b.asks, id) == |b.asks|
  {
    var b := OneBidBook(bid);
    NoOrders(1);
    assert b.asks == Empty(1).asks && b.bids == Empty(1).bids[0 := Some(bid)];
    hide Occupied, Empty, OneBidBook;
  }
}
