/**
 Totals over a matching: quantity and money are conserved, the filled quantity is the smaller
 of what was asked and what crosses, price-time priority is respected, and no other way of
 taking the same quantity from the crossing orders is cheaper for a buyer or dearer for a seller.
 */
module MatchingTotals {
  import opened SlotTables
  import opened Words
  import opened Matching

  function Remaining(slot: Option<MarketOrder>): nat {
    if slot.Some? then slot.value.remainingQuantity else 0
  }

  function Price(slot: Option<MarketOrder>): nat {
    if slot.Some? then slot.value.unitPrice else 0
  }

  /** Everything still for sale (or wanted) on a side. */
  function Total(side: Side): nat {
    if side == [] then 0 else Remaining(side[0]) + Total(side[1..])
  }

  function Worth(side: Side): nat {
    if side == [] then 0 else Remaining(side[0]) * Price(side[0]) + Worth(side[1..])
  }

  /** What an incoming order could trade with. */
  function Depth(side: Side, o: MarketOrder): nat {
    if side == [] then 0
    else (if side[0].Some? && Crosses(o, side[0].value.unitPrice) then Remaining(side[0]) else 0)
         + Depth(side[1..], o)
  }

  function Quantity(trades: seq<TradeExecution>): nat {
    if trades == [] then 0 else Quantity(trades[..|trades| - 1]) + trades[|trades| - 1].quantity
  }

  function Value(trades: seq<TradeExecution>): nat {
    if trades == [] then 0
    else
      var t := trades[|trades| - 1];
      Value(trades[..|trades| - 1]) + t.quantity * t.unitPrice
  }

  lemma {:induction false} TotalsUpdate(side: Side, i: nat, x: Option<MarketOrder>, o: MarketOrder)
    requires i < |side| && side[i].Some? && Crosses(o, side[i].value.unitPrice)
    requires x.Some? ==> x.value.unitPrice == side[i].value.unitPrice
    ensures Total(side[i := x]) == Total(side) - Remaining(side[i]) + Remaining(x)
    ensures Depth(side[i := x], o) == Depth(side, o) - Remaining(side[i]) + Remaining(x)
    ensures Worth(side[i := x]) == Worth(side) - Remaining(side[i]) * Price(side[i])
                                   + Remaining(x) * Price(side[i])
  {
    if i == 0 {
      assert side[i := x][1..] == side[1..];
    } else {
      TotalsUpdate(side[1..], i - 1, x, o);
      assert side[i := x][1..] == side[1..][i - 1 := x];
    }
  }

  lemma {:induction false} DepthSameFor(side: Side, o: MarketOrder, o': MarketOrder)
    requires o'.isBuy == o.isBuy && o'.unitPrice == o.unitPrice
    ensures Depth(side, o') == Depth(side, o)
  {
    if side != [] { DepthSameFor(side[1..], o, o'); }
  }

  /** What moved between two moments of a matching, counted four ways. */
  ghost predicate Conserves(f: Fill, f': Fill) {
    var filled := f.incoming.remainingQuantity - f'.incoming.remainingQuantity;
    && filled >= 0
    && Quantity(f'.trades) - Quantity(f.trades) == filled
    && Total(f.side) - Total(f'.side) == filled
    && Depth(f.side, f.incoming) - Depth(f'.side, f.incoming) == filled
    && Value(f'.trades) - Value(f.trades) == Worth(f.side) - Worth(f'.side)
  }

  lemma MulSplit(x: int, y: int, p: int)
    ensures (x + y) * p == x * p + y * p
  {
  }

  lemma TradeConserves(f: Fill, i: nat, tick: u64)
    requires Eligible(f.side, f.incoming, i)
    ensures Conserves(f, TradeAt(f, i, tick))
  {
    var f' := TradeAt(f, i, tick);
    assert f'.trades[..|f.trades|] == f.trades;
    TotalsUpdate(f.side, i, f'.side[i], f.incoming);
    var resting := f.side[i].value;
    var quantity := Min(f.incoming.remainingQuantity, resting.remainingQuantity);
    MulSplit(quantity, resting.remainingQuantity - quantity, resting.unitPrice);
    assert Remaining(f'.side[i]) == resting.remainingQuantity - quantity;
    assert Value(f'.trades) == Value(f.trades) + quantity * resting.unitPrice;
    hide Total, Depth, Worth, Value, Quantity;
  }

  lemma ConservesCompose(f: Fill, f1: Fill, f': Fill)
    requires Conserves(f, f1) && Conserves(f1, f')
    requires f1.incoming.isBuy == f.incoming.isBuy && f1.incoming.unitPrice == f.incoming.unitPrice
    ensures Conserves(f, f')
  {
    DepthSameFor(f1.side, f.incoming, f1.incoming);
    DepthSameFor(f'.side, f.incoming, f1.incoming);
  }

  /** Quantity and money are conserved by the whole loop, however much output it is given. */
  lemma {:induction false} MatchConserves(f: Fill, room: nat, tick: u64)
    ensures Conserves(f, Match(f, room, tick))
    decreases room
  {
    if f.incoming.remainingQuantity > 0 && room > 0 {
      var best := Best(f.side, f.incoming);
      if best.Some? {
        var f1 := TradeAt(f, best.value, tick);
        TradeConserves(f, best.value, tick);
        MatchConserves(f1, room - 1, tick);
        ConservesCompose(f, f1, Match(f1, room - 1, tick));
        hide Conserves;
      }
    }
  }

  lemma {:induction false} NoDepth(side: Side, o: MarketOrder)
    requires forall i :: 0 <= i < |side| ==> !Eligible(side, o, i)
    ensures Depth(side, o) == 0
  {
    if side != [] {
      assert !Eligible(side, o, 0);
      forall i | 0 <= i < |side| - 1
        ensures !Eligible(side[1..], o, i)
      {
        assert !Eligible(side, o, i + 1);
      }
      NoDepth(side[1..], o);
    }
  }

  /** The filled quantity is min(requested, crossing depth). */
  lemma FilledIsMinOfDepth(f: Fill, room: nat, tick: u64)
    requires Positive(f.side) && room >= Occupied(f.side)
    ensures f.incoming.remainingQuantity - Match(f, room, tick).incoming.remainingQuantity
            == Min(f.incoming.remainingQuantity, Depth(f.side, f.incoming))
  {
    var f' := Match(f, room, tick);
    MatchConserves(f, room, tick);
    MatchExhausts(f, room, tick);
    MatchLeaves(f, room, tick);
    if f'.incoming.remainingQuantity > 0 {
      NoDepth(f'.side, f'.incoming);
      DepthSameFor(f'.side, f.incoming, f'.incoming);
    }
  }

  /** Slot i crosses, precedes slot j, and slot j traded between f and f'. */
  ghost predicate PassedOver(f: Fill, f': Fill, i: nat, j: nat)
    requires |f'.side| == |f.side|
  {
    && Eligible(f.side, f.incoming, i) && Eligible(f.side, f.incoming, j)
    && Outranks(f.side, f.incoming.isBuy, i, j)
    && Remaining(f'.side[j]) < Remaining(f.side[j])
  }

  /** An order trades only if every crossing order ahead of it was filled completely. */
  ghost predicate RespectsPriority(f: Fill, f': Fill)
    requires |f'.side| == |f.side|
  {
    forall i: nat, j: nat :: PassedOver(f, f', i, j) ==> f'.side[i].None?
  }

  /** The first trade of a loop respects priority if the rest does. */
  lemma FirstTradeFirst(f: Fill, f1: Fill, f': Fill, k: nat)
    requires |f1.side| == |f'.side| == |f.side| && IsFirst(f.side, f.incoming, k)
    requires forall s :: 0 <= s < |f.side| && s != k ==> f1.side[s] == f.side[s]
    requires f1.incoming.isBuy == f.incoming.isBuy && f1.incoming.unitPrice == f.incoming.unitPrice
    requires Shrunk(f1.side, f'.side) && RespectsPriority(f1, f')
    requires f1.side[k].Some? ==> f' == f1
    ensures RespectsPriority(f, f')
  {
    forall i: nat, j: nat | PassedOver(f, f', i, j)
      ensures f'.side[i].None?
    {
      if i != k {
        assert PassedOver(f1, f', i, j);
      }
    }
  }

  lemma {:induction false} MatchRespectsPriority(f: Fill, room: nat, tick: u64)
    requires Positive(f.side)
    ensures RespectsPriority(f, Match(f, room, tick))
    decreases room
  {
    hide RespectsPriority, IsFirst, Shrunk, Positive, BestUpTo;
    var best := Best(f.side, f.incoming);
    if f.incoming.remainingQuantity == 0 || room == 0 || best.None? {
      NothingTraded(f);
    } else {
      var k := best.value;
      var f1, f' := TradeAt(f, k, tick), Match(f, room, tick);
      BestFirst(f.side, f.incoming);
      TradeAtStep(f, k, tick);
      MatchShrinks(f1, room - 1, tick);
      MatchRespectsPriority(f1, room - 1, tick);
      FirstTradeFirst(f, f1, f', k);
    }
  }

  /** Ahead by price for the incoming order, then by placement tick, then by slot. */
  ghost predicate ServedBefore(isBuy: bool, a: MarketOrder, i: nat, b: MarketOrder, j: nat) {
    || (if isBuy then a.unitPrice < b.unitPrice else a.unitPrice > b.unitPrice)
    || (a.unitPrice == b.unitPrice && a.placedTick < b.placedTick)
    || (a.unitPrice == b.unitPrice && a.placedTick == b.placedTick && i < j)
  }

  /**
   Price-time priority: when anything was taken from an order, each order the incoming one could
   pay at a better price, or at the same price and placed earlier, has been filled completely.
   */
  lemma EarlierServedFirst(f: Fill, room: nat, tick: u64, i: nat, j: nat)
    requires Positive(f.side) && i < |f.side| && j < |f.side| && f.side[i].Some? && f.side[j].Some?
    requires ServedBefore(f.incoming.isBuy, f.side[i].value, i, f.side[j].value, j)
    requires Match(f, room, tick).side[j] != f.side[j]
    ensures Match(f, room, tick).side[i].None?
    ensures var price := f.side[j].value.unitPrice;
            if f.incoming.isBuy then price <= f.incoming.unitPrice else price >= f.incoming.unitPrice
  {
    var f' := Match(f, room, tick);
    MatchRespectsPriority(f, room, tick);
    MatchLeaves(f, room, tick);
    OnlyCrossingTraded(f, room, tick, j);
    hide Match;
    assert Eligible(f.side, f.incoming, j) && Eligible(f.side, f.incoming, i);
    assert PassedOver(f, f', i, j);
  }

  lemma {:induction false} OnlyCrossingTraded(f: Fill, room: nat, tick: u64, j: nat)
    requires j < |f.side| && Match(f, room, tick).side[j] != f.side[j]
    ensures Eligible(f.side, f.incoming, j)
    decreases room
  {
    hide Best;
    MatchUnfold(f, room, tick);
    if f.incoming.remainingQuantity > 0 && room > 0 && Best(f.side, f.incoming).Some? {
      var f1 := TradeAt(f, Best(f.side, f.incoming).value, tick);
      if f1.side[j] == f.side[j] {
        OnlyCrossingTraded(f1, room - 1, tick, j);
      }
    }
  }

  lemma NothingTraded(f: Fill)
    ensures RespectsPriority(f, f)
  {
  }

  lemma BestFirst(side: Side, o: MarketOrder)
    ensures Best(side, o).Some? ==> IsFirst(side, o, Best(side, o).value)
  {
    BestIsFirst(side, o, |side|);
  }

  lemma MatchShrinks(f: Fill, room: nat, tick: u64)
    requires Positive(f.side)
    ensures Shrunk(f.side, Match(f, room, tick).side)
  {
    MatchLeaves(f, room, tick);
  }

  // ----- Optimality -----

  /** A way of taking units from the orders that cross `o`. */
  ghost predicate Allocation(side: Side, o: MarketOrder, a: seq<nat>) {
    && |a| == |side|
    && forall i :: 0 <= i < |a| ==> a[i] <= (if Eligible(side, o, i) then Remaining(side[i]) else 0)
  }

  function Sum(a: seq<nat>): nat {
    if a == [] then 0 else a[0] + Sum(a[1..])
  }

  function Cost(side: Side, a: seq<nat>): nat
    requires |a| == |side|
  {
    if a == [] then 0 else a[0] * Price(side[0]) + Cost(side[1..], a[1..])
  }

  function TakenBy(s: Side, t: Side): (a: seq<nat>)
    requires Shrunk(s, t)
    ensures |a| == |s|
  {
    seq(|s|, i requires 0 <= i < |s| => Remaining(s[i]) - Remaining(t[i]))
  }

  lemma {:induction false} TakenTotals(s: Side, t: Side)
    requires Shrunk(s, t)
    ensures Sum(TakenBy(s, t)) == Total(s) - Total(t)
    ensures Cost(s, TakenBy(s, t)) == Worth(s) - Worth(t)
  {
    if s != [] {
      TakenTotals(s[1..], t[1..]);
      assert TakenBy(s, t)[1..] == TakenBy(s[1..], t[1..]);
      TakenWorth(Remaining(s[0]), Remaining(t[0]), Price(s[0]), Price(t[0]));
      assert t[0].Some? ==> Price(t[0]) == Price(s[0]);
      hide Remaining, Price;
    }
  }

  lemma TakenWorth(before: int, after: int, price: int, price': int)
    ensures after == 0 || price' == price ==> (before - after) * price == before * price - after * price'
  {
  }

  /** What slot i contributes to `sign` times the cost of `a` over `g`, measured from a pivot price. */
  function Pull(side: Side, a: seq<nat>, g: seq<nat>, pivot: int, sign: int, i: nat): int
    requires |a| == |g| == |side| && i < |a|
  {
    sign * ((a[i] as int - g[i]) * (Price(side[i]) - pivot))
  }

  lemma PullIs(d: int, x: int, y: int, p: int, pivot: int, sign: int)
    requires d == x - y
    ensures sign * (d * (p - pivot)) == sign * (x * p - y * p) - sign * (pivot * d)
  {
    assert d * (p - pivot) == x * p - y * p - pivot * d;
  }

  lemma Distribute(sign: int, pivot: int, d: int, e: int)
    ensures sign * (pivot * (d + e)) == sign * (pivot * d) + sign * (pivot * e)
    ensures sign * (d + e) == sign * d + sign * e
  {
    assert pivot * (d + e) == pivot * d + pivot * e;
  }

  /** If every slot pulls the same way, so does the sum. */
  lemma {:induction false} CostAgainstPivot(side: Side, a: seq<nat>, g: seq<nat>, pivot: int, sign: int)
    requires |a| == |g| == |side|
    requires forall i :: 0 <= i < |a| ==> Pull(side, a, g, pivot, sign, i) >= 0
    ensures sign * (Cost(side, a) - Cost(side, g)) >= sign * (pivot * (Sum(a) - Sum(g)))
  {
    if a != [] {
      forall i | 0 <= i < |a| - 1
        ensures Pull(side[1..], a[1..], g[1..], pivot, sign, i) >= 0
      {
        assert Pull(side, a, g, pivot, sign, i + 1) >= 0;
      }
      CostAgainstPivot(side[1..], a[1..], g[1..], pivot, sign);
      assert Pull(side, a, g, pivot, sign, 0) >= 0;
      var x: int, y: int, p: int := a[0], g[0], Price(side[0]);
      var restCost: int := Cost(side[1..], a[1..]) - Cost(side[1..], g[1..]);
      var restSum: int := Sum(a[1..]) - Sum(g[1..]);
      PullIs(x - y, x, y, p, pivot, sign);
      Distribute(sign, pivot, x - y, restSum);
      Distribute(sign, pivot, x * p - y * p, restCost);
      assert Cost(side, a) - Cost(side, g) == (x * p - y * p) + restCost;
      assert Sum(a) - Sum(g) == (x - y) + restSum;
    }
  }

  /** Among the slots traded with, one whose price is the worst for the incoming order. */
  lemma {:induction false} WorstTaken(side: Side, g: seq<nat>, isBuy: bool, n: nat) returns (w: Option<nat>)
    requires |g| == |side| && n <= |g|
    ensures w.None? ==> forall i :: 0 <= i < n ==> g[i] == 0
    ensures w.Some? ==> w.value < n && g[w.value] > 0
                        && forall i :: 0 <= i < n && g[i] > 0 ==>
                             if isBuy then Price(side[i]) <= Price(side[w.value])
                             else Price(side[i]) >= Price(side[w.value])
  {
    if n == 0 {
      w := None;
    } else {
      w := WorstTaken(side, g, isBuy, n - 1);
      if g[n - 1] > 0 {
        if w.None? || (if isBuy then Price(side[n - 1]) > Price(side[w.value])
                       else Price(side[n - 1]) < Price(side[w.value])) {
          w := Some(n - 1);
        }
      }
    }
  }

  lemma {:induction false} SumZero(a: seq<nat>)
    ensures Sum(a) == 0 <==> forall i :: 0 <= i < |a| ==> a[i] == 0
  {
    if a != [] {
      SumZero(a[1..]);
      assert forall i :: 1 <= i < |a| ==> a[i] == a[1..][i - 1];
    }
  }

  lemma SignOfProduct(x: int, y: int)
    ensures (x >= 0 && y >= 0) || (x <= 0 && y <= 0) ==> x * y >= 0
    ensures (x >= 0 && y <= 0) || (x <= 0 && y >= 0) ==> x * y <= 0
  {
  }

  lemma TakenIsAllocation(f: Fill, room: nat, tick: u64)
    requires Positive(f.side)
    ensures Shrunk(f.side, Match(f, room, tick).side)
    ensures Allocation(f.side, f.incoming, TakenBy(f.side, Match(f, room, tick).side))
  {
    MatchLeaves(f, room, tick);
    OnlyEligibleTaken(f, room, tick);
  }

  lemma {:induction false} OnlyEligibleTaken(f: Fill, room: nat, tick: u64)
    ensures forall i :: 0 <= i < |f.side| && !Eligible(f.side, f.incoming, i) ==>
              Match(f, room, tick).side[i] == f.side[i]
    decreases room
  {
    if f.incoming.remainingQuantity > 0 && room > 0 {
      var best := Best(f.side, f.incoming);
      if best.Some? { OnlyEligibleTaken(TradeAt(f, best.value, tick), room - 1, tick); }
    }
  }

  /**
   Optimality: whatever allocation takes the same quantity from the crossing orders, it costs
   a buyer at least, and earns a seller at most, what the loop's trades do.
   */
  lemma MatchIsOptimal(f: Fill, room: nat, tick: u64, a: seq<nat>)
    requires Positive(f.side) && Allocation(f.side, f.incoming, a)
    requires Sum(a) == f.incoming.remainingQuantity - Match(f, room, tick).incoming.remainingQuantity
    ensures var paid := Value(Match(f, room, tick).trades) - Value(f.trades);
            if f.incoming.isBuy then Cost(f.side, a) >= paid else Cost(f.side, a) <= paid
  {
    var f' := Match(f, room, tick);
    TakenIsAllocation(f, room, tick);
    MatchConserves(f, room, tick);
    MatchRespectsPriority(f, room, tick);
    TakenTotals(f.side, f'.side);
    var g := TakenBy(f.side, f'.side);
    GreedyIsOptimal(f, f', a, g);
  }

  lemma GreedyIsOptimal(f: Fill, f': Fill, a: seq<nat>, g: seq<nat>)
    requires Positive(f.side) && Shrunk(f.side, f'.side) && RespectsPriority(f, f')
    requires g == TakenBy(f.side, f'.side) && Allocation(f.side, f.incoming, g)
    requires Allocation(f.side, f.incoming, a) && Sum(a) == Sum(g)
    ensures if f.incoming.isBuy then Cost(f.side, a) >= Cost(f.side, g)
            else Cost(f.side, a) <= Cost(f.side, g)
  {
    var side, isBuy := f.side, f.incoming.isBuy;
    var sign := if isBuy then 1 else -1;
    var w := WorstTaken(side, g, isBuy, |g|);
    var pivot := if w.Some? then Price(side[w.value]) else 0;
    if w.None? {
      SumZero(g);
      SumZero(a);
      assert a == g;
    } else {
      forall i | 0 <= i < |a|
        ensures Pull(side, a, g, pivot, sign, i) >= 0
      {
        PullsOneWay(f, f', a, g, w.value, i);
      }
      CostAgainstPivot(side, a, g, pivot, sign);
    }
  }

  /** Ahead of the pivot everything was taken; behind it nothing was. */
  lemma PullsOneWay(f: Fill, f': Fill, a: seq<nat>, g: seq<nat>, w: nat, i: nat)
    requires Shrunk(f.side, f'.side) && RespectsPriority(f, f')
    requires g == TakenBy(f.side, f'.side) && Allocation(f.side, f.incoming, g)
    requires Allocation(f.side, f.incoming, a)
    requires w < |g| && g[w] > 0 && i < |g|
    requires g[i] > 0 ==> if f.incoming.isBuy then Price(f.side[i]) <= Price(f.side[w])
                          else Price(f.side[i]) >= Price(f.side[w])
    ensures Pull(f.side, a, g, Price(f.side[w]), if f.incoming.isBuy then 1 else -1, i) >= 0
  {
    var d: int, p: int := a[i] as int - g[i], Price(f.side[i]) as int - Price(f.side[w]);
    SignOfProduct(d, p);
    if !Eligible(f.side, f.incoming, i) {
      assert d == 0;
    } else if p != 0 && (p < 0) == f.incoming.isBuy {
      assert Eligible(f.side, f.incoming, w);
      assert PassedOver(f, f', i, w);
      assert d <= 0;
    } else {
      assert p == 0 || g[i] == 0;
    }
    assert Pull(f.side, a, g, Price(f.side[w]), if f.incoming.isBuy then 1 else -1, i)
           == (if f.incoming.isBuy then 1 else -1) * (d * p);
  }

  // ----- How much output a fill needs -----

  /** What the orders in the listed slots still hold. */
  function Covered(side: Side, slots: seq<nat>): nat
    requires forall k :: 0 <= k < |slots| ==> slots[k] < |side|
  {
    if slots == [] then 0 else Remaining(side[slots[0]]) + Covered(side, slots[1..])
  }

  lemma {:induction false} CoveredElsewhere(side: Side, i: nat, x: Option<MarketOrder>, slots: seq<nat>)
    requires i < |side| && i !in slots
    requires forall k :: 0 <= k < |slots| ==> slots[k] < |side|
    ensures Covered(side[i := x], slots) == Covered(side, slots)
    decreases |slots|
  {
    if slots != [] { CoveredElsewhere(side, i, x, slots[1..]); }
  }

  lemma CoveredFirst(side: Side, slots: seq<nat>, n: nat)
    requires forall k :: 0 <= k < |slots| ==> slots[k] < |side|
    requires 0 < n <= |slots|
    ensures Covered(side, slots[..n]) == Remaining(side[slots[0]]) + Covered(side, slots[1..][..n - 1])
  {
    assert slots[..n][1..] == slots[1..][..n - 1];
  }

  /**
   With room for n trades the loop takes what the first n crossing orders hold, and an order it
   leaves unfilled still has something to cross exactly when there are more than n of them.
   */
  lemma {:induction false} MatchCovers(f: Fill, slots: seq<nat>, room: nat, tick: u64)
    requires Positive(f.side) && Ranking(f.side, f.incoming, slots)
    ensures forall k :: 0 <= k < |slots| ==> slots[k] < |f.side|
    ensures var f' := Match(f, room, tick);
            && f'.incoming.remainingQuantity
               == Max(f.incoming.remainingQuantity - Covered(f.side, slots[..Min(room, |slots|)]), 0)
            && (f'.incoming.remainingQuantity > 0 ==> (Best(f'.side, f'.incoming).Some? <==> room < |slots|))
    decreases |slots|
  {
    hide Match, TradeAt, Best, Ranking, Covered, Positive, Remaining, Eligible, Outranks, Occupied, Shrunk, PartOf;
    RankingFirst(f.side, f.incoming, slots);
    RankingApart(f.side, f.incoming, slots);
    MatchUnfold(f, room, tick);
    if slots == [] || room == 0 {
      CoveredNothing(f.side, slots[..Min(room, |slots|)]);
    } else if f.incoming.remainingQuantity > 0 {
      var n, i := Min(room, |slots|), slots[0];
      var f1 := TradeAt(f, i, tick);
      CoveredFirst(f.side, slots, n);
      TradeAtStep(f, i, tick);
      TradeTakes(f, i, tick);
      if f1.side[i].None? {
        RankingRest(f, slots, tick);
        MatchCovers(f1, slots[1..], room - 1, tick);
        CoveredElsewhere(f.side, i, None, slots[1..][..n - 1]);
      } else {
        MatchUnfold(f1, room - 1, tick);
      }
    }
  }

  lemma CoveredNothing(side: Side, slots: seq<nat>)
    requires slots == []
    ensures Covered(side, slots) == 0
  {
  }

  /** One trade clears the slot exactly when the incoming order takes all it holds. */
  lemma TradeTakes(f: Fill, i: nat, tick: u64)
    requires i < |f.side| && f.side[i].Some?
    ensures var f1 := TradeAt(f, i, tick); var held := Remaining(f.side[i]);
            && f1.incoming.remainingQuantity == Max(f.incoming.remainingQuantity - held, 0)
            && (f1.side[i].None? <==> f.incoming.remainingQuantity >= held)
            && (f1.side[i].None? ==> f1.side == f.side[i := None])
  {
  }
}
