/** The matching loop seen on priority sequences: the order is already in the book, and the best bid
    and the best ask trade with each other until the two sides no longer cross. */
module Crossing {
  import opened Trading
  import opened Reference

  /** The record built for one trade; which of the two orders is the passive one is decided by the
      `aggressor` flag alone. */
  function BuildExecution(traded: int, ask: Order, bid: Order, symbol: Symbol, aggressor: Side): Execution {
    Execution(
      StrNCopy(bid.id), StrNCopy(ask.id), StrNCopy(symbol),
      if aggressor.Buy? then ask.price else bid.price,
      traded, aggressor,
      if aggressor.Buy? then bid.arrivalNs else ask.arrivalNs)
  }

  predicate CanTrade(bids: seq<Order>, asks: seq<Order>) {
    bids != [] && asks != [] && Tick(bids[0]) >= Tick(asks[0])
  }

  /** Takes `traded` off the front order, which leaves the queue when nothing remains of it. */
  function Consume(queue: seq<Order>, traded: int): seq<Order>
    requires queue != []
  {
    if queue[0].quantity - traded == 0 then queue[1..] else [Reduce(queue[0], traded)] + queue[1..]
  }

  datatype Crossed = Crossed(execs: seq<Execution>, bids: seq<Order>, asks: seq<Order>)

  function Cross(bids: seq<Order>, asks: seq<Order>, symbol: Symbol, aggressor: Side): Crossed
    decreases |bids| + |asks|
  {
    if !CanTrade(bids, asks) then Crossed([], bids, asks)
    else
      var traded := Min(asks[0].quantity, bids[0].quantity);
      var exec := BuildExecution(traded, asks[0], bids[0], symbol, aggressor);
      var more := Cross(Consume(bids, traded), Consume(asks, traded), symbol, aggressor);
      Crossed([exec] + more.execs, more.bids, more.asks)
  }

  /** One turn of the loop, after `done` executions. */
  lemma CrossTurn(done: seq<Execution>, bids: seq<Order>, asks: seq<Order>, symbol: Symbol, aggressor: Side)
    requires CanTrade(bids, asks)
    ensures var traded := Min(asks[0].quantity, bids[0].quantity);
      var exec := BuildExecution(traded, asks[0], bids[0], symbol, aggressor);
      var now := Cross(bids, asks, symbol, aggressor);
      var more := Cross(Consume(bids, traded), Consume(asks, traded), symbol, aggressor);
      && Crossed(done + now.execs, now.bids, now.asks) == Crossed(done + [exec] + more.execs, more.bids, more.asks)
      && |Consume(bids, traded)| + |Consume(asks, traded)| < |bids| + |asks|
  {
    hide BuildExecution, PriceToTick;
    var traded := Min(asks[0].quantity, bids[0].quantity);
    var exec := BuildExecution(traded, asks[0], bids[0], symbol, aggressor);
    var more := Cross(Consume(bids, traded), Consume(asks, traded), symbol, aggressor);
    assert done + ([exec] + more.execs) == done + [exec] + more.execs;
  }

  /** With a bid put into an uncrossed book, every trade of the loop has that bid as its buyer: the
      loop emits and leaves what sweeping the asks with it would. */
  lemma {:induction false} CrossWithNewBid(o: Order, bids: seq<Order>, asks: seq<Order>)
    requires o.side.Buy?
    requires Sorted(Sell, asks) && Uncrossed(bids, asks)
    ensures var out := Sweep(o, bids, asks);
      Cross(Insert(bids, o), asks, o.symbol, Buy) == Crossed(out.execs, out.own, out.opp)
    decreases |asks|
  {
    hide PriceToTick, StrNCopy;
    if asks == [] || !Crosses(o, asks[0]) {
      assert !CanTrade(Insert(bids, o), asks);
    } else {
      assert Insert(bids, o) == [o] + bids;
      var traded := Min(o.quantity, asks[0].quantity);
      var left := Reduce(o, traded);
      assert Consume([o] + bids, traded) == if left.quantity == 0 then bids else [left] + bids;
      if left.quantity == 0 {
        assert !CanTrade(bids, Consume(asks, traded));
      } else {
        assert [left] + bids == Insert(bids, left);
        CrossWithNewBid(left, bids, asks[1..]);
      }
    }
  }

  /** The same for an ask put into an uncrossed book. */
  lemma {:induction false} CrossWithNewAsk(o: Order, bids: seq<Order>, asks: seq<Order>)
    requires o.side.Sell?
    requires Sorted(Buy, bids) && Uncrossed(bids, asks)
    ensures var out := Sweep(o, asks, bids);
      Cross(bids, Insert(asks, o), o.symbol, Sell) == Crossed(out.execs, out.opp, out.own)
    decreases |bids|
  {
    hide PriceToTick, StrNCopy;
    if bids == [] || !Crosses(o, bids[0]) {
      assert !CanTrade(bids, Insert(asks, o));
    } else {
      assert Insert(asks, o) == [o] + asks;
      var traded := Min(o.quantity, bids[0].quantity);
      var left := Reduce(o, traded);
      assert Consume([o] + asks, traded) == if left.quantity == 0 then asks else [left] + asks;
      if left.quantity == 0 {
        assert !CanTrade(Consume(bids, traded), asks);
      } else {
        assert [left] + asks == Insert(asks, left);
        CrossWithNewAsk(left, bids[1..], asks);
      }
    }
  }
}
