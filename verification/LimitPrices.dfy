/** Limit prices and the price grid: matching compares ticks, so prices that share a tick count as equal. */
module LimitPrices {
  import opened Trading
  import opened Reference
  import opened Markets
  import opened MarketRuns

  /** `price` is worse for the owner of `o` than the limit they set. */
  predicate Beyond(o: Order, price: real) {
    if o.side.Buy? then price > o.price else price < o.price
  }

  /** A resting price beyond the limit passes the crossing test exactly when the two prices share a tick. */
  lemma SharedTick(o: Order, r: Order)
    requires Beyond(o, r.price)
    ensures Crosses(o, r) <==> Tick(o) == Tick(r)
  {
    hide PriceToTick;
    if o.side.Buy? { TicksKeepOrder(o.price, r.price); } else { TicksKeepOrder(r.price, o.price); }
  }

  /** Resting order `i` is beyond the limit of `o`, shares its tick and stands where `o` is not used up. */
  predicate BreaksLimit(o: Order, opp: seq<Order>, i: nat)
    requires i < |opp|
  {
    Beyond(o, opp[i].price) && Tick(opp[i]) == Tick(o) && Reaches(o, opp, i)
  }

  /** When an order trades beyond its limit, told from the book before it arrives: exactly when some
      opposite order is beyond the limit on the limit's own tick and the quantity in front of it does not
      use the order up. For quantities of any sign. */
  lemma LimitBroken(book: Book, o: Order)
    requires Proper(book)
    ensures var opp := book.Side(o.side.Opposite());
      (exists e :: e in Submit(book, o).execs && Beyond(o, e.tradePrice))
      <==> exists i :: 0 <= i < |opp| && BreaksLimit(o, opp, i)
  {
    hide PriceToTick, StrNCopy, Sweep, Reaches, Sorted, Uncrossed, Crosses, Beyond;
    var own, opp, execs := book.Side(o.side), book.Side(o.side.Opposite()), Submit(book, o).execs;
    SweepTakesPrefix(o, own, opp);
    if e :| e in execs && Beyond(o, e.tradePrice) {
      var i :| 0 <= i < |execs| && execs[i] == e;
      SharedTick(o, opp[i]);
      TradesWith(o, own, opp, i);
      assert BreaksLimit(o, opp, i);
    }
    if i :| 0 <= i < |opp| && BreaksLimit(o, opp, i) {
      SharedTick(o, opp[i]);
      TradesWith(o, own, opp, i);
      assert execs[i] in execs && Beyond(o, execs[i].tradePrice);
    }
  }

  /** With positive quantities: exactly when the orders in front of one beyond the limit on the limit's
      tick are together for less than the order. */
  lemma LimitBrokenPositive(book: Book, o: Order)
    requires Proper(book) && o.quantity > 0 && Positive(book.Side(o.side.Opposite()))
    ensures var opp := book.Side(o.side.Opposite());
      (exists e :: e in Submit(book, o).execs && Beyond(o, e.tradePrice))
      <==> exists i :: && 0 <= i < |opp| && Beyond(o, opp[i].price) && Tick(opp[i]) == Tick(o)
                       && Ahead(opp, i) < o.quantity
  {
    hide PriceToTick, Submit, Proper, Reaches, Positive, Beyond;
    LimitBroken(book, o);
    var opp := book.Side(o.side.Opposite());
    forall i | 0 <= i < |opp| ensures Reaches(o, opp, i) <==> Ahead(opp, i) < o.quantity {
      PositiveReaches(o, opp, i);
    }
    if i :| 0 <= i < |opp| && BreaksLimit(o, opp, i) {
      assert Beyond(o, opp[i].price) && Tick(opp[i]) == Tick(o) && Ahead(opp, i) < o.quantity;
    }
    if i :| 0 <= i < |opp| && Beyond(o, opp[i].price) && Tick(opp[i]) == Tick(o) && Ahead(opp, i) < o.quantity {
      assert BreaksLimit(o, opp, i);
    }
  }

  // ---------------------------------------------------------------------------------------------
  // By how much

  /** Prices on one tick are less than a cent apart. Only tick 0 is wider, because the conversion truncates
      towards zero: it also takes prices down to -0.015. */
  lemma TickWidth(p: real, q: real)
    requires PriceToTick(p) == PriceToTick(q)
    ensures q - p < 0.02
    ensures PriceToTick(p) != 0 || (p >= 0.0 && q >= 0.0) ==> q - p < 0.01
  {
    if p >= 0.0 && q >= 0.0 {
      hide PriceToTick;
      NearestTick(p);
      NearestTick(q);
    }
  }

  /** `price` is beyond the limit of `o` by at least `amount`. */
  predicate BeyondBy(o: Order, price: real, amount: real) {
    if o.side.Buy? then price - o.price >= amount else o.price - price >= amount
  }

  /** The limit is kept to less than a cent: a trade that goes beyond it is at the limit's own tick and,
      unless that is tick 0 and a price is negative, by less than a cent; in that case by less than two. */
  lemma LimitWithinACent(book: Book, o: Order)
    ensures forall e :: e in Submit(book, o).execs ==>
      && (Beyond(o, e.tradePrice) ==> PriceToTick(e.tradePrice) == Tick(o))
      && !BeyondBy(o, e.tradePrice, 0.02)
      && (Tick(o) != 0 || (o.price >= 0.0 && e.tradePrice >= 0.0) ==> !BeyondBy(o, e.tradePrice, 0.01))
  {
    hide PriceToTick, StrNCopy, Sweep;
    var opp := book.Side(o.side.Opposite());
    SweepTakesPrefix(o, book.Side(o.side), opp);
    forall e | e in Submit(book, o).execs
      ensures Beyond(o, e.tradePrice) ==> PriceToTick(e.tradePrice) == Tick(o)
      ensures !BeyondBy(o, e.tradePrice, 0.02)
      ensures Tick(o) != 0 || (o.price >= 0.0 && e.tradePrice >= 0.0) ==> !BeyondBy(o, e.tradePrice, 0.01)
    {
      var i :| 0 <= i < |Submit(book, o).execs| && Submit(book, o).execs[i] == e;
      if Beyond(o, opp[i].price) {
        SharedTick(o, opp[i]);
        if o.side.Buy? { TickWidth(o.price, opp[i].price); } else { TickWidth(opp[i].price, o.price); }
      }
    }
  }

  /** It does happen: a BUY limited to 0.996 pays 1.004, for both prices are on tick 100. */
  lemma PaysBeyondLimit(o: Order, r: Order)
    requires o.side.Buy? && o.price == 0.996 && r.side.Sell? && r.price == 1.004
    ensures Proper(Book([], [r])) && Beyond(o, 1.004)
    ensures var execs := Submit(Book([], [r]), o).execs; |execs| > 0 && execs[0].tradePrice == 1.004
  {
    hide StrNCopy;
    assert o.price * 100.0 + 0.5 == 100.1 && (100.1).Floor == 100;
    assert r.price * 100.0 + 0.5 == 100.9 && (100.9).Floor == 100;
    assert Crosses(o, r);
  }

  /** Tick 0 does hold prices more than a cent apart: a BUY limited to -0.014 pays 0.004. */
  lemma PaysBeyondByMore(o: Order, r: Order)
    requires o.side.Buy? && o.price == -0.014 && r.side.Sell? && r.price == 0.004
    ensures Proper(Book([], [r])) && Tick(o) == 0 && BeyondBy(o, 0.004, 0.01)
    ensures var execs := Submit(Book([], [r]), o).execs; |execs| > 0 && execs[0].tradePrice == 0.004
  {
    hide StrNCopy;
    assert o.price * 100.0 + 0.5 == -0.9 && (0.9).Floor == 0;
    assert r.price * 100.0 + 0.5 == 0.9;
    assert Crosses(o, r);
  }

  // ---------------------------------------------------------------------------------------------
  // Prices on the grid

  /** The price is the price of its tick. */
  predicate OnGrid(price: real) { TickToPrice(PriceToTick(price)) == price }

  predicate GridQueue(queue: seq<Order>) {
    forall o :: o in queue ==> OnGrid(o.price)
  }

  ghost predicate GridMarket(m: Market) {
    forall k :: k in m.books ==> GridQueue(m.books[k].bids) && GridQueue(m.books[k].asks)
  }

  /** With all prices on the grid no trade goes beyond the limit. */
  lemma GridKeepsLimit(book: Book, o: Order)
    requires OnGrid(o.price) && GridQueue(book.Side(o.side.Opposite()))
    ensures forall e :: e in Submit(book, o).execs ==> !Beyond(o, e.tradePrice)
  {
    hide PriceToTick, StrNCopy, Sweep, BeyondBy;
    var opp, execs := book.Side(o.side.Opposite()), Submit(book, o).execs;
    SweepTakesPrefix(o, book.Side(o.side), opp);
    LimitWithinACent(book, o);
    forall e | e in execs ensures !Beyond(o, e.tradePrice) {
      var i :| 0 <= i < |execs| && execs[i] == e;
      assert opp[i] in opp;
    }
  }

  lemma SubmitKeepsGrid(book: Book, o: Order)
    requires Proper(book) && OnGrid(o.price) && GridQueue(book.bids) && GridQueue(book.asks)
    ensures GridQueue(Submit(book, o).book.bids) && GridQueue(Submit(book, o).book.asks)
  {
    hide OnGrid, Sweep, PriceToTick;
    SweepKeepsSides(o, book.Side(o.side), book.Side(o.side.Opposite()));
  }

  lemma AcceptKeepsLimit(m: Market, prefix: seq<Order>, o: Order)
    requires Orderly(m) && GridMarket(Run(m, prefix).market) && OnGrid(o.price)
    ensures var last := Accept(Run(m, prefix).market, o);
      GridMarket(last.market) && forall e :: e in last.execs ==> !Beyond(o, e.tradePrice)
  {
    hide OnGrid, Submit, SymKey, Beyond, Run;
    RunKeepsOrderly(m, prefix);
    var before := Run(m, prefix).market;
    var book := BookAt(before.books, SymKey(o.symbol));
    assert Proper(book) by { EmptyProper(); }
    GridKeepsLimit(book, o);
    SubmitKeepsGrid(book, o);
  }

  lemma {:induction false} RunKeepsGrid(m: Market, orders: seq<Order>)
    requires Orderly(m) && GridMarket(m) && GridQueue(orders)
    ensures GridMarket(Run(m, orders).market)
  {
    hide OnGrid, Accept, Orderly, GridMarket;
    if orders != [] {
      var prefix, o := orders[..|orders| - 1], orders[|orders| - 1];
      assert o in orders;
      RunKeepsGrid(m, prefix);
      AcceptKeepsLimit(m, prefix, o);
    }
  }

  /** In a run, no execution of order `k`, when its turn comes, is beyond its limit. */
  ghost predicate LimitKept(m: Market, orders: seq<Order>, k: nat)
    requires k < |orders|
  {
    forall e :: e in Accept(Run(m, orders[..k]).market, orders[k]).execs ==> !Beyond(orders[k], e.tradePrice)
  }

  /** In every run of orders with prices on the grid, every order's limit is kept. */
  lemma RunKeepsLimits(m: Market, orders: seq<Order>)
    requires Orderly(m) && GridMarket(m) && GridQueue(orders)
    ensures forall k :: 0 <= k < |orders| ==> LimitKept(m, orders, k)
  {
    hide OnGrid, Accept, Orderly, GridMarket, Run, Beyond;
    forall k | 0 <= k < |orders| ensures LimitKept(m, orders, k) {
      assert orders[k] in orders;
      RunKeepsGrid(m, orders[..k]);
      AcceptKeepsLimit(m, orders[..k], orders[k]);
    }
  }
}
