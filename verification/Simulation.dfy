/** The whole system: orders file -> parser -> matching engine -> ring -> ledger. */
module Simulation {
  import opened Trading
  import opened Fix
  import opened FixRoundTrip
  import opened Markets
  import opened MarketRuns
  import opened LimitPrices
  import opened OrderBooks
  import Reference
  import Spsc
  import Ledger
  import Pipeline

  /** The execution thread: every order read from the file goes straight into the engine. */
  method RunFile(book: OrderBook, data: Text, clock: nat -> int) returns (execs: seq<Execution>)
    requires book.Valid()
    modifies book, book.pool, book.pool.slab, book.pool.freeStack, book.repr
    ensures book.Valid() && fresh(book.repr - old(book.repr))
    ensures Accepted(execs, book.Value()) == Run(old(book.Value()), ReadLines(data, clock, 0))
  {
    hide OrderBook.Valid, ReadLines;
    var orders := ReadFile(data, clock);
    execs := book.Replay(orders);
  }

  /** End to end. Printed orders of positive quantity are read, matched and pushed; once both threads
      are idle, the ring is empty and nothing was dropped, the positions are the ledger of exactly the
      executions the reference market gives for those orders, and each symbol's position obeys the
      conservation law of its fills. */
  lemma EndToEnd(quotes: seq<Quote>, clock: nat -> int, m: Market,
                 start: Pipeline.Pipe, events: seq<Pipeline.Event>, symbol: seq<Byte>)
    requires forall q :: q in quotes ==> Printable(q) && q.quantity > 0
    requires Orderly(m) && AllPositive(m)
    requires Pipeline.Unfolds(start, events)
    requires var p := Pipeline.State(start, events);
      && Pipeline.Idle(p) && p.ring.head == p.ring.tail && p.dropped == 0
      && p.generated == Run(m, ReadLines(Print(quotes), clock, 0)).execs
    ensures var p := Pipeline.State(start, events);
      var execs := Run(m, AsOrders(quotes, clock, 0)).execs;
      var entry := Ledger.At(p.positions, symbol);
      && p.positions == Ledger.Book(execs)
      && Ledger.IsFinite(entry) && entry.quantity == Ledger.Net(execs, symbol) as real
      && Ledger.Balance(entry) == -Ledger.Cash(execs, symbol)
  {
    hide Pipeline.State, Pipeline.Unfolds, Run, ReadLines, Print, Ledger.Book, Ledger.FillsOf, Ledger.Fold, Printable,
         Orderly, AllPositive, Ledger.AllDefined, Spsc.Contents, Ledger.NetQuantity, Ledger.CashPaid, Ledger.Balance,
         Ledger.IsFinite, Ledger.PositiveFills, Ledger.Net, Ledger.Cash;
    RoundTrip(quotes, clock, 0);
    var orders := AsOrders(quotes, clock, 0);
    forall o | o in orders ensures o.quantity > 0 {
      var k :| 0 <= k < |orders| && orders[k] == o;
      assert quotes[k] in quotes;
    }
    RunKeepsPositive(m, orders);
    Pipeline.FinalReport(start, events);
    Pipeline.PositionsFollowOrder(start, events);
    var execs := Run(m, orders).execs;
    Ledger.BookBySymbol(execs, symbol);
    Ledger.FillsPositive(execs, symbol);
    Ledger.NetOfExecutions(execs, symbol);
    Ledger.CashOfExecutions(execs, symbol);
    Ledger.RunBalance(Ledger.FillsOf(execs, symbol));
  }

  /** Printed prices are on the grid, so no order read back from such a file trades beyond its limit. */
  lemma PrintedOrdersKeepLimits(quotes: seq<Quote>, clock: nat -> int, m: Market)
    requires forall q :: q in quotes ==> Printable(q)
    requires Orderly(m) && GridMarket(m)
    ensures var orders := ReadLines(Print(quotes), clock, 0);
      forall k :: 0 <= k < |orders| ==> LimitKept(m, orders, k)
  {
    hide LimitKept, ReadLines, Print, Printable, Orderly, GridMarket, PriceToTick;
    RoundTrip(quotes, clock, 0);
    var orders := AsOrders(quotes, clock, 0);
    forall o | o in orders ensures OnGrid(o.price) {
      var k :| 0 <= k < |orders| && orders[k] == o;
      TickRoundTrip(quotes[k].cents);
    }
    RunKeepsLimits(m, orders);
  }

  /** With orders of at least zero, a symbol's position is a number after every execution exactly when no
      execution for nothing, by an incoming BUY, finds the symbol flat. */
  lemma FiniteIffNothingBoughtFlat(m: Market, orders: seq<Order>, symbol: seq<Byte>)
    requires AllNonNegative(m) && NonNegative(orders)
    ensures var fills := Ledger.FillsOf(Run(m, orders).execs, symbol);
      (forall k :: 0 <= k <= |fills| ==> Ledger.IsFinite(Ledger.Fold(Ledger.FLAT, fills[..k])))
      <==> forall i :: 0 <= i < |fills| ==> !Ledger.BuysNothingFlat(fills, i)
  {
    hide Run, Ledger.FillsOf, Ledger.IsFinite, Ledger.Fold, Ledger.AllDefined, Ledger.BuysNothingFlat;
    RunKeepsNonNegative(m, orders);
    var fills := Ledger.FillsOf(Run(m, orders).execs, symbol);
    Ledger.FillsNonNegative(Run(m, orders).execs, symbol);
    Ledger.FiniteIffDefined(fills);
    Ledger.NonNegativeDefined(fills);
  }

  /** It does happen: a BUY line without tag 38 that crosses a resting SELL, first of all. It is executed
      for nothing, and the position of its symbol is no number. */
  lemma MissingQuantity(sell: Order, fields: seq<Field>, arrivalNs: int, m: Market)
    requires (forall f :: f in fields ==> WellFormed(f)) && Unique(fields) && Lookup(fields, "38").Absent?
    requires m.books == map[] && m.capacity >= 2
    requires sell.side.Sell? && sell.quantity >= 0
    requires var buy := Parse(Join(fields), arrivalNs);
      buy.side.Buy? && buy.symbol == sell.symbol && 0 <= Tick(sell) <= Tick(buy) < m.maxTicks
    ensures var buy := Parse(Join(fields), arrivalNs);
      var execs := Run(m, [sell, buy]).execs;
      && execs == [Reference.Trade(buy, sell, 0)]
      && Ledger.At(Ledger.Book(execs), CString(execs[0].symbol)).averageEntryPrice == Ledger.NonFinite
  {
    var buy := Parse(Join(fields), arrivalNs);
    assert buy.quantity == 0 by {
      hide Lookup, Parse, Join, Unique, Padded, Atof;
      ParsedFields(fields, arrivalNs);
    }
    NothingTraded(sell, buy, m);
    var execs := Run(m, [sell, buy]).execs;
    NothingBooked(execs[0]);
  }

  lemma NothingTraded(sell: Order, buy: Order, m: Market)
    requires m.books == map[] && m.capacity >= 2
    requires sell.side.Sell? && sell.quantity >= 0 && buy.side.Buy? && buy.quantity == 0
    requires buy.symbol == sell.symbol && 0 <= Tick(sell) <= Tick(buy) < m.maxTicks
    ensures Run(m, [sell, buy]).execs == [Reference.Trade(buy, sell, 0)]
  {
    hide PriceToTick, StrNCopy, SymKey;
    var key, book := SymKey(sell.symbol), Reference.Book([], [sell]);
    assert [sell, buy][..1] == [sell] && [sell][..0] == [];
    assert Run(m, []) == Accepted([], m);
    assert Reference.Submit(Reference.EMPTY, sell) == Reference.Step([], book);
    assert Run(m, [sell]) == Accepted([], m.(books := map[key := book]));
    RestingUpdate(map[], key, book);
    assert Reference.Submit(book, buy).execs == [Reference.Trade(buy, sell, 0)];
  }

  lemma NothingBooked(e: Execution)
    requires e.side.Buy? && e.quantity == 0
    ensures Ledger.At(Ledger.Book([e]), CString(e.symbol)).averageEntryPrice == Ledger.NonFinite
  {
    hide CString, Ledger.Fold;
    var fill := Ledger.Fill(Buy, 0.0, e.tradePrice);
    assert [e][..0] == [];
    assert Ledger.FillsOf([e][..0], CString(e.symbol)) == [];
    assert Ledger.FillsOf([e], CString(e.symbol)) == [fill];
    Ledger.BookBySymbol([e], CString(e.symbol));
    Ledger.BuyOfNothing(e.tradePrice);
  }
}
