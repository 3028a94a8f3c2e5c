/** What every run of the market keeps: order, isolation, conservation of quantity. */
module MarketRuns {
  import opened Trading
  import opened Reference
  import opened Markets

  // ---------------------------------------------------------------------------------------------
  // Order

  ghost predicate Orderly(m: Market) {
    && (forall k :: k in m.books ==> Proper(m.books[k]))
    && Resting(m.books) <= m.capacity
  }

  /** Every execution of an order, but perhaps the last, removes one resting order, and the order itself
      rests at most once; so it causes at most as many executions as there were opposite orders. */
  lemma SubmitSize(book: Book, o: Order)
    ensures var step := Submit(book, o);
      && |step.execs| <= |book.Side(o.side.Opposite())|
      && book.Size() - |step.execs| <= step.book.Size() <= book.Size() + 1 - |step.execs|
  {
    hide PriceToTick, StrNCopy;
    SweepTakesPrefix(o, book.Side(o.side), book.Side(o.side.Opposite()));
    SweepEnd(o, book.Side(o.side), book.Side(o.side.Opposite()));
  }

  /** Every market reached from an orderly one is orderly: each book sorted by tick then arrival and
      uncrossed, and never more orders than slots. */
  lemma {:induction false} RunKeepsOrderly(m: Market, orders: seq<Order>)
    requires Orderly(m)
    ensures Orderly(Run(m, orders).market)
  {
    hide PriceToTick, Submit, Proper, SymKey;
    if orders != [] {
      var before := Run(m, orders[..|orders| - 1]).market;
      var o := orders[|orders| - 1];
      RunKeepsOrderly(m, orders[..|orders| - 1]);
      if Enters(before, o) {
        var book := BookAt(before.books, SymKey(o.symbol));
        assert Proper(book) by { EmptyProper(); }
        SubmitKeepsProper(book, o);
        SubmitSize(book, o);
        RestingUpdate(before.books, SymKey(o.symbol), Submit(book, o).book);
      }
    }
  }

  // ---------------------------------------------------------------------------------------------
  // Isolation

  /** Only orders of the symbol itself change its book, in a whole run. */
  lemma {:induction false} RunKeepsOtherSymbols(m: Market, orders: seq<Order>, symbol: Symbol)
    requires forall o :: o in orders ==> o.symbol != symbol
    ensures BookAt(Run(m, orders).market.books, SymKey(symbol)) == BookAt(m.books, SymKey(symbol))
  {
    hide PriceToTick, Submit, SymKey;
    if orders != [] {
      RunKeepsOtherSymbols(m, orders[..|orders| - 1], symbol);
      var o := orders[|orders| - 1];
      if SymKey(o.symbol) == SymKey(symbol) {
        SymKeyInjective(o.symbol, symbol);
        assert false;
      }
    }
  }

  // ---------------------------------------------------------------------------------------------
  // Conservation

  /** Quantity of the selected orders resting in `queue`. */
  function Quantity(queue: seq<Order>, sel: Id -> bool): int {
    if queue == [] then 0
    else (if sel(StrNCopy(queue[0].id)) then queue[0].quantity else 0) + Quantity(queue[1..], sel)
  }

  /** Quantity that executions moved for the selected orders of one side. */
  function Volume(execs: seq<Execution>, side: Side, sel: Id -> bool): int {
    if execs == [] then 0
    else (if sel(if side.Buy? then execs[0].buyId else execs[0].sellId) then execs[0].quantity else 0)
         + Volume(execs[1..], side, sel)
  }

  lemma {:induction false} QuantityInsert(queue: seq<Order>, o: Order, sel: Id -> bool)
    ensures Quantity(Insert(queue, o), sel) == Quantity(queue, sel) + Quantity([o], sel)
  {
    hide PriceToTick, StrNCopy;
    if queue == [] || Better(o.side, Tick(o), Tick(queue[0])) {
      assert ([o] + queue)[1..] == queue;
    } else {
      QuantityInsert(queue[1..], o, sel);
      assert Insert(queue, o)[1..] == Insert(queue[1..], o);
    }
  }

  lemma {:induction false} VolumeConcat(a: seq<Execution>, b: seq<Execution>, side: Side, sel: Id -> bool)
    ensures Volume(a + b, side, sel) == Volume(a, side, sel) + Volume(b, side, sel)
  {
    if a == [] {
      assert a + b == b;
    } else {
      VolumeConcat(a[1..], b, side, sel);
      assert (a + b)[1..] == a[1..] + b;
    }
  }

  /** A sweep moves quantity, it creates and loses none: on each side, for any selection of order ids,
      what rests afterwards plus what was executed is what was there before. */
  lemma {:induction false} SweepConserves(o: Order, own: seq<Order>, opp: seq<Order>, sel: Id -> bool)
    ensures var out := Sweep(o, own, opp);
      && Quantity(out.own, sel) + Volume(out.execs, o.side, sel) == Quantity(own, sel) + Quantity([o], sel)
      && Quantity(out.opp, sel) + Volume(out.execs, o.side.Opposite(), sel) == Quantity(opp, sel)
    decreases |opp|
  {
    hide PriceToTick, StrNCopy;
    if opp == [] || !Crosses(o, opp[0]) {
      QuantityInsert(own, o, sel);
    } else {
      var traded := Min(o.quantity, opp[0].quantity);
      var exec := Trade(o, opp[0], traded);
      var left, rest := Reduce(o, traded), Reduce(opp[0], traded);
      var out := Sweep(o, own, opp);
      if left.quantity == 0 {
        assert [exec][1..] == [];
        assert ([rest] + opp[1..])[1..] == opp[1..];
      } else {
        SweepConserves(left, own, opp[1..], sel);
        var more := Sweep(left, own, opp[1..]);
        assert out.execs[1..] == more.execs;
      }
    }
  }

  /** The executions emitted while orders with this key were accepted. */
  ghost function SymbolExecs(m: Market, orders: seq<Order>, key: nat): seq<Execution> {
    if orders == [] then []
    else
      var prefix, o := orders[..|orders| - 1], orders[|orders| - 1];
      SymbolExecs(m, prefix, key)
      + (if SymKey(o.symbol) == key then Accept(Run(m, prefix).market, o).execs else [])
  }

  /** The grid and the number of slots never change. */
  lemma {:induction false} RunKeepsBounds(m: Market, orders: seq<Order>)
    ensures var end := Run(m, orders).market; end.maxTicks == m.maxTicks && end.capacity == m.capacity
  {
    hide PriceToTick, Submit, SymKey;
    if orders != [] { RunKeepsBounds(m, orders[..|orders| - 1]); }
  }

  /** What happens to one order. With a tick on the grid and a free slot its symbol's book takes it: for
      any selection of ids its own side gains what it brings, less what it traded, and the opposite side
      loses what was traded; the first order of a symbol rests as it is. In every other case nothing
      happens at all. The other symbols never notice. */
  lemma AcceptTakes(m: Market, o: Order, sel: Id -> bool)
    ensures var r, key := Accept(m, o), SymKey(o.symbol);
      var was, now := BookAt(m.books, key), BookAt(r.market.books, key);
      if 0 <= PriceToTick(o.price) < m.maxTicks && Resting(m.books) < m.capacity then
        && Quantity(now.Side(o.side), sel) + Volume(r.execs, o.side, sel)
           == Quantity(was.Side(o.side), sel) + Quantity([o], sel)
        && Quantity(now.Side(o.side.Opposite()), sel) + Volume(r.execs, o.side.Opposite(), sel)
           == Quantity(was.Side(o.side.Opposite()), sel)
        && Step(r.execs, now) == Submit(was, o)
        && (was == EMPTY ==> r.execs == [] && now.Side(o.side) == [o] && now.Size() == 1)
        && r.market == m.(books := m.books[key := now])
      else r.execs == [] && r.market == m
  {
    hide PriceToTick, StrNCopy, Quantity, Volume, SymKey;
    var was := BookAt(m.books, SymKey(o.symbol));
    SweepConserves(o, was.Side(o.side), was.Side(o.side.Opposite()), sel);
  }

  /** Quantity the selected orders of one symbol and side brought in, counting those that came with a tick
      on the grid while a slot was free. */
  ghost function Submitted(m: Market, orders: seq<Order>, key: nat, side: Side, sel: Id -> bool): int {
    if orders == [] then 0
    else
      var prefix, o := orders[..|orders| - 1], orders[|orders| - 1];
      Submitted(m, prefix, key, side, sel)
      + (if && SymKey(o.symbol) == key && o.side == side
            && 0 <= Tick(o) < m.maxTicks && Resting(Run(m, prefix).market.books) < m.capacity
         then Quantity([o], sel) else 0)
  }

  /** Conservation over every run, for every symbol, side and selection of order ids: quantity
      submitted = quantity still resting + quantity executed. With the selection of one id this is the
      account of that order; with all ids it is the side's total. */
  lemma {:induction false} RunConserves(m: Market, orders: seq<Order>, key: nat, side: Side, sel: Id -> bool)
    ensures Quantity(BookAt(Run(m, orders).market.books, key).Side(side), sel)
            + Volume(SymbolExecs(m, orders, key), side, sel)
         == Quantity(BookAt(m.books, key).Side(side), sel) + Submitted(m, orders, key, side, sel)
  {
    hide PriceToTick, StrNCopy, Submit, Quantity, SymKey, Accept;
    if orders == [] {
    } else {
      var prefix, o := orders[..|orders| - 1], orders[|orders| - 1];
      RunConserves(m, prefix, key, side, sel);
      var before := Run(m, prefix).market;
      RunKeepsBounds(m, prefix);
      AcceptTakes(before, o, sel);
      var here := if SymKey(o.symbol) == key then Accept(before, o).execs else [];
      VolumeConcat(SymbolExecs(m, prefix, key), here, side, sel);
      assert SymbolExecs(m, orders, key) == SymbolExecs(m, prefix, key) + here;
      assert side == o.side || side == o.side.Opposite();
    }
  }

  predicate Everyone(id: Id) { true }

  lemma {:induction false} VolumeAll(execs: seq<Execution>)
    ensures Volume(execs, Buy, Everyone) == Volume(execs, Sell, Everyone) == Filled(execs)
  {
    if execs != [] { VolumeAll(execs[1..]); }
  }

  /** From an empty book, in every run: what was bought was sold. */
  lemma BoughtIsSold(m: Market, orders: seq<Order>, key: nat)
    requires BookAt(m.books, key) == EMPTY
    ensures var end := BookAt(Run(m, orders).market.books, key);
      && Submitted(m, orders, key, Buy, Everyone) - Quantity(end.bids, Everyone)
         == Filled(SymbolExecs(m, orders, key))
         == Submitted(m, orders, key, Sell, Everyone) - Quantity(end.asks, Everyone)
  {
    hide Run, Submitted, SymbolExecs;
    RunConserves(m, orders, key, Buy, Everyone);
    RunConserves(m, orders, key, Sell, Everyone);
    VolumeAll(SymbolExecs(m, orders, key));
  }

  // ---------------------------------------------------------------------------------------------
  // One sweep, order by order

  predicate Positive(queue: seq<Order>) {
    forall o :: o in queue ==> o.quantity > 0
  }

  /** Total quantity on offer to `o`: of all resting orders, wherever they stand, that it crosses. */
  function Depth(o: Order, opp: seq<Order>): int {
    if opp == [] then 0
    else (if Crosses(o, opp[0]) then opp[0].quantity else 0) + Depth(o, opp[1..])
  }

  lemma {:induction false} NoDepth(o: Order, opp: seq<Order>)
    requires Sorted(o.side.Opposite(), opp) && (opp != [] ==> !Crosses(o, opp[0]))
    ensures Depth(o, opp) == 0
  {
    hide PriceToTick;
    if opp != [] { NoDepth(o, opp[1..]); }
  }

  lemma {:induction false} DepthOf(o: Order, o': Order, opp: seq<Order>)
    requires o'.side == o.side && Tick(o') == Tick(o)
    ensures Depth(o, opp) == Depth(o', opp)
  {
    hide PriceToTick;
    if opp != [] { DepthOf(o, o', opp[1..]); }
  }

  lemma {:induction false} DepthPositive(o: Order, opp: seq<Order>)
    requires Positive(opp)
    ensures Depth(o, opp) >= 0
  {
    hide PriceToTick;
    if opp != [] { DepthPositive(o, opp[1..]); }
  }

  /** With positive quantities a sweep fills exactly as much as both the order and the crossing depth
      allow, in trades of positive size, and leaves only positive quantities. */
  lemma {:induction false} SweepFills(o: Order, own: seq<Order>, opp: seq<Order>)
    requires o.quantity > 0 && Positive(own) && Positive(opp)
    requires Sorted(o.side, own) && Sorted(o.side.Opposite(), opp)
    ensures var out := Sweep(o, own, opp);
      && Filled(out.execs) == Min(o.quantity, Depth(o, opp))
      && (forall e :: e in out.execs ==> 0 < e.quantity <= o.quantity)
      && Positive(out.own) && Positive(out.opp)
    decreases |opp|
  {
    hide PriceToTick, StrNCopy;
    if opp == [] || !Crosses(o, opp[0]) {
      NoDepth(o, opp);
      var k := InsertPlace(own, o);
    } else {
      var traded := Min(o.quantity, opp[0].quantity);
      var exec := Trade(o, opp[0], traded);
      var left := Reduce(o, traded);
      var out := Sweep(o, own, opp);
      assert opp[0] in opp;
      DepthPositive(o, opp[1..]);
      if left.quantity == 0 {
        assert out.execs[1..] == [];
      } else {
        DepthOf(o, left, opp[1..]);
        SweepFills(left, own, opp[1..]);
        assert out.execs[1..] == Sweep(left, own, opp[1..]).execs;
      }
    }
  }

  /** The executions of one order: all carry its side and arrival time, trade at the passive orders'
      prices, lie between the two orders' limit ticks, and never improve from one to the next. */
  lemma SubmitExecutions(book: Book, o: Order)
    requires Proper(book)
    ensures var execs := Submit(book, o).execs;
      var opp := book.Side(o.side.Opposite());
      && |execs| <= |opp|
      && (forall i :: 0 <= i < |execs| ==>
            && execs[i].side == o.side && execs[i].orderArrivalNs == o.arrivalNs
            && execs[i].tradePrice == opp[i].price && execs[i].symbol == StrNCopy(o.symbol)
            && StrNCopy(o.id) == (if o.side.Buy? then execs[i].buyId else execs[i].sellId)
            && StrNCopy(opp[i].id) == (if o.side.Buy? then execs[i].sellId else execs[i].buyId)
            && (if o.side.Buy? then PriceToTick(execs[i].tradePrice) <= Tick(o)
                else PriceToTick(execs[i].tradePrice) >= Tick(o)))
      && (forall i, j :: 0 <= i < j < |execs| ==>
            !Better(o.side.Opposite(), PriceToTick(execs[j].tradePrice), PriceToTick(execs[i].tradePrice)))
  {
    hide PriceToTick, StrNCopy;
    SweepTakesPrefix(o, book.Side(o.side), book.Side(o.side.Opposite()));
  }

  // ---------------------------------------------------------------------------------------------
  // Which resting orders an order trades with

  /** Quantity of the first `k` orders of a queue. */
  function Ahead(queue: seq<Order>, k: nat): int
    requires k <= |queue|
  {
    if k == 0 then 0 else queue[0].quantity + Ahead(queue[1..], k - 1)
  }

  /** The quantity in front of resting order `i` does not use `o` up, nor does any part of it. */
  predicate Reaches(o: Order, opp: seq<Order>, i: nat)
    requires i <= |opp|
  {
    forall k :: 0 < k <= i ==> Ahead(opp, k) < o.quantity
  }

  /** Resting order `i` is traded with exactly when it crosses and `o` is not used up before it; for
      quantities of any sign. */
  lemma {:induction false} TradesWith(o: Order, own: seq<Order>, opp: seq<Order>, i: nat)
    requires Sorted(o.side.Opposite(), opp) && i < |opp|
    ensures i < |Sweep(o, own, opp).execs| <==> Crosses(o, opp[i]) && Reaches(o, opp, i)
    decreases |opp|
  {
    hide PriceToTick, StrNCopy, Insert;
    if Crosses(o, opp[0]) && i > 0 {
      var left, rest := Reduce(o, Min(o.quantity, opp[0].quantity)), opp[1..];
      assert Ahead(opp, 1) == opp[0].quantity;
      if left.quantity != 0 {
        TradesWith(left, own, rest, i - 1);
        ReachesOn(o, opp, i);
      }
    }
  }

  lemma ReachesOn(o: Order, opp: seq<Order>, i: nat)
    requires 0 < i <= |opp| && opp[0].quantity < o.quantity
    ensures Reaches(o, opp, i) <==> Reaches(Reduce(o, opp[0].quantity), opp[1..], i - 1)
  {
    var left, rest := Reduce(o, opp[0].quantity), opp[1..];
    forall k | 1 < k <= i ensures Ahead(opp, k) < o.quantity <==> Ahead(rest, k - 1) < left.quantity {}
    if Reaches(o, opp, i) {
      forall k | 0 < k <= i - 1 ensures Ahead(rest, k) < left.quantity {
        assert Ahead(opp, k + 1) < o.quantity;
      }
    }
    if Reaches(left, rest, i - 1) {
      forall k | 0 < k <= i ensures Ahead(opp, k) < o.quantity {
        if k > 1 { assert Ahead(rest, k - 1) < left.quantity; }
      }
    }
  }

  /** What `o` trades with resting order `i`: what the orders in front leave of it, or the whole resting
      order, whichever is less. */
  function Share(o: Order, opp: seq<Order>, i: nat): int
    requires i < |opp|
  {
    Min(o.quantity - Ahead(opp, i), opp[i].quantity)
  }

  lemma ShareOn(o: Order, opp: seq<Order>, i: nat)
    requires 0 < i < |opp|
    ensures Share(o, opp, i) == Share(Reduce(o, opp[0].quantity), opp[1..], i - 1)
  {}

  lemma ShareFirst(o: Order, opp: seq<Order>)
    requires opp != []
    ensures Share(o, opp, 0) == Min(o.quantity, opp[0].quantity)
  {}

  lemma {:induction false} SweepQuantities(o: Order, own: seq<Order>, opp: seq<Order>)
    ensures var execs := Sweep(o, own, opp).execs;
      |execs| <= |opp| && forall i :: 0 <= i < |execs| ==> execs[i].quantity == Share(o, opp, i)
    decreases |opp|
  {
    hide PriceToTick, StrNCopy, Insert, Crosses, Share;
    if opp != [] && Crosses(o, opp[0]) {
      var left, rest := Reduce(o, Min(o.quantity, opp[0].quantity)), opp[1..];
      ShareFirst(o, opp);
      if left.quantity != 0 {
        SweepQuantities(left, own, rest);
        var execs, more := Sweep(o, own, opp).execs, Sweep(left, own, rest).execs;
        forall i | 0 < i < |execs| ensures execs[i].quantity == Share(o, opp, i) {
          ShareOn(o, opp, i);
          assert execs[i] == more[i - 1];
        }
      }
    }
  }

  /** The book sides after `o` traded with the first `k` orders of `opp`. If it is used up it does not rest,
      and the last of the `k` keeps what is left of it, if anything is; otherwise what is left of `o`
      rests and the `k` orders are gone. */
  predicate Settled(o: Order, own: seq<Order>, opp: seq<Order>, k: nat, own': seq<Order>, opp': seq<Order>)
    requires k <= |opp|
  {
    var left := o.quantity - Ahead(opp, k);
    if k > 0 && left <= 0 then
      && own' == own
      && opp' == if left == 0 then opp[k..] else [opp[k - 1].(quantity := -left)] + opp[k..]
    else
      own' == Insert(own, o.(quantity := left)) && opp' == opp[k..]
  }

  lemma SettledOn(o: Order, own: seq<Order>, opp: seq<Order>, k: nat, own': seq<Order>, opp': seq<Order>)
    requires 0 < k <= |opp| && opp[0].quantity < o.quantity
    requires Settled(Reduce(o, opp[0].quantity), own, opp[1..], k - 1, own', opp')
    ensures Settled(o, own, opp, k, own', opp')
  {
    hide Insert;
    var rest := opp[1..];
    assert opp[k..] == rest[k - 1..];
    assert Ahead(opp, k) == opp[0].quantity + Ahead(rest, k - 1);
    if k > 1 { assert opp[k - 1] == rest[k - 2]; } else { assert Ahead(rest, 0) == 0; }
  }

  lemma {:induction false} SweepSettles(o: Order, own: seq<Order>, opp: seq<Order>)
    ensures var out := Sweep(o, own, opp);
      |out.execs| <= |opp| && Settled(o, own, opp, |out.execs|, out.own, out.opp)
    decreases |opp|
  {
    hide PriceToTick, StrNCopy, Insert;
    var out := Sweep(o, own, opp);
    if opp == [] || !Crosses(o, opp[0]) {
      assert o.(quantity := o.quantity) == o && opp[0..] == opp;
    } else {
      var left := Reduce(o, Min(o.quantity, opp[0].quantity));
      if left.quantity != 0 {
        hide Settled;
        SweepSettles(left, own, opp[1..]);
        SettledOn(o, own, opp, |out.execs|, out.own, out.opp);
      } else {
        assert Ahead(opp[1..], 0) == 0 && Ahead(opp, 1) == opp[0].quantity;
      }
    }
  }

  /** Everything a sweep does to quantities, for quantities of any sign: execution `i` is for what the
      orders in front leave of `o`, or for the whole resting order, whichever is less; and afterwards the
      two sides are settled. */
  lemma SweepExact(o: Order, own: seq<Order>, opp: seq<Order>)
    ensures var out := Sweep(o, own, opp);
      && |out.execs| <= |opp|
      && (forall i :: 0 <= i < |out.execs| ==> out.execs[i].quantity == Share(o, opp, i))
      && Settled(o, own, opp, |out.execs|, out.own, out.opp)
  {
    hide Sweep, Settled, Share;
    SweepQuantities(o, own, opp);
    SweepSettles(o, own, opp);
  }

  lemma {:induction false} AheadGrows(queue: seq<Order>, k: nat, i: nat)
    requires Positive(queue) && k <= i <= |queue|
    ensures Ahead(queue, k) <= Ahead(queue, i)
    decreases i
  {
    if i > 0 {
      assert queue[0] in queue;
      AheadGrows(queue[1..], if k > 0 then k - 1 else 0, i - 1);
    }
  }

  /** With positive quantities it is enough to look at all that stands in front. */
  lemma PositiveReaches(o: Order, opp: seq<Order>, i: nat)
    requires o.quantity > 0 && Positive(opp) && i <= |opp|
    ensures Reaches(o, opp, i) <==> Ahead(opp, i) < o.quantity
  {
    forall k | 0 < k <= i ensures Ahead(opp, k) <= Ahead(opp, i) { AheadGrows(opp, k, i); }
  }

  // ---------------------------------------------------------------------------------------------
  // Orders for nothing

  predicate NonNegative(queue: seq<Order>) {
    forall o :: o in queue ==> o.quantity >= 0
  }

  lemma {:induction false} InsertNonNegative(queue: seq<Order>, o: Order)
    requires NonNegative(queue) && o.quantity >= 0
    ensures NonNegative(Insert(queue, o))
  {
    hide PriceToTick;
    if queue != [] {
      assert queue[0] in queue;
      InsertNonNegative(queue[1..], o);
    }
  }

  /** With quantities of at least zero a sweep trades and leaves at least zero, and a trade is for nothing
      exactly when one of its two orders is. */
  lemma {:induction false} SweepForNothing(o: Order, own: seq<Order>, opp: seq<Order>)
    requires o.quantity >= 0 && NonNegative(own) && NonNegative(opp)
    ensures var out := Sweep(o, own, opp);
      && |out.execs| <= |opp|
      && (forall i :: 0 <= i < |out.execs| ==>
            && out.execs[i].quantity >= 0
            && (out.execs[i].quantity == 0 <==> o.quantity == 0 || opp[i].quantity == 0))
      && NonNegative(out.own) && NonNegative(out.opp)
    decreases |opp|
  {
    hide PriceToTick, StrNCopy, Insert;
    if opp == [] || !Crosses(o, opp[0]) {
      InsertNonNegative(own, o);
    } else {
      assert opp[0] in opp;
      var left, rest := Reduce(o, Min(o.quantity, opp[0].quantity)), opp[1..];
      if left.quantity != 0 {
        SweepForNothing(left, own, rest);
        var execs, more := Sweep(o, own, opp).execs, Sweep(left, own, rest).execs;
        forall i | 0 < i < |execs|
          ensures execs[i].quantity >= 0
          ensures execs[i].quantity == 0 <==> o.quantity == 0 || opp[i].quantity == 0
        {
          assert execs[i] == more[i - 1] && opp[i] == rest[i - 1];
        }
      }
    }
  }

  ghost predicate AllNonNegative(m: Market) {
    forall k :: k in m.books ==> NonNegative(m.books[k].bids) && NonNegative(m.books[k].asks)
  }

  /** If all orders have quantities of at least zero, so have all executions and resting orders, for ever. */
  lemma {:induction false} RunKeepsNonNegative(m: Market, orders: seq<Order>)
    requires AllNonNegative(m) && NonNegative(orders)
    ensures AllNonNegative(Run(m, orders).market)
    ensures forall e :: e in Run(m, orders).execs ==> e.quantity >= 0
  {
    hide PriceToTick, Sweep, SymKey;
    if orders != [] {
      var prefix, o := orders[..|orders| - 1], orders[|orders| - 1];
      RunKeepsNonNegative(m, prefix);
      var before := Run(m, prefix).market;
      if Enters(before, o) {
        var book := BookAt(before.books, SymKey(o.symbol));
        SweepForNothing(o, book.Side(o.side), book.Side(o.side.Opposite()));
      }
    }
  }

  ghost predicate AllPositive(m: Market) {
    forall k :: k in m.books ==> Positive(m.books[k].bids) && Positive(m.books[k].asks)
  }

  /** If all orders have positive quantities, so have all executions and all resting orders, for ever. */
  lemma {:induction false} RunKeepsPositive(m: Market, orders: seq<Order>)
    requires Orderly(m) && AllPositive(m) && Positive(orders)
    ensures AllPositive(Run(m, orders).market)
    ensures forall e :: e in Run(m, orders).execs ==> e.quantity > 0
  {
    hide PriceToTick, Sweep, SymKey, Sorted, Uncrossed;
    if orders != [] {
      var prefix, o := orders[..|orders| - 1], orders[|orders| - 1];
      RunKeepsPositive(m, prefix);
      RunKeepsOrderly(m, prefix);
      var before := Run(m, prefix).market;
      if Enters(before, o) {
        var book := BookAt(before.books, SymKey(o.symbol));
        assert Proper(book) by { EmptyProper(); }
        SweepFills(o, book.Side(o.side), book.Side(o.side.Opposite()));
      }
    }
  }

  predicate Carries(e: Execution, symbol: Symbol) { e.symbol == symbol }

  /** The executions of one symbol, picked out of a stream by the symbol they carry. */
  function Select(execs: seq<Execution>, symbol: Symbol): seq<Execution> {
    if execs == [] then []
    else if Carries(execs[0], symbol) then [execs[0]] + Select(execs[1..], symbol)
    else Select(execs[1..], symbol)
  }

  lemma {:induction false} SelectConcat(a: seq<Execution>, b: seq<Execution>, symbol: Symbol)
    ensures Select(a + b, symbol) == Select(a, symbol) + Select(b, symbol)
  {
    hide Carries;
    if a == [] {
      assert a + b == b;
    } else {
      SelectConcat(a[1..], b, symbol);
      assert (a + b)[0] == a[0] && (a + b)[1..] == a[1..] + b;
      if Carries(a[0], symbol) {
        assert Select(a + b, symbol) == [a[0]] + (Select(a[1..], symbol) + Select(b, symbol));
      } else {
        assert Select(a + b, symbol) == Select(a[1..], symbol) + Select(b, symbol);
      }
    }
  }

  lemma {:induction false} SelectUniform(execs: seq<Execution>, symbol: Symbol, carried: Symbol)
    requires forall e :: e in execs ==> e.symbol == carried
    ensures Select(execs, symbol) == if carried == symbol then execs else []
  {
    if execs != [] {
      assert execs[0] in execs;
      SelectUniform(execs[1..], symbol, carried);
    }
  }

  /** When symbols are proper texts, the executions that name a symbol are those its orders caused. */
  lemma {:induction false} SymbolExecsAreSelected(m: Market, orders: seq<Order>, symbol: Symbol)
    requires forall o :: o in orders ==> StrNCopy(o.symbol) == o.symbol
    ensures SymbolExecs(m, orders, SymKey(symbol)) == Select(Run(m, orders).execs, symbol)
  {
    hide PriceToTick, StrNCopy, Sweep, SymKey;
    if orders != [] {
      var prefix, o := orders[..|orders| - 1], orders[|orders| - 1];
      SymbolExecsAreSelected(m, prefix, symbol);
      var before := Run(m, prefix);
      var execs := Accept(before.market, o).execs;
      var book := BookAt(before.market.books, SymKey(o.symbol));
      SweepTakesPrefix(o, book.Side(o.side), book.Side(o.side.Opposite()));
      SelectUniform(execs, symbol, o.symbol);
      SelectConcat(before.execs, execs, symbol);
      if SymKey(o.symbol) == SymKey(symbol) { SymKeyInjective(o.symbol, symbol); }
    }
  }
}
