/** The multi-symbol matching engine on top of the slab and the book sides. */
module OrderBooks {
  import opened Trading
  import opened Reference
  import opened Crossing
  import opened Markets
  import opened SideState
  import opened ObjectPools
  import opened BookSides
  import Occupancy

  predicate Foreign(w: Owner, key: nat) { w.Held? && w.key != key }

  /** Slots on other symbols' lists, before or after, are as they were. */
  ghost predicate OthersSame(key: nat, nodes: seq<Node>, owner: seq<Owner>, nodes': seq<Node>, owner': seq<Owner>) {
    && |nodes| == |owner| == |nodes'| == |owner'|
    && forall s :: 0 <= s < |owner| && (Foreign(owner[s], key) || Foreign(owner'[s], key)) ==>
         owner'[s] == owner[s] && nodes'[s] == nodes[s]
  }

  lemma OthersSameFor(key: nat, other: nat, nodes: seq<Node>, owner: seq<Owner>,
                      nodes': seq<Node>, owner': seq<Owner>)
    requires OthersSame(key, nodes, owner, nodes', owner') && other != key
    ensures SameFor(other, Buy, nodes, owner, nodes', owner') && SameFor(other, Sell, nodes, owner, nodes', owner')
  {}

  lemma OthersSameTrans(key: nat, nodes: seq<Node>, owner: seq<Owner>, nodes': seq<Node>, owner': seq<Owner>,
                        nodes'': seq<Node>, owner'': seq<Owner>)
    requires OthersSame(key, nodes, owner, nodes', owner')
    requires OthersSame(key, nodes', owner', nodes'', owner'')
    ensures OthersSame(key, nodes, owner, nodes'', owner'')
  {}

  /** Trading touches only quantities of the symbol's own orders. */
  lemma ReducedOthersSame(key: nat, nodes: seq<Node>, owner: seq<Owner>, bid: int, ask: int, traded: int)
    requires |nodes| == |owner| && 0 <= bid < |nodes| && 0 <= ask < |nodes|
    requires HeldBy(owner[bid], key, Buy) && HeldBy(owner[ask], key, Sell)
    ensures var nodes' := ReducedNodes(ReducedNodes(nodes, bid, traded), ask, traded);
      && OthersSame(key, nodes, owner, nodes', owner)
      && forall s :: 0 <= s < |nodes| ==> nodes'[s].order.symbol == nodes[s].order.symbol
  {}

  lemma ConsumeReduces(queue: seq<Order>, traded: int)
    requires queue != []
    ensures var r := [Reduce(queue[0], traded)] + queue[1..];
      Consume(queue, traded) == if r[0].quantity == 0 then r[1..] else r
  {}

  lemma OthersSameRefl(key: nat, nodes: seq<Node>, owner: seq<Owner>)
    requires |nodes| == |owner|
    ensures OthersSame(key, nodes, owner, nodes, owner)
  {}

  class SymbolBook {
    const bids: BookSide
    const asks: BookSide

    /** The objects the book is made of. */
    ghost function Parts(): set<object> {
      {bids, asks, bids.levels, asks.levels, bids.bits, asks.bits}
    }

    /** A bid side and an ask side over the same grid, sharing no memory with each other or the pool. */
    ghost predicate Shaped(pool: ObjectPool) {
      && bids.side.Buy? && asks.side.Sell? && bids.levels.Length == asks.levels.Length
      && bids != asks && bids.levels != asks.levels && bids.bits != asks.bits
      && bids.Apart(pool) && asks.Apart(pool)
      && (bids.bits as object) != asks.levels && (asks.bits as object) != bids.levels
    }

    ghost predicate Ok(key: nat, nodes: seq<Node>, owner: seq<Owner>)
      reads Parts()
    {
      bids.side.Buy? && asks.side.Sell? && bids.Ok(key, nodes, owner) && asks.Ok(key, nodes, owner)
    }

    ghost function Value(nodes: seq<Node>): Book
      reads bids, asks
    {
      Book(bids.Queue(nodes), asks.Queue(nodes))
    }

    constructor (maxTicks: nat, pool: ObjectPool)
      ensures Shaped(pool) && bids.levels.Length == maxTicks && fresh(Parts())
      ensures bids.side.Buy? && asks.side.Sell?
      ensures Blank()
    {
      bids := new BookSide(Buy, maxTicks);
      asks := new BookSide(Sell, maxTicks);
    }

    ghost predicate Blank()
      reads Parts()
    {
      bids.Blank() && asks.Blank()
    }

    lemma BlankOk(key: nat, nodes: seq<Node>, owner: seq<Owner>)
      requires bids.side.Buy? && asks.side.Sell? && Blank() && |nodes| == |owner|
      requires forall s :: 0 <= s < |owner| && owner[s].Held? ==> owner[s].key != key
      ensures Ok(key, nodes, owner) && Value(nodes) == EMPTY
    {
      bids.BlankOk(key, nodes, owner);
      asks.BlankOk(key, nodes, owner);
    }

    /** A book does not notice changes to slots it does not own. */
    lemma Frame(key: nat, nodes: seq<Node>, owner: seq<Owner>, nodes': seq<Node>, owner': seq<Owner>)
      requires Ok(key, nodes, owner)
      requires SameFor(key, Buy, nodes, owner, nodes', owner') && SameFor(key, Sell, nodes, owner, nodes', owner')
      ensures Ok(key, nodes', owner') && Value(nodes') == Value(nodes)
    {
      hide SameFor, BookSide.Ok, BookSide.Queue;
      bids.Frame(key, nodes, owner, nodes', owner');
      asks.Frame(key, nodes, owner, nodes', owner');
    }

    /** Both front orders give up `traded`. */
    method ReduceBoth(pool: ObjectPool, key: nat, bid: int, ask: int, traded: int)
      requires Shaped(pool) && Ok(key, pool.slab[..], pool.owner)
      requires 0 <= bids.best < bids.levels.Length && bid == bids.levels[bids.best].head
      requires 0 <= asks.best < asks.levels.Length && ask == asks.levels[asks.best].head
      modifies pool.slab
      ensures 0 <= bid < pool.slab.Length == |pool.owner| && 0 <= ask < pool.slab.Length && bid != ask
      ensures HeldBy(pool.owner[bid], key, Buy) && HeldBy(pool.owner[ask], key, Sell)
      ensures Ok(key, pool.slab[..], pool.owner)
      ensures pool.slab[..] == ReducedNodes(ReducedNodes(old(pool.slab[..]), bid, traded), ask, traded)
      ensures var was, now := old(Value(pool.slab[..])), Value(pool.slab[..]);
        && was.bids != [] && now.bids == [Reduce(was.bids[0], traded)] + was.bids[1..]
        && was.asks != [] && now.asks == [Reduce(was.asks[0], traded)] + was.asks[1..]
        && was.bids[0] == old(pool.slab[bid].order) && was.asks[0] == old(pool.slab[ask].order)
    {
      hide BookSide.Ok, StackOk, PriceToTick, Flat;
      ghost var n0, w := pool.slab[..], pool.owner;
      bids.Front(key, n0, w);
      asks.Front(key, n0, w);
      bids.ReduceFront(pool, key, bid, traded);
      ghost var n1 := pool.slab[..];
      asks.Frame(key, n0, w, n1, w);
      asks.ReduceFront(pool, key, ask, traded);
      bids.Frame(key, n1, w, pool.slab[..], w);
    }

    lemma Fronts(key: nat, nodes: seq<Node>, owner: seq<Owner>)
      requires Ok(key, nodes, owner)
      requires 0 <= bids.best < bids.levels.Length && 0 <= asks.best < asks.levels.Length
      ensures var bid, ask := bids.levels[bids.best].head, asks.levels[asks.best].head;
        && 0 <= bid < |nodes| == |owner| && 0 <= ask < |nodes|
        && Value(nodes).bids != [] && Value(nodes).bids[0] == nodes[bid].order
        && Value(nodes).asks != [] && Value(nodes).asks[0] == nodes[ask].order
    {
      hide BookSide.Ok, PriceToTick, BookSide.Queue;
      bids.Front(key, nodes, owner);
      asks.Front(key, nodes, owner);
    }

    /** Front orders with nothing left go: first the bid, then the ask. */
    method RemoveFilled(pool: ObjectPool, key: nat, bid: int, ask: int)
      requires Shaped(pool) && pool.Valid() && Ok(key, pool.slab[..], pool.owner)
      requires 0 <= bids.best < bids.levels.Length && bid == bids.levels[bids.best].head
      requires 0 <= asks.best < asks.levels.Length && ask == asks.levels[asks.best].head
      requires 0 <= bid < pool.slab.Length && 0 <= ask < pool.slab.Length
      modifies pool, pool.freeStack, Parts()
      ensures pool.Valid() && Ok(key, pool.slab[..], pool.owner)
      ensures var was, now := old(Value(pool.slab[..])), Value(pool.slab[..]);
        && was.bids != [] && now.bids == (if was.bids[0].quantity == 0 then was.bids[1..] else was.bids)
        && was.asks != [] && now.asks == (if was.asks[0].quantity == 0 then was.asks[1..] else was.asks)
        && pool.top + now.Size() == old(pool.top) + was.Size()
      ensures OthersSame(key, pool.slab[..], old(pool.owner), pool.slab[..], pool.owner)
      ensures forall s :: 0 <= s < pool.slab.Length ==> pool.owner[s] == old(pool.owner[s]) || pool.owner[s].Free?
    {
      hide BookSide.Ok, StackOk, PriceToTick, Flat;
      ghost var n, w0 := pool.slab[..], pool.owner;
      bids.Front(key, n, w0);
      asks.Front(key, n, w0);
      if pool.slab[bid].order.quantity == 0 {
        bids.RemoveFront(pool, key, bid);
        asks.Frame(key, n, w0, n, pool.owner);
      }
      ghost var w1 := pool.owner;
      if pool.slab[ask].order.quantity == 0 {
        asks.RemoveFront(pool, key, ask);
        bids.Frame(key, n, w1, n, pool.owner);
      }
    }

    /** One turn of the matching loop: the best bid and the best ask trade the smaller quantity, and
        whichever is filled leaves the book. */
    method TradeOnce(pool: ObjectPool, key: nat, symbol: Symbol, aggressor: Side) returns (exec: Execution)
      requires Shaped(pool) && pool.Valid() && Ok(key, pool.slab[..], pool.owner)
      requires 0 <= bids.best < bids.levels.Length && 0 <= asks.best < asks.levels.Length
      modifies pool, pool.slab, pool.freeStack, Parts()
      ensures pool.Valid() && Ok(key, pool.slab[..], pool.owner)
      ensures var was, now := old(Value(pool.slab[..])), Value(pool.slab[..]);
        && was.bids != [] && was.asks != []
        && (var traded := Min(was.asks[0].quantity, was.bids[0].quantity);
            && exec == BuildExecution(traded, was.asks[0], was.bids[0], symbol, aggressor)
            && now.bids == Consume(was.bids, traded)
            && now.asks == Consume(was.asks, traded)
            && pool.top + now.Size() == old(pool.top) + was.Size())
      ensures OthersSame(key, old(pool.slab[..]), old(pool.owner), pool.slab[..], pool.owner)
      ensures forall s :: 0 <= s < pool.slab.Length ==> pool.slab[s].order.symbol == old(pool.slab[s].order.symbol)
      ensures forall s :: 0 <= s < pool.slab.Length ==> pool.owner[s] == old(pool.owner[s]) || pool.owner[s].Free?
    {
      hide Ok, StackOk, BuildExecution, Consume, Reduce, OthersSame, BookSide.Queue, HeldBy, ReducedNodes;
      ghost var n0, w0 := pool.slab[..], pool.owner;
      ghost var was := Value(n0);
      Fronts(key, n0, w0);

      var bid := bids.levels[bids.best].head;
      var ask := asks.levels[asks.best].head;
      var traded := Min(pool.slab[ask].order.quantity, pool.slab[bid].order.quantity);
      exec := BuildExecution(traded, pool.slab[ask].order, pool.slab[bid].order, symbol, aggressor);

      ReduceBoth(pool, key, bid, ask, traded);
      ghost var n := pool.slab[..];
      ReducedOthersSame(key, n0, w0, bid, ask, traded);
      ConsumeReduces(was.bids, traded);
      ConsumeReduces(was.asks, traded);
      RemoveFilled(pool, key, bid, ask);
      OthersSameTrans(key, n0, w0, n, w0, n, pool.owner);
    }

    /** `matchOrders`. The symbol is read through the slot of the accepted order, which may be given
        back while the loop runs; `execs` lists the executions handed to the callback. */
    method MatchOrders(pool: ObjectPool, key: nat, slot: int, aggressor: Side) returns (execs: seq<Execution>)
      requires Shaped(pool) && pool.Valid() && Ok(key, pool.slab[..], pool.owner)
      requires 0 <= slot < pool.slab.Length
      modifies pool, pool.slab, pool.freeStack, Parts()
      ensures pool.Valid() && Ok(key, pool.slab[..], pool.owner)
      ensures var was, now := old(Value(pool.slab[..])), Value(pool.slab[..]);
        && Crossed(execs, now.bids, now.asks) == Cross(was.bids, was.asks, old(pool.slab[slot].order.symbol), aggressor)
        && pool.top + now.Size() == old(pool.top) + was.Size()
      ensures OthersSame(key, old(pool.slab[..]), old(pool.owner), pool.slab[..], pool.owner)
      ensures forall s :: 0 <= s < pool.slab.Length ==> pool.owner[s] == old(pool.owner[s]) || pool.owner[s].Free?
    {
      hide Ok, BookSide.Ok, StackOk, PriceToTick, BuildExecution, Consume, Cross, BookSide.Queue, OthersSame, Min;
      execs := [];
      ghost var n0, w0 := pool.slab[..], pool.owner;
      ghost var was, symbol := Value(n0), pool.slab[slot].order.symbol;
      OthersSameRefl(key, n0, w0);
      while true
        invariant pool.Valid() && Ok(key, pool.slab[..], pool.owner)
        invariant pool.top + Value(pool.slab[..]).Size() == old(pool.top) + was.Size()
        invariant var now := Value(pool.slab[..]);
          var more := Cross(now.bids, now.asks, symbol, aggressor);
          Crossed(execs + more.execs, more.bids, more.asks) == Cross(was.bids, was.asks, symbol, aggressor)
        invariant pool.slab[slot].order.symbol == symbol
        invariant OthersSame(key, n0, w0, pool.slab[..], pool.owner)
        invariant forall s :: 0 <= s < pool.slab.Length ==> pool.owner[s] == w0[s] || pool.owner[s].Free?
        decreases Value(pool.slab[..]).Size()
      {
        ghost var n, w := pool.slab[..], pool.owner;
        ghost var now := Value(n);
        BestTicks(key, n, w);
        if bids.best == -1 || asks.best == asks.levels.Length || bids.best < asks.best {
          CrossEnds(now.bids, now.asks, symbol, aggressor);
          return;
        }
        CrossTurn(execs, now.bids, now.asks, symbol, aggressor);
        var exec := TradeOnce(pool, key, pool.slab[slot].order.symbol, aggressor);
        execs := execs + [exec];
        OthersSameTrans(key, n0, w0, n, w, pool.slab[..], pool.owner);
      }
    }

    /** An order already copied into `slot` enters the book and is matched. */
    method Enter(pool: ObjectPool, key: nat, tick: nat, slot: int) returns (execs: seq<Execution>)
      requires Shaped(pool) && pool.Valid() && Ok(key, pool.slab[..], pool.owner)
      requires 0 <= slot < pool.slab.Length && pool.owner[slot].Loose? && tick < bids.levels.Length
      requires Fits(pool.slab[slot].order, key, pool.slab[slot].order.side, tick)
      requires Proper(Value(pool.slab[..]))
      modifies pool, pool.slab, pool.freeStack, Parts()
      ensures pool.Valid() && Ok(key, pool.slab[..], pool.owner)
      ensures var was, now := old(Value(pool.slab[..])), Value(pool.slab[..]);
        && Step(execs, now) == Submit(was, old(pool.slab[slot].order))
        && pool.top + now.Size() == old(pool.top) + was.Size() + 1
      ensures OthersSame(key, old(pool.slab[..]), old(pool.owner), pool.slab[..], pool.owner)
      ensures forall s :: 0 <= s < pool.slab.Length ==>
        || pool.owner[s].Free? || (s != slot && pool.owner[s] == old(pool.owner[s]))
        || (pool.owner[s].Held? && pool.owner[s].key == key)
    {
      hide Ok, BookSide.Ok, StackOk, PriceToTick, Insert, Sweep, Cross, BookSide.Queue, Sorted, Fits;
      ghost var n0, w0 := pool.slab[..], pool.owner;
      ghost var was := Value(n0);
      var order := pool.slab[slot].order;
      Park(pool, key, tick, slot);
      if order.side.Buy? {
        CrossWithNewBid(order, was.bids, was.asks);
      } else {
        CrossWithNewAsk(order, was.bids, was.asks);
      }
      ghost var n1, w1 := pool.slab[..], pool.owner;
      execs := MatchOrders(pool, key, slot, order.side);
      OthersSameTrans(key, n0, w0, n1, w1, pool.slab[..], pool.owner);
    }

    /** The order comes to rest on its own side before any matching. */
    method Park(pool: ObjectPool, key: nat, tick: nat, slot: int)
      requires Shaped(pool) && pool.Valid() && Ok(key, pool.slab[..], pool.owner)
      requires 0 <= slot < pool.slab.Length && pool.owner[slot].Loose? && tick < bids.levels.Length
      requires Fits(pool.slab[slot].order, key, pool.slab[slot].order.side, tick)
      modifies pool`owner, pool.slab, Parts()
      ensures pool.Valid() && Ok(key, pool.slab[..], pool.owner)
      ensures var was, now, o := old(Value(pool.slab[..])), Value(pool.slab[..]), old(pool.slab[slot].order);
        && now.Side(o.side) == Insert(was.Side(o.side), o)
        && now.Side(o.side.Opposite()) == was.Side(o.side.Opposite())
      ensures OthersSame(key, old(pool.slab[..]), old(pool.owner), pool.slab[..], pool.owner)
      ensures pool.slab[slot].order == old(pool.slab[slot].order)
      ensures pool.owner == old(pool.owner)[slot := Held(key, old(pool.slab[slot].order.side), tick)]
    {
      hide BookSide.Ok, StackOk, PriceToTick, Insert, BookSide.Queue, Fits;
      ghost var n0, w0 := pool.slab[..], pool.owner;
      if pool.slab[slot].order.side.Buy? {
        bids.Rest(pool, key, tick, slot);
        asks.Frame(key, n0, w0, pool.slab[..], pool.owner);
      } else {
        asks.Rest(pool, key, tick, slot);
        bids.Frame(key, n0, w0, pool.slab[..], pool.owner);
      }
    }

    /** The cached ticks decide whether the two sides cross. */
    lemma BestTicks(key: nat, nodes: seq<Node>, owner: seq<Owner>)
      requires bids.side.Buy? && asks.side.Sell? && bids.levels.Length == asks.levels.Length
      requires Ok(key, nodes, owner)
      ensures -1 <= bids.best < bids.levels.Length && 0 <= asks.best <= asks.levels.Length
      ensures CanTrade(Value(nodes).bids, Value(nodes).asks) <==>
        bids.best != -1 && asks.best != asks.levels.Length && bids.best >= asks.best
    {
      hide BookSide.Ok, PriceToTick, BookSide.Queue;
      bids.Front(key, nodes, owner);
      asks.Front(key, nodes, owner);
    }
  }

  lemma CrossEnds(bids: seq<Order>, asks: seq<Order>, symbol: Symbol, aggressor: Side)
    requires !CanTrade(bids, asks)
    ensures Cross(bids, asks, symbol, aggressor) == Crossed([], bids, asks)
  {}

  /** Every symbol has its own book, and the books share no memory with each other or the pool. */
  ghost predicate DisjointBooks(books: map<nat, SymbolBook>, repr: set<object>, pool: ObjectPool, maxTicks: nat) {
    && (forall k :: k in books ==>
          books[k].Shaped(pool) && books[k].bids.levels.Length == maxTicks && books[k].Parts() <= repr)
    && (forall k, l :: k in books && l in books && k != l ==> books[k].Parts() !! books[l].Parts())
  }

  lemma AddDisjoint(books: map<nat, SymbolBook>, repr: set<object>, pool: ObjectPool, maxTicks: nat,
                    key: nat, book: SymbolBook)
    requires DisjointBooks(books, repr, pool, maxTicks) && key !in books
    requires book.Shaped(pool) && book.bids.levels.Length == maxTicks
    requires book.Parts() !! repr
    ensures DisjointBooks(books[key := book], repr + book.Parts(), pool, maxTicks)
  {
    hide SymbolBook.Shaped;
    var books', repr' := books[key := book], repr + book.Parts();
    forall k, l | k in books' && l in books' && k != l ensures books'[k].Parts() !! books'[l].Parts() {
      if k == key { assert books[l].Parts() <= repr; }
      if l == key { assert books[k].Parts() <= repr; }
    }
  }

  class OrderBook {
    const maxTicks: nat
    const pool: ObjectPool
    var books: map<nat, SymbolBook>
    ghost var market: map<nat, Book>
    ghost var repr: set<object>

    ghost predicate Shape()
      reads this`books, this`repr
    {
      && {this, pool, pool.slab, pool.freeStack} !! repr
      && DisjointBooks(books, repr, pool, maxTicks)
    }

    /** The market the engine stands for. */
    ghost function Value(): Market
      reads this
    {
      Market(market, maxTicks, pool.slab.Length)
    }

    /** Every slot, but perhaps one that is on its way, is free or on a list of a known symbol. */
    ghost predicate Partitioned(except: int)
      reads this`books, pool`owner
    {
      forall s :: 0 <= s < |pool.owner| && s != except ==>
        pool.owner[s].Free? || (pool.owner[s].Held? && pool.owner[s].key in books)
    }

    /** The book of `k` stands for its part of the market, and that part is sorted and uncrossed. */
    ghost predicate BookMatches(k: nat, nodes: seq<Node>, owner: seq<Owner>)
      requires k in books && k in market
      reads this`books, this`market, books[k].Parts()
    {
      books[k].Ok(k, nodes, owner) && books[k].Value(nodes) == market[k] && Proper(market[k])
    }

    ghost predicate BooksMatch(nodes: seq<Node>, owner: seq<Owner>)
      requires Shape()
      reads this`books, this`market, this`repr, repr
    {
      market.Keys == books.Keys && forall k :: k in books ==> BookMatches(k, nodes, owner)
    }

    ghost predicate Valid()
      reads this, pool, pool.slab, pool.freeStack, repr
    {
      && Shape() && pool.Valid() && Partitioned(NIL)
      && BooksMatch(pool.slab[..], pool.owner)
      && pool.top + Resting(market) == pool.slab.Length
    }

    constructor (ticks: nat, capacity: nat)
      ensures Valid() && fresh(pool) && fresh(pool.slab) && fresh(pool.freeStack) && fresh(repr)
      ensures Value() == Market(map[], ticks, capacity)
    {
      maxTicks := ticks;
      pool := new ObjectPool(capacity);
      books := map[];
      market := map[];
      repr := {};
    }

    /** The books do not notice the copy of a new order into a slot that was on no list. */
    lemma CopyFrame(slot: int, order: Order, nodes: seq<Node>, owner: seq<Owner>)
      requires Shape() && BooksMatch(nodes, owner)
      requires |nodes| == |owner| && 0 <= slot < |nodes| && owner[slot].Free?
      ensures BooksMatch(nodes[slot := Node(order, NIL)], owner[slot := Loose])
    {
      hide SymbolBook.Ok, SymbolBook.Value, Proper;
      var nodes', owner' := nodes[slot := Node(order, NIL)], owner[slot := Loose];
      forall k | k in books ensures BookMatches(k, nodes', owner') {
        assert BookMatches(k, nodes, owner);
        books[k].Frame(k, nodes, owner, nodes', owner');
      }
    }

    /** Gives a symbol seen for the first time an empty book. */
    method CreateBook(key: nat)
      requires Shape() && |pool.slab[..]| == |pool.owner| && BooksMatch(pool.slab[..], pool.owner)
      requires forall s :: 0 <= s < |pool.owner| && pool.owner[s].Held? ==> pool.owner[s].key in books
      requires key !in books
      modifies this`books, this`repr, this`market
      ensures Shape() && fresh(repr - old(repr)) && old(repr) <= repr
      ensures key in books && books == old(books)[key := books[key]]
      ensures market == old(market)[key := EMPTY]
      ensures BooksMatch(pool.slab[..], pool.owner)
    {
      hide SymbolBook.Ok, SymbolBook.Value, SymbolBook.Shaped, SymbolBook.Blank, Proper, DisjointBooks;
      ghost var n, w := pool.slab[..], pool.owner;
      var book := new SymbolBook(maxTicks, pool);
      AddDisjoint(books, repr, pool, maxTicks, key, book);
      book.BlankOk(key, n, w);
      EmptyProper();
      books := books[key := book];
      market := market[key := EMPTY];
      repr := repr + book.Parts();
      forall k | k in books ensures BookMatches(k, n, w) {
        if k != key {
          assert old(BookMatches(k, n, w));
          OwnShape(k);
        }
      }
    }

    /** `books_[key]`. */
    method FindBook(key: nat)
      requires Shape() && |pool.slab[..]| == |pool.owner| && BooksMatch(pool.slab[..], pool.owner)
      requires forall s :: 0 <= s < |pool.owner| && pool.owner[s].Held? ==> pool.owner[s].key in books
      modifies this`books, this`repr, this`market
      ensures Shape() && fresh(repr - old(repr)) && old(repr) <= repr
      ensures key in books && books == old(books)[key := books[key]]
      ensures market == old(market)[key := BookAt(old(market), key)]
      ensures BooksMatch(pool.slab[..], pool.owner)
    {
      hide BookMatches, DisjointBooks;
      if key !in books {
        CreateBook(key);
      }
      assert key in old(market) ==> market == old(market)[key := old(market)[key]];
    }

    lemma OwnShape(k: nat)
      requires Shape() && k in books
      ensures books[k].Shaped(pool) && books[k].bids.levels.Length == maxTicks && books[k].Parts() <= repr
      ensures {pool, pool.slab, pool.freeStack, this} !! books[k].Parts()
    {
      hide SymbolBook.Shaped;
    }

    lemma SameGrid(k: nat)
      requires Shape() && k in books
      ensures books[k].asks.levels.Length == maxTicks
    {}

    lemma ApartShape(k: nat, l: nat)
      requires Shape() && k in books && l in books && k != l
      ensures books[k].Parts() !! books[l].Parts()
    {
      hide SymbolBook.Shaped;
    }

    /** A book matches still, whatever happened to other symbols' slots. */
    lemma FrameMatch(key: nat, k: nat, nodes: seq<Node>, owner: seq<Owner>, nodes': seq<Node>, owner': seq<Owner>)
      requires k in books && k in market && k != key
      requires BookMatches(k, nodes, owner) && OthersSame(key, nodes, owner, nodes', owner')
      ensures BookMatches(k, nodes', owner')
    {
      hide SymbolBook.Ok, SymbolBook.Value, Proper, OthersSame, SameFor;
      OthersSameFor(key, k, nodes, owner, nodes', owner');
      books[k].Frame(k, nodes, owner, nodes', owner');
    }

    /** The order in `slot` goes through its symbol's book; the other books stay as they are. */
    method Place(slot: int, key: nat, tick: nat) returns (execs: seq<Execution>)
      requires Shape() && pool.Valid() && Partitioned(slot) && BooksMatch(pool.slab[..], pool.owner)
      requires 0 <= slot < pool.slab.Length && pool.owner[slot].Loose? && tick < maxTicks
      requires Fits(pool.slab[slot].order, key, pool.slab[slot].order.side, tick) && key in books
      modifies this`market, pool, pool.slab, pool.freeStack, repr
      ensures Shape() && pool.Valid() && Partitioned(NIL) && BooksMatch(pool.slab[..], pool.owner)
      ensures key in old(market)
      ensures var step := Submit(old(market)[key], old(pool.slab[slot].order));
        && execs == step.execs
        && market == old(market)[key := step.book]
        && pool.top + step.book.Size() == old(pool.top) + old(market)[key].Size() + 1
    {
      hide DisjointBooks, SymbolBook.Ok, SymbolBook.Value, StackOk, PriceToTick, Submit, Proper, SymbolBook.Shaped,
           Fits, OthersSame;
      ghost var n, w, order := pool.slab[..], pool.owner, pool.slab[slot].order;
      var book := books[key];
      OwnShape(key);
      assert BookMatches(key, n, w);
      execs := book.Enter(pool, key, tick, slot);
      SubmitKeepsProper(market[key], order);
      forall k | k in books && k != key
        ensures books[k].Ok(k, pool.slab[..], pool.owner)
        ensures books[k].Value(pool.slab[..]) == market[k] && Proper(market[k])
      {
        assert old(BookMatches(k, n, w));
        OwnShape(k);
        ApartShape(k, key);
        FrameMatch(key, k, n, w, pool.slab[..], pool.owner);
      }
      market := market[key := book.Value(pool.slab[..])];
      forall k | k in books ensures BookMatches(k, pool.slab[..], pool.owner) {
        OwnShape(k);
      }
    }

    /** `acceptNewOrder`: exactly what the reference market does with the order. */
    method AcceptNewOrder(order: Order) returns (execs: seq<Execution>)
      requires Valid()
      modifies this, pool, pool.slab, pool.freeStack, repr
      ensures Valid() && fresh(repr - old(repr))
      ensures Accepted(execs, Value()) == Accept(old(Value()), order)
    {
      hide DisjointBooks, BooksMatch, StackOk, PriceToTick, Submit, SymKey;
      ghost var was := market;
      var tick := PriceToTick(order.price);
      if tick < 0 || tick >= maxTicks { return []; }
      ghost var n, w := pool.slab[..], pool.owner;
      var slot := pool.Alloc();
      if slot == NIL { return []; }
      CopyFrame(slot, order, n, w);
      pool.slab[slot] := Node(order, NIL);
      assert pool.slab[..] == n[slot := Node(order, NIL)];
      var key := SymKey(pool.slab[slot].order.symbol);
      FindBook(key);
      execs := Place(slot, key, tick);
      RestingUpdate(was, key, Submit(BookAt(was, key), order).book);
      assert market == was[key := Submit(BookAt(was, key), order).book];
    }

    /** A whole stream of orders: the engine emits and keeps what the reference market does. */
    method Replay(orders: seq<Order>) returns (execs: seq<Execution>)
      requires Valid()
      modifies this, pool, pool.slab, pool.freeStack, repr
      ensures Valid() && fresh(repr - old(repr))
      ensures Accepted(execs, Value()) == Run(old(Value()), orders)
    {
      hide Shape, BooksMatch, StackOk, Accept;
      execs := [];
      ghost var was := Value();
      for i := 0 to |orders|
        invariant Valid() && fresh(repr - old(repr))
        invariant Accepted(execs, Value()) == Run(was, orders[..i])
      {
        var more := AcceptNewOrder(orders[i]);
        execs := execs + more;
        assert orders[..i + 1][..i] == orders[..i];
      }
      assert orders[..|orders|] == orders;
    }

    /** `poolAvailable`. */
    method PoolAvailable() returns (n: nat)
      requires Valid()
      ensures n + Resting(Value().books) == Value().capacity
    {
      n := pool.top;
    }

    /** `bestBid`: the price of the highest bid tick of the symbol, or zero without bids. */
    method BestBid(symbol: seq<Byte>) returns (price: real)
      requires Valid()
      ensures var bids := BookAt(Value().books, SymKey(Padded(CString(symbol), 8))).bids;
        && (bids == [] ==> price == 0.0)
        && (bids != [] ==> exists o :: o in bids && price == TickToPrice(Tick(o))
                                    && forall x :: x in bids ==> Tick(x) <= Tick(o))
    {
      hide PriceToTick, SymKey, SymbolBook.Shaped, DisjointBooks, BookSide.Ok;
      var key := SymKey(Padded(CString(symbol), 8));
      if key in books {
        assert BookMatches(key, pool.slab[..], pool.owner);
        books[key].bids.Front(key, pool.slab[..], pool.owner);
        if books[key].bids.best != -1 {
          assert market[key].bids[0] in market[key].bids;
          return TickToPrice(books[key].bids.best);
        }
      }
      price := 0.0;
    }

    /** `bestAsk`: the price of the lowest ask tick of the symbol, or zero without asks. */
    method BestAsk(symbol: seq<Byte>) returns (price: real)
      requires Valid()
      ensures var asks := BookAt(Value().books, SymKey(Padded(CString(symbol), 8))).asks;
        && (asks == [] ==> price == 0.0)
        && (asks != [] ==> exists o :: o in asks && price == TickToPrice(Tick(o))
                                    && forall x :: x in asks ==> Tick(o) <= Tick(x))
    {
      hide PriceToTick, SymKey, SymbolBook.Shaped, DisjointBooks, BookSide.Ok;
      var key := SymKey(Padded(CString(symbol), 8));
      if key in books {
        assert books[key].asks.levels.Length == maxTicks by { SameGrid(key); }
        assert BookMatches(key, pool.slab[..], pool.owner);
        books[key].asks.Front(key, pool.slab[..], pool.owner);
        if books[key].asks.best != maxTicks {
          assert market[key].asks[0] in market[key].asks;
          return TickToPrice(books[key].asks.best);
        }
      }
      price := 0.0;
    }

    /** In every valid state the fast structures of a symbol agree with its reference book: an occupancy
        bit is set exactly when an order rests at its tick, and the cached ticks are the highest bid and
        the lowest ask tick, or the sentinels when there is none. */
    lemma IndexesAgree(key: nat, t: nat)
      requires Valid() && key in books
      ensures var b, ref := books[key], market[key];
        && (t < 64 * b.bids.bits.Length ==>
              (Occupancy.TickBit(b.bids.bits[..], t) <==> exists o :: o in ref.bids && Tick(o) == t))
        && (t < 64 * b.asks.bits.Length ==>
              (Occupancy.TickBit(b.asks.bits[..], t) <==> exists o :: o in ref.asks && Tick(o) == t))
        && (if ref.bids == [] then b.bids.best == -1
            else b.bids.best == Tick(ref.bids[0]) && forall o :: o in ref.bids ==> Tick(o) <= b.bids.best)
        && (if ref.asks == [] then b.asks.best == maxTicks
            else b.asks.best == Tick(ref.asks[0]) && forall o :: o in ref.asks ==> b.asks.best <= Tick(o))
    {
      hide PriceToTick, SymbolBook.Shaped, DisjointBooks, BookSide.Ok, BookSide.Queue;
      var b := books[key];
      assert BookMatches(key, pool.slab[..], pool.owner);
      SameGrid(key);
      b.bids.Front(key, pool.slab[..], pool.owner);
      b.asks.Front(key, pool.slab[..], pool.owner);
      if t < 64 * b.bids.bits.Length { b.bids.BitsShowTicks(key, pool.slab[..], pool.owner, t); }
      if t < 64 * b.asks.bits.Length { b.asks.BitsShowTicks(key, pool.slab[..], pool.owner, t); }
    }

    /** Slot `s` is on the list of this symbol, side and tick. */
    ghost predicate OnList(s: int, key: nat, side: Side, tick: int)
      requires Shape()
      reads this`books, this`repr, repr
    {
      && key in books
      && (var q := if side.Buy? then books[key].bids.q else books[key].asks.q;
          0 <= tick < |q| && s in q[tick])
    }

    /** The free stack and the lists of all symbols, sides and ticks partition the slab: a slot is free
        exactly when it is on no list, and it is on at most one list. */
    lemma SlabPartition(s: int)
      requires Valid() && 0 <= s < pool.slab.Length
      ensures s in pool.freeStack[..pool.top] <==> !exists key, side, tick :: OnList(s, key, side, tick)
      ensures forall key, side, tick, key', side', tick' ::
        OnList(s, key, side, tick) && OnList(s, key', side', tick') ==> key == key' && side == side' && tick == tick'
    {
      forall key, side, tick | OnList(s, key, side, tick) ensures pool.owner[s] == Held(key, side, tick) {
        OnListOwned(s, key, side, tick);
      }
      var w := pool.owner[s];
      if w.Held? { OwnedOnList(s); }
    }

    lemma OnListOwned(s: int, key: nat, side: Side, tick: int)
      requires Valid() && OnList(s, key, side, tick)
      ensures 0 <= s < |pool.owner| && pool.owner[s] == Held(key, side, tick)
    {
      hide DisjointBooks, SymbolBook.Value, Proper, StackOk, BitsOk, BestOk, Fits;
      assert BookMatches(key, pool.slab[..], pool.owner);
      var b := if side.Buy? then books[key].bids else books[key].asks;
      assert LevelOk(key, side, tick, pool.slab[..], pool.owner, b.levels[..][tick], b.q[tick]);
      var i :| 0 <= i < |b.q[tick]| && b.q[tick][i] == s;
    }

    lemma OwnedOnList(s: int)
      requires Valid() && 0 <= s < |pool.owner| && pool.owner[s].Held?
      ensures OnList(s, pool.owner[s].key, pool.owner[s].side, pool.owner[s].tick)
    {
      hide DisjointBooks, SymbolBook.Value, Proper, StackOk, BitsOk, BestOk, LevelOk;
      var w := pool.owner[s];
      assert BookMatches(w.key, pool.slab[..], pool.owner);
      assert HeldBy(w, w.key, w.side);
    }
  }
}
