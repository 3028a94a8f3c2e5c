/** The reference market: one reference book per symbol key, a price grid and a bound on the number
    of resting orders. */
module Markets {
  import opened Trading
  import opened Reference

  datatype Market = Market(books: map<nat, Book>, maxTicks: nat, capacity: nat)

  function BookAt(books: map<nat, Book>, key: nat): Book {
    if key in books then books[key] else EMPTY
  }

  /** Number of orders resting in all books. */
  ghost function Resting(books: map<nat, Book>): nat
    decreases |books|
  {
    if books == map[] then 0
    else
      var k :| k in books;
      books[k].Size() + Resting(books - {k})
  }

  lemma {:induction false} RestingSplit(books: map<nat, Book>, key: nat)
    requires key in books
    ensures Resting(books) == books[key].Size() + Resting(books - {key})
    decreases |books|
  {
    var k :| k in books && Resting(books) == books[k].Size() + Resting(books - {k});
    if k != key {
      RestingSplit(books - {k}, key);
      RestingSplit(books - {key}, k);
      assert books - {k} - {key} == books - {key} - {k};
    }
  }

  lemma RestingUpdate(books: map<nat, Book>, key: nat, book: Book)
    ensures Resting(books[key := book]) == Resting(books) - BookAt(books, key).Size() + book.Size()
  {
    RestingSplit(books[key := book], key);
    if key in books {
      RestingSplit(books, key);
      assert books[key := book] - {key} == books - {key};
    } else {
      assert books[key := book] - {key} == books;
    }
  }

  datatype Accepted = Accepted(execs: seq<Execution>, market: Market)

  /** Whether the order enters a book at all: its tick is on the grid and there is room. */
  ghost predicate Enters(m: Market, o: Order) {
    0 <= Tick(o) < m.maxTicks && Resting(m.books) < m.capacity
  }

  ghost function Accept(m: Market, o: Order): Accepted {
    if !Enters(m, o) then Accepted([], m)
    else
      var step := Submit(BookAt(m.books, SymKey(o.symbol)), o);
      Accepted(step.execs, m.(books := m.books[SymKey(o.symbol) := step.book]))
  }

  /** A whole run: all executions in order, and the market it ends in. */
  ghost function Run(m: Market, orders: seq<Order>): Accepted
    decreases |orders|
  {
    if orders == [] then Accepted([], m)
    else
      var before := Run(m, orders[..|orders| - 1]);
      var last := Accept(before.market, orders[|orders| - 1]);
      Accepted(before.execs + last.execs, last.market)
  }
}
