/** The reference order book of one symbol: each side is one sequence in priority order,
    and an incoming order trades against the front of the opposite side before it rests. */
module Reference {
  import opened Trading

  datatype Book = Book(bids: seq<Order>, asks: seq<Order>) {
    function Side(s: Trading.Side): seq<Order> { if s.Buy? then bids else asks }
    function Size(): nat { |bids| + |asks| }
  }

  const EMPTY := Book([], [])

  /** Tick `a` has strictly higher priority than tick `b` on this side. */
  predicate Better(side: Side, a: int, b: int) {
    if side.Buy? then a > b else a < b
  }

  /** Incoming order `o` may trade with the resting order `r`. */
  predicate Crosses(o: Order, r: Order) {
    if o.side.Buy? then Tick(o) >= Tick(r) else Tick(o) <= Tick(r)
  }

  /** Rests `o` behind every order of the same or a better tick. */
  function Insert(queue: seq<Order>, o: Order): (r: seq<Order>)
    ensures |r| == |queue| + 1
  {
    if queue == [] || Better(o.side, Tick(o), Tick(queue[0])) then [o] + queue
    else [queue[0]] + Insert(queue[1..], o)
  }

  /** The execution of `quantity` between incoming `o` and resting `r`: it trades at the resting
      price and carries the incoming order's side and arrival time. */
  function Trade(o: Order, r: Order, quantity: int): Execution {
    Execution(
      StrNCopy(if o.side.Buy? then o.id else r.id),
      StrNCopy(if o.side.Buy? then r.id else o.id),
      StrNCopy(o.symbol), r.price, quantity, o.side, o.arrivalNs)
  }

  function Reduce(o: Order, amount: int): Order { o.(quantity := o.quantity - amount) }

  datatype Outcome = Outcome(execs: seq<Execution>, own: seq<Order>, opp: seq<Order>)

  /** Fills `o` from the front of `opp` while it crosses and has quantity left; what is left of it
      rests in `own`. */
  function Sweep(o: Order, own: seq<Order>, opp: seq<Order>): Outcome
    decreases |opp|
  {
    if opp == [] || !Crosses(o, opp[0]) then Outcome([], Insert(own, o), opp)
    else
      var traded := Min(o.quantity, opp[0].quantity);
      var exec := Trade(o, opp[0], traded);
      var left, rest := Reduce(o, traded), Reduce(opp[0], traded);
      if left.quantity == 0 then
        Outcome([exec], own, if rest.quantity == 0 then opp[1..] else [rest] + opp[1..])
      else
        var more := Sweep(left, own, opp[1..]);
        Outcome([exec] + more.execs, more.own, more.opp)
  }

  datatype Step = Step(execs: seq<Execution>, book: Book)

  function Submit(book: Book, o: Order): Step {
    var res := Sweep(o, book.Side(o.side), book.Side(o.side.Opposite()));
    Step(res.execs, if o.side.Buy? then Book(res.own, res.opp) else Book(res.opp, res.own))
  }

  // ---------------------------------------------------------------------------------------------
  // What every book keeps

  predicate Sorted(side: Side, queue: seq<Order>) {
    forall i, j :: 0 <= i < j < |queue| ==> !Better(side, Tick(queue[j]), Tick(queue[i]))
  }

  predicate Uncrossed(bids: seq<Order>, asks: seq<Order>) {
    bids == [] || asks == [] || Tick(bids[0]) < Tick(asks[0])
  }

  /** Both sides are in priority order and hold only their own kind of order, and they do not cross. */
  predicate Proper(book: Book) {
    && Sorted(Buy, book.bids) && Sorted(Sell, book.asks)
    && Uncrossed(book.bids, book.asks)
    && (forall o :: o in book.bids ==> o.side.Buy?)
    && (forall o :: o in book.asks ==> o.side.Sell?)
  }

  lemma EmptyProper()
    ensures Proper(EMPTY)
  {}

  lemma {:induction false} InsertAt(queue: seq<Order>, o: Order) returns (k: nat)
    requires Sorted(o.side, queue)
    ensures k <= |queue| && Insert(queue, o) == queue[..k] + [o] + queue[k..]
    ensures forall i :: 0 <= i < k ==> !Better(o.side, Tick(o), Tick(queue[i]))
    ensures forall i :: k <= i < |queue| ==> Better(o.side, Tick(o), Tick(queue[i]))
  {
    hide PriceToTick;
    if queue == [] || Better(o.side, Tick(o), Tick(queue[0])) {
      k := 0;
      assert Insert(queue, o) == queue[..k] + [o] + queue[k..];
    } else {
      var rest := queue[1..];
      var k' := InsertAt(rest, o);
      k := k' + 1;
      assert queue[..k] == [queue[0]] + rest[..k'] && queue[k..] == rest[k'..];
      forall i | k <= i < |queue| ensures Better(o.side, Tick(o), Tick(queue[i])) {
        assert queue[i] == rest[i - 1];
      }
    }
  }

  /** `Insert` puts the order at the one place that keeps priority order and puts it last among
      orders of its own tick. */
  lemma InsertPlace(queue: seq<Order>, o: Order) returns (k: nat)
    requires Sorted(o.side, queue)
    ensures k <= |queue| && Insert(queue, o) == queue[..k] + [o] + queue[k..]
    ensures forall i :: 0 <= i < k ==> !Better(o.side, Tick(o), Tick(queue[i]))
    ensures forall i :: k <= i < |queue| ==> Better(o.side, Tick(o), Tick(queue[i]))
    ensures Sorted(o.side, Insert(queue, o))
  {
    hide PriceToTick, Insert;
    k := InsertAt(queue, o);
    var r := Insert(queue, o);
    assert forall i :: 0 <= i < k ==> r[i] == queue[i];
    assert forall i :: k < i < |r| ==> r[i] == queue[i - 1];
  }

  /** The executions of a sweep are with the front orders it crosses, one each, in order. */
  lemma {:induction false} SweepExecs(o: Order, own: seq<Order>, opp: seq<Order>)
    ensures var execs := Sweep(o, own, opp).execs;
      && |execs| <= |opp|
      && (forall i :: 0 <= i < |execs| ==>
            Crosses(o, opp[i]) && execs[i] == Trade(o, opp[i], execs[i].quantity))
      && (forall i :: 0 <= i < |execs| - 1 ==> execs[i].quantity == opp[i].quantity)
    decreases |opp|
  {
    hide PriceToTick, StrNCopy, Insert;
    if opp != [] && Crosses(o, opp[0]) {
      var traded := Min(o.quantity, opp[0].quantity);
      var left, rest := Reduce(o, traded), opp[1..];
      if left.quantity != 0 {
        SweepExecs(left, own, rest);
        var execs, more := Sweep(o, own, opp).execs, Sweep(left, own, rest).execs;
        forall i | 0 < i < |execs|
          ensures Crosses(o, opp[i]) && execs[i] == Trade(o, opp[i], execs[i].quantity)
          ensures i < |execs| - 1 ==> execs[i].quantity == opp[i].quantity
        {
          assert execs[i] == more[i - 1] && opp[i] == rest[i - 1];
        }
      }
    }
  }

  /** A sweep leaves the opposite side as it was behind the orders it traded with, the last of which may
      stay with its quantity reduced. */
  lemma {:induction false} SweepLeaves(o: Order, own: seq<Order>, opp: seq<Order>)
    ensures var out := Sweep(o, own, opp);
      var k := |out.execs|;
      && k <= |opp|
      && (|| out.opp == opp[k..]
          || (k > 0 && out.opp == [Reduce(opp[k - 1], out.execs[k - 1].quantity)] + opp[k..]))
    decreases |opp|
  {
    hide PriceToTick, StrNCopy, Insert, Reduce;
    if opp != [] && Crosses(o, opp[0]) {
      var traded := Min(o.quantity, opp[0].quantity);
      var left, rest := Reduce(o, traded), opp[1..];
      if left.quantity != 0 {
        SweepLeaves(left, own, rest);
        var k := |Sweep(o, own, opp).execs|;
        assert opp[k..] == rest[k - 1..];
        if k > 1 { assert opp[k - 1] == rest[k - 2]; }
      }
    }
  }

  /** Priority: the executions of a sweep are with the front orders of the opposite side, one each in
      order; every one but the last is filled completely, and the untouched rest stays as it was. */
  lemma SweepTakesPrefix(o: Order, own: seq<Order>, opp: seq<Order>)
    ensures var out := Sweep(o, own, opp);
      var k := |out.execs|;
      && k <= |opp|
      && (forall i :: 0 <= i < k ==> Crosses(o, opp[i]))
      && (forall i :: 0 <= i < k ==> out.execs[i] == Trade(o, opp[i], out.execs[i].quantity))
      && (forall i :: 0 <= i < k - 1 ==> out.execs[i].quantity == opp[i].quantity)
      && (|| out.opp == opp[k..]
          || (k > 0 && out.opp == [Reduce(opp[k - 1], out.execs[k - 1].quantity)] + opp[k..]))
  {
    hide Sweep, Trade, Crosses, Reduce;
    SweepExecs(o, own, opp);
    SweepLeaves(o, own, opp);
  }

  function Filled(execs: seq<Execution>): int {
    if execs == [] then 0 else execs[0].quantity + Filled(execs[1..])
  }

  /** How a sweep ends: either the order is filled completely and does not rest, or what is left of it
      rests, nothing crosses it any more and the opposite side only lost whole orders. */
  lemma {:induction false} SweepEnd(o: Order, own: seq<Order>, opp: seq<Order>)
    ensures var out := Sweep(o, own, opp);
      var left := Reduce(o, Filled(out.execs));
      && |out.execs| <= |opp|
      && (|| (out.own == own && left.quantity == 0)
          || (&& out.own == Insert(own, left)
              && out.opp == opp[|out.execs|..]
              && (out.opp == [] || !Crosses(left, out.opp[0]))))
    decreases |opp|
  {
    hide PriceToTick, StrNCopy, Insert;
    if opp != [] && Crosses(o, opp[0]) {
      var traded := Min(o.quantity, opp[0].quantity);
      var left := Reduce(o, traded);
      var out := Sweep(o, own, opp);
      if left.quantity != 0 {
        SweepEnd(left, own, opp[1..]);
        var more := Sweep(left, own, opp[1..]);
        assert Reduce(left, Filled(more.execs)) == Reduce(o, traded + Filled(more.execs));
        assert out.execs[1..] == more.execs;
        assert opp[|out.execs|..] == opp[1..][|more.execs|..];
      } else {
        assert out.execs[1..] == [];
      }
    }
  }

  lemma SuffixSorted(side: Side, queue: seq<Order>, k: nat, amount: int)
    requires Sorted(side, queue) && k <= |queue|
    ensures Sorted(side, queue[k..])
    ensures k > 0 ==> Sorted(side, [Reduce(queue[k - 1], amount)] + queue[k..])
  {
    if k > 0 {
      var q := [Reduce(queue[k - 1], amount)] + queue[k..];
      forall i | 0 <= i < |q| ensures Tick(q[i]) == Tick(queue[k - 1 + i]) {}
    }
  }

  /** A proper book stays proper: after every order both sides are in priority order and uncrossed. */
  lemma SubmitKeepsProper(book: Book, o: Order)
    requires Proper(book)
    ensures Proper(Submit(book, o).book)
  {
    var own, opp := book.Side(o.side), book.Side(o.side.Opposite());
    var out := Sweep(o, own, opp);
    var k := |out.execs|;
    var left := Reduce(o, Filled(out.execs));
    SweepTakesPrefix(o, own, opp);
    SweepEnd(o, own, opp);
    SuffixSorted(o.side.Opposite(), opp, k, if k > 0 then out.execs[k - 1].quantity else 0);
    var at := InsertPlace(own, left);
    UncrossedAfter(o, own, opp);
    SweepKeepsSides(o, own, opp);
  }

  /** Every order a sweep leaves has the tick and side of an order that was there before, or of `o`. */
  lemma SweepKeepsSides(o: Order, own: seq<Order>, opp: seq<Order>)
    requires Sorted(o.side, own)
    ensures var out := Sweep(o, own, opp);
      && (forall x :: x in out.own ==> x in own || x == Reduce(o, Filled(out.execs)))
      && (forall x :: x in out.opp ==> exists y :: y in opp && x == y.(quantity := x.quantity))
  {
    hide PriceToTick, Trade;
    var out := Sweep(o, own, opp);
    var k := |out.execs|;
    var left := Reduce(o, Filled(out.execs));
    SweepTakesPrefix(o, own, opp);
    SweepEnd(o, own, opp);
    var at := InsertPlace(own, left);
    forall x | x in out.opp ensures exists y :: y in opp && x == y.(quantity := x.quantity) {
      if x in opp[k..] { assert x in opp && x == x.(quantity := x.quantity); }
      else { assert opp[k - 1] in opp && x == opp[k - 1].(quantity := x.quantity); }
    }
  }

  lemma UncrossedAfter(o: Order, own: seq<Order>, opp: seq<Order>)
    requires Sorted(o.side, own) && Sorted(o.side.Opposite(), opp)
    requires if o.side.Buy? then Uncrossed(own, opp) else Uncrossed(opp, own)
    ensures var out := Sweep(o, own, opp);
      if o.side.Buy? then Uncrossed(out.own, out.opp) else Uncrossed(out.opp, out.own)
  {
    var out := Sweep(o, own, opp);
    var k := |out.execs|;
    var left := Reduce(o, Filled(out.execs));
    SweepTakesPrefix(o, own, opp);
    SweepEnd(o, own, opp);
    if out.opp != [] && out.own != [] {
      var j := if out.opp == opp[k..] then k else k - 1;
      assert Tick(out.opp[0]) == Tick(opp[j]) && 0 <= j < |opp|;
      if out.own != own { assert out.own[0] == left || out.own[0] == own[0]; }
    }
  }
}
