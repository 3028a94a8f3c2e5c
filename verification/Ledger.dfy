/** The position ledger: net quantity, average entry price and realised profit per symbol. */
module Ledger {
  import opened Trading

  /** A double that may have been divided by zero: any finite value, or one of NaN and the infinities.
      Sums and products with a value that is not finite are not finite either. */
  datatype Number = Finite(x: real) | NonFinite

  function Plus(a: Number, b: Number): Number {
    if a.Finite? && b.Finite? then Finite(a.x + b.x) else NonFinite
  }

  function Minus(a: Number, b: Number): Number {
    if a.Finite? && b.Finite? then Finite(a.x - b.x) else NonFinite
  }

  function Times(a: Number, b: Number): Number {
    if a.Finite? && b.Finite? then Finite(a.x * b.x) else NonFinite
  }

  function Over(a: Number, b: real): Number {
    if a.Finite? && b != 0.0 then Finite(a.x / b) else NonFinite
  }

  datatype Position = Position(quantity: real, averageEntryPrice: Number, realisedPnl: Number)

  /** A position entry as `operator[]` creates it. */
  const FLAT := Position(0.0, Finite(0.0), Finite(0.0))

  predicate IsFinite(p: Position) { p.averageEntryPrice.Finite? && p.realisedPnl.Finite? }

  /** The part of an execution the ledger looks at. */
  datatype Fill = Fill(side: Side, quantity: real, price: real) {
    function Signed(): real { if side.Buy? then quantity else -quantity }
    function Worth(): real { quantity * price }
  }

  /** Volume-weighted average of a holding `w` at price `x` and a fill `n` at `price`. */
  function Vwap(w: real, x: Number, n: real, price: real): Number {
    Over(Plus(Times(Finite(w), x), Finite(n * price)), w + n)
  }

  /** Profit on `n` units bought at one price and sold at another. */
  function Gain(n: real, bought: Number, sold: Number): Number {
    Times(Finite(n), Minus(sold, bought))
  }

  function Apply(p: Position, f: Fill): Position {
    var q, avg, n, price := p.quantity, p.averageEntryPrice, f.quantity, Finite(f.price);
    if f.side.Buy? then
      if q < 0.0 then
        var cover := if n <= -q then n else -q;
        Position(q + n, if q + n > 0.0 then price else avg, Plus(p.realisedPnl, Gain(cover, price, avg)))
      else
        Position(q + n, Vwap(q, avg, n, f.price), p.realisedPnl)
    else
      if q > 0.0 then
        if n >= q then
          Position(-(n - q), if n - q > 0.0 then price else Finite(0.0), Plus(p.realisedPnl, Gain(q, avg, price)))
        else
          Position(q - n, avg, Plus(p.realisedPnl, Gain(n, avg, price)))
      else if q == 0.0 then
        Position(-n, price, p.realisedPnl)
      else
        Position(q - n, Vwap(-q, avg, n, f.price), p.realisedPnl)
  }

  // ---------------------------------------------------------------------------------------------
  // When the ledger stays finite

  /** The two average-price formulas divide by the size of the new position. From a position of size `q`
      the fill divides by something other than zero, or not at all. */
  predicate Defined(q: real, f: Fill) {
    && (f.side.Buy? && q >= 0.0 ==> q + f.quantity != 0.0)
    && (f.side.Sell? && q < 0.0 ==> -q + f.quantity != 0.0)
  }

  /** From a finite position, the result of a fill is finite exactly when it does not divide by zero. */
  lemma ApplyFinite(p: Position, f: Fill)
    requires IsFinite(p)
    ensures IsFinite(Apply(p, f)) <==> Defined(p.quantity, f)
    ensures Apply(p, f).quantity == p.quantity + f.Signed()
  {}

  function Fold(p: Position, fills: seq<Fill>): Position {
    if fills == [] then p else Apply(Fold(p, fills[..|fills| - 1]), fills[|fills| - 1])
  }

  function NetQuantity(fills: seq<Fill>): real {
    if fills == [] then 0.0 else NetQuantity(fills[..|fills| - 1]) + fills[|fills| - 1].Signed()
  }

  /** No fill of the run divides by zero. */
  predicate AllDefined(fills: seq<Fill>) {
    forall i :: 0 <= i < |fills| ==> Defined(NetQuantity(fills[..i]), fills[i])
  }

  lemma AllDefinedPrefix(fills: seq<Fill>, k: nat)
    requires AllDefined(fills) && k <= |fills|
    ensures AllDefined(fills[..k])
  {
    forall i | 0 <= i < k ensures Defined(NetQuantity(fills[..k][..i]), fills[..k][i]) {
      assert fills[..k][..i] == fills[..i];
    }
  }

  /** In every run, whatever happens to the prices, the quantity is buys minus sells. */
  lemma {:induction false} RunQuantity(fills: seq<Fill>)
    ensures Fold(FLAT, fills).quantity == NetQuantity(fills)
  {
    hide Vwap, Gain, Plus;
    if fills != [] { RunQuantity(fills[..|fills| - 1]); }
  }

  lemma {:induction false} RunFinite(fills: seq<Fill>)
    requires AllDefined(fills)
    ensures IsFinite(Fold(FLAT, fills))
  {
    hide Apply, Defined, IsFinite;
    if fills == [] {
      assert IsFinite(FLAT) by { FlatFinite(); }
    } else {
      var k := |fills| - 1;
      AllDefinedPrefix(fills, k);
      RunFinite(fills[..k]);
      RunQuantity(fills[..k]);
      ApplyFinite(Fold(FLAT, fills[..k]), fills[k]);
    }
  }

  lemma FlatFinite()
    ensures IsFinite(FLAT)
  {}

  /** The position is finite after every fill of a run exactly when no fill of it divides by zero. */
  lemma FiniteIffDefined(fills: seq<Fill>)
    ensures (forall k :: 0 <= k <= |fills| ==> IsFinite(Fold(FLAT, fills[..k]))) <==> AllDefined(fills)
  {
    hide Apply, Defined, IsFinite;
    if AllDefined(fills) {
      forall k | 0 <= k <= |fills| ensures IsFinite(Fold(FLAT, fills[..k])) {
        AllDefinedPrefix(fills, k);
        RunFinite(fills[..k]);
      }
    }
    if forall k :: 0 <= k <= |fills| ==> IsFinite(Fold(FLAT, fills[..k])) {
      forall i | 0 <= i < |fills| ensures Defined(NetQuantity(fills[..i]), fills[i]) {
        RunQuantity(fills[..i]);
        assert fills[..i + 1][..i] == fills[..i];
        assert IsFinite(Fold(FLAT, fills[..i + 1]));
        ApplyFinite(Fold(FLAT, fills[..i]), fills[i]);
      }
    }
  }

  /** Fill `i` buys nothing while the position is flat. */
  predicate BuysNothingFlat(fills: seq<Fill>, i: nat)
    requires i < |fills|
  {
    fills[i].side.Buy? && fills[i].quantity == 0.0 && NetQuantity(fills[..i]) == 0.0
  }

  /** With quantities of at least zero there is one way to divide by zero: a BUY of nothing on a flat
      position. Without one the whole run is finite, and with positive quantities there is none. */
  lemma NonNegativeDefined(fills: seq<Fill>)
    requires forall f :: f in fills ==> f.quantity >= 0.0
    ensures AllDefined(fills) <==> forall i :: 0 <= i < |fills| ==> !BuysNothingFlat(fills, i)
    ensures PositiveFills(fills) ==> AllDefined(fills)
  {
    forall i | 0 <= i < |fills|
      ensures Defined(NetQuantity(fills[..i]), fills[i]) <==> !BuysNothingFlat(fills, i)
    {
      assert fills[i] in fills;
    }
  }

  predicate PositiveFills(fills: seq<Fill>) {
    forall f :: f in fills ==> f.quantity > 0.0
  }

  /** It does happen: one BUY of nothing, first of all, and the average entry price is no number. */
  lemma BuyOfNothing(price: real)
    ensures var fills := [Fill(Buy, 0.0, price)];
      BuysNothingFlat(fills, 0) && Fold(FLAT, fills).averageEntryPrice == NonFinite
  {
    hide Vwap, Gain;
    var fills := [Fill(Buy, 0.0, price)];
    assert fills[..0] == [];
    assert Fold(FLAT, fills) == Apply(FLAT, fills[0]);
    VwapOfNothing(FLAT.averageEntryPrice, price);
  }

  lemma VwapOfNothing(x: Number, price: real)
    ensures Vwap(0.0, x, 0.0, price) == NonFinite
  {}

  // ---------------------------------------------------------------------------------------------
  // The conservation law

  /** Profit locked in minus the cost the open position carries. */
  function Balance(p: Position): real
    requires IsFinite(p)
  {
    p.realisedPnl.x - p.quantity * p.averageEntryPrice.x
  }

  lemma DivBack(a: real, b: real)
    requires b != 0.0
    ensures b * (a / b) == a
  {}

  lemma VwapBack(w: real, x: real, n: real, price: real)
    requires w + n != 0.0
    ensures Vwap(w, Finite(x), n, price).Finite?
    ensures (w + n) * Vwap(w, Finite(x), n, price).x == w * x + n * price
  {
    DivBack(w * x + n * price, w + n);
  }

  lemma BuyConserves(p: Position, f: Fill)
    requires IsFinite(p) && Defined(p.quantity, f) && f.side.Buy?
    ensures IsFinite(Apply(p, f)) && Balance(Apply(p, f)) == Balance(p) - f.quantity * f.price
  {
    hide Vwap;
    var q, avg, n, c := p.quantity, p.averageEntryPrice.x, f.quantity, f.price;
    if q >= 0.0 {
      VwapBack(q, avg, n, c);
    } else if q + n > 0.0 {
      assert -q * (avg - c) == -(q * avg) + q * c;
      assert (q + n) * c == q * c + n * c;
    } else {
      assert n * (avg - c) == n * avg - n * c;
      assert (q + n) * avg == q * avg + n * avg;
    }
  }

  lemma SellConserves(p: Position, f: Fill)
    requires IsFinite(p) && Defined(p.quantity, f) && f.side.Sell?
    ensures IsFinite(Apply(p, f)) && Balance(Apply(p, f)) == Balance(p) + f.quantity * f.price
  {
    hide Vwap;
    var q, avg, n, c := p.quantity, p.averageEntryPrice.x, f.quantity, f.price;
    if q < 0.0 {
      VwapBack(-q, avg, n, c);
      var v := Vwap(-q, Finite(avg), n, c).x;
      assert (q - n) * v == -((-q + n) * v);
    } else if q > 0.0 && n > q {
      assert q * (c - avg) == q * c - q * avg;
      assert -(n - q) * c == q * c - n * c;
    } else if q > 0.0 && n < q {
      assert n * (c - avg) == n * c - n * avg;
      assert (q - n) * avg == q * avg - n * avg;
    }
  }

  /** One fill: the quantity moves by the signed fill, and the balance falls by exactly the cash paid,
      whatever branch is taken and whatever the sign of the quantity. */
  lemma ApplyConserves(p: Position, f: Fill)
    requires IsFinite(p) && Defined(p.quantity, f)
    ensures IsFinite(Apply(p, f)) && Apply(p, f).quantity == p.quantity + f.Signed()
    ensures Balance(Apply(p, f)) == Balance(p) - f.Signed() * f.price
  {
    hide Apply, Balance, Defined, IsFinite;
    ApplyFinite(p, f);
    if f.side.Buy? { BuyConserves(p, f); } else { SellConserves(p, f); }
  }

  function CashPaid(fills: seq<Fill>): real {
    if fills == [] then 0.0
    else CashPaid(fills[..|fills| - 1]) + fills[|fills| - 1].Signed() * fills[|fills| - 1].price
  }

  lemma {:induction false} RunBalance(fills: seq<Fill>)
    requires AllDefined(fills)
    ensures IsFinite(Fold(FLAT, fills)) && Balance(Fold(FLAT, fills)) == -CashPaid(fills)
  {
    hide Apply, Defined, Balance, IsFinite;
    if fills == [] {
      FlatBalance();
    } else {
      var k := |fills| - 1;
      AllDefinedPrefix(fills, k);
      RunBalance(fills[..k]);
      RunQuantity(fills[..k]);
      ApplyConserves(Fold(FLAT, fills[..k]), fills[k]);
    }
  }

  lemma FlatBalance()
    ensures IsFinite(FLAT) && Balance(FLAT) == 0.0
  {}

  /** Over every run from flat that does not divide by zero, of any quantities: quantity is buys minus
      sells, and realised profit is the cost carried by the open position minus the net cash paid. */
  lemma RunConserves(fills: seq<Fill>)
    requires AllDefined(fills)
    ensures var p := Fold(FLAT, fills);
      && IsFinite(p) && p.quantity == NetQuantity(fills)
      && p.realisedPnl.x == p.quantity * p.averageEntryPrice.x - CashPaid(fills)
  {
    hide Fold, AllDefined, NetQuantity, CashPaid;
    RunQuantity(fills);
    RunBalance(fills);
  }

  datatype Option<T> = None | Some(value: T)

  /** `unrealisedPnl` of the risk report: marked at the latest tick, or at the entry price without one. */
  function Unrealised(p: Position, tick: Option<real>): Number {
    var mark := if tick.Some? then Finite(tick.value) else p.averageEntryPrice;
    Times(Minus(mark, p.averageEntryPrice), Finite(p.quantity))
  }

  /** What the report adds up to: for any mark, realised plus unrealised profit is the value of the
      position at the mark minus the net cash paid for it. Without a mark nothing is unrealised. */
  lemma ReportBalances(fills: seq<Fill>, mark: real)
    requires AllDefined(fills)
    ensures var p := Fold(FLAT, fills);
      Plus(p.realisedPnl, Unrealised(p, Some(mark))) == Finite(mark * NetQuantity(fills) - CashPaid(fills))
    ensures Unrealised(Fold(FLAT, fills), None) == Finite(0.0)
  {
    hide Fold, AllDefined, NetQuantity, CashPaid;
    RunConserves(fills);
    var p := Fold(FLAT, fills);
    var avg := p.averageEntryPrice.x;
    assert (mark - avg) * p.quantity == mark * p.quantity - p.quantity * avg;
  }

  // ---------------------------------------------------------------------------------------------
  // Where profit and cost go

  /** `side` is the direction in which `p` grows: it is long or flat and `side` buys, or short or flat and
      `side` sells. */
  predicate Grows(p: Position, side: Side) {
    if side.Buy? then p.quantity >= 0.0 else p.quantity <= 0.0
  }

  function Abs(x: real): real { if x >= 0.0 then x else -x }

  /** All fills are on one side, for positive quantities. */
  predicate OneSided(fills: seq<Fill>, side: Side) {
    forall f :: f in fills ==> f.side == side && f.quantity > 0.0
  }

  function Volume(fills: seq<Fill>): real {
    if fills == [] then 0.0 else Volume(fills[..|fills| - 1]) + fills[|fills| - 1].quantity
  }

  /** Quantity times price, added up. */
  function Worth(fills: seq<Fill>): real {
    if fills == [] then 0.0
    else Worth(fills[..|fills| - 1]) + fills[|fills| - 1].Worth()
  }

  /** A fill in the direction of the position realises nothing, whatever its quantity and the position. */
  lemma GrowthRealisesNothing(p: Position, f: Fill)
    requires Grows(p, f.side)
    ensures Apply(p, f).realisedPnl == p.realisedPnl
  {
    hide Vwap, Gain, Plus;
  }

  lemma GrowthAverages(p: Position, f: Fill)
    requires IsFinite(p) && Grows(p, f.side) && f.quantity > 0.0
    ensures var r := Apply(p, f);
      && IsFinite(r) && Grows(r, f.side) && Abs(r.quantity) == Abs(p.quantity) + f.quantity
      && Abs(r.quantity) * r.averageEntryPrice.x
         == Abs(p.quantity) * p.averageEntryPrice.x + f.Worth()
  {
    hide Vwap, Gain, Plus;
    ApplyFinite(p, f);
    if f.side.Buy? || p.quantity < 0.0 {
      VwapBack(Abs(p.quantity), p.averageEntryPrice.x, f.quantity, f.price);
    }
  }

  /** While a position only grows, over any number of fills from any finite position: nothing is realised,
      and size times average is what it was plus what the fills cost. From flat, that is the
      volume-weighted average of the fills. */
  lemma {:induction false} GrowingRun(p: Position, fills: seq<Fill>, side: Side)
    requires IsFinite(p) && Grows(p, side) && OneSided(fills, side)
    ensures var r := Fold(p, fills);
      && IsFinite(r) && Grows(r, side)
      && r.realisedPnl == p.realisedPnl
      && Abs(r.quantity) == Abs(p.quantity) + Volume(fills)
      && Abs(r.quantity) * r.averageEntryPrice.x == Abs(p.quantity) * p.averageEntryPrice.x + Worth(fills)
  {
    hide Apply, IsFinite, Grows, Abs, Fill.Worth;
    if fills != [] {
      var prefix, f := fills[..|fills| - 1], fills[|fills| - 1];
      assert f in fills;
      GrowingRun(p, prefix, side);
      GrowthRealisesNothing(Fold(p, prefix), f);
      GrowthAverages(Fold(p, prefix), f);
    }
  }

  /** A fill against the position that does not use it up leaves the average, also one that is no number. */
  lemma ReductionKeepsAverage(p: Position, f: Fill)
    requires p.quantity != 0.0 && !Grows(p, f.side) && 0.0 < f.quantity < Abs(p.quantity)
    ensures var r := Apply(p, f);
      && r.averageEntryPrice == p.averageEntryPrice
      && Abs(r.quantity) == Abs(p.quantity) - f.quantity && r.quantity != 0.0 && !Grows(r, f.side)
  {
    hide Vwap, Gain, Plus;
  }

  /** `r` is what is left of `p` after fills against it of this volume and worth: the average stays, and what
      is realised is the difference between what the fills are worth and what that quantity cost at the
      average. */
  predicate Shrunk(p: Position, r: Position, side: Side, volume: real, worth: real)
    requires IsFinite(p)
  {
    var gain := worth - volume * p.averageEntryPrice.x;
    && IsFinite(r) && r.averageEntryPrice == p.averageEntryPrice
    && r.quantity != 0.0 && !Grows(r, side) && Abs(r.quantity) == Abs(p.quantity) - volume
    && r.realisedPnl.x == p.realisedPnl.x + (if side.Sell? then gain else -gain)
  }

  lemma ShrinksOn(p: Position, r: Position, volume: real, worth: real, f: Fill)
    requires IsFinite(p) && Shrunk(p, r, f.side, volume, worth) && 0.0 < f.quantity < Abs(r.quantity)
    ensures Shrunk(p, Apply(r, f), f.side, volume + f.quantity, worth + f.Worth())
  {
    hide Apply, Grows, Abs;
    ReductionKeepsAverage(r, f);
    ReductionRealises(r, f);
    var avg := p.averageEntryPrice.x;
    assert (volume + f.quantity) * avg == volume * avg + f.quantity * avg;
  }

  /** While a position only shrinks, over any number of fills, it does so at its average. */
  lemma {:induction false} ShrinkingRun(p: Position, fills: seq<Fill>, side: Side)
    requires IsFinite(p) && p.quantity != 0.0 && !Grows(p, side)
    requires OneSided(fills, side) && Volume(fills) < Abs(p.quantity)
    ensures Shrunk(p, Fold(p, fills), side, Volume(fills), Worth(fills))
  {
    hide Apply, Grows, Abs, Shrunk, Fill.Worth;
    if fills == [] {
      NotShrunk(p, side);
    } else {
      var prefix, f := fills[..|fills| - 1], fills[|fills| - 1];
      assert f in fills;
      ShrinkingRun(p, prefix, side);
      ShrunkSize(p, Fold(p, prefix), side, Volume(prefix), Worth(prefix));
      ShrinksOn(p, Fold(p, prefix), Volume(prefix), Worth(prefix), f);
    }
  }

  lemma NotShrunk(p: Position, side: Side)
    requires IsFinite(p) && p.quantity != 0.0 && !Grows(p, side)
    ensures Shrunk(p, p, side, 0.0, 0.0)
  {}

  lemma ShrunkSize(p: Position, r: Position, side: Side, volume: real, worth: real)
    requires IsFinite(p) && Shrunk(p, r, side, volume, worth)
    ensures Abs(r.quantity) == Abs(p.quantity) - volume
  {}

  lemma ReductionRealises(p: Position, f: Fill)
    requires IsFinite(p) && p.quantity != 0.0 && !Grows(p, f.side) && 0.0 < f.quantity < Abs(p.quantity)
    ensures var gain := f.quantity * f.price - f.quantity * p.averageEntryPrice.x;
      && IsFinite(Apply(p, f))
      && Apply(p, f).realisedPnl.x == p.realisedPnl.x + (if f.side.Sell? then gain else -gain)
  {
    hide Vwap;
    var n, avg, c := f.quantity, p.averageEntryPrice.x, f.price;
    assert n * (avg - c) == n * avg - n * c;
    assert n * (c - avg) == n * c - n * avg;
  }

  /** A fill against the position for all of it or more: the whole position is realised at the fill's price,
      and what is left over is a new position at that price. Without anything left over a long's average
      becomes zero and a short's stays. */
  lemma CloseOrFlip(p: Position, f: Fill)
    requires IsFinite(p) && p.quantity != 0.0 && !Grows(p, f.side) && f.quantity >= Abs(p.quantity)
    ensures var r := Apply(p, f);
      && IsFinite(r) && r.quantity == p.quantity + f.Signed()
      && r.realisedPnl.x == p.realisedPnl.x + p.quantity * (f.price - p.averageEntryPrice.x)
      && r.averageEntryPrice ==
         if r.quantity != 0.0 then Finite(f.price) else if p.quantity > 0.0 then Finite(0.0) else p.averageEntryPrice
  {
    hide Vwap;
    var q, avg, c := p.quantity, p.averageEntryPrice.x, f.price;
    assert -q * (avg - c) == q * (c - avg);
  }

  /** What a value that is no number does. The realised profit is no number exactly when it was none, or
      when a fill against the position meets such an average; such an average becomes a number again
      exactly when a fill opens the position afresh or closes a long. */
  lemma NonFiniteSpreads(p: Position, f: Fill)
    ensures Apply(p, f).realisedPnl.NonFinite? <==>
      p.realisedPnl.NonFinite? || (p.averageEntryPrice.NonFinite? && !Grows(p, f.side))
    ensures p.averageEntryPrice.NonFinite? ==>
      (Apply(p, f).averageEntryPrice.Finite? <==>
         if f.side.Buy? then p.quantity < 0.0 < p.quantity + f.quantity
         else p.quantity == 0.0 || 0.0 < p.quantity <= f.quantity)
  {}

  /** Realised profit that is no number stays so, over every run. */
  lemma {:induction false} ProfitStaysLost(p: Position, fills: seq<Fill>)
    requires p.realisedPnl.NonFinite?
    ensures Fold(p, fills).realisedPnl.NonFinite?
  {
    hide Apply;
    if fills != [] {
      ProfitStaysLost(p, fills[..|fills| - 1]);
      NonFiniteSpreads(Fold(p, fills[..|fills| - 1]), fills[|fills| - 1]);
    }
  }

  lemma {:induction false} FoldOn(p: Position, before: seq<Fill>, fills: seq<Fill>)
    ensures Fold(p, before + fills) == Fold(Fold(p, before), fills)
  {
    hide Apply;
    if fills == [] {
      assert before + fills == before;
    } else {
      FoldOn(p, before, fills[..|fills| - 1]);
      assert (before + fills)[..|before + fills| - 1] == before + fills[..|fills| - 1];
    }
  }

  /** In every run: a leg that is opened from flat and only grows realises nothing, and its average is the
      volume-weighted average of its own fills. */
  lemma LegAverage(before: seq<Fill>, leg: seq<Fill>, side: Side)
    requires AllDefined(before) && NetQuantity(before) == 0.0 && OneSided(leg, side)
    ensures var was, p := Fold(FLAT, before), Fold(FLAT, before + leg);
      && IsFinite(p) && p.realisedPnl == was.realisedPnl
      && p.quantity == (if side.Buy? then Volume(leg) else -Volume(leg))
      && Volume(leg) * p.averageEntryPrice.x == Worth(leg)
  {
    hide Fold, AllDefined, NetQuantity, IsFinite, Volume, Worth;
    RunFinite(before);
    RunQuantity(before);
    FoldOn(FLAT, before, leg);
    GrowingRun(Fold(FLAT, before), leg, side);
  }

  // ---------------------------------------------------------------------------------------------
  // Long and short

  function Mirror(f: Fill): Fill { f.(side := f.side.Opposite()) }

  function MirrorAll(fills: seq<Fill>): seq<Fill> {
    if fills == [] then [] else MirrorAll(fills[..|fills| - 1]) + [Mirror(fills[|fills| - 1])]
  }

  /** The two positions are the same deal seen from the two sides. A flat one's average does not count:
      closing a long exactly resets it to zero, covering a short exactly leaves it standing. */
  predicate Opposed(p: Position, r: Position) {
    && IsFinite(p) && IsFinite(r)
    && r.quantity == -p.quantity && r.realisedPnl.x == -p.realisedPnl.x
    && (p.quantity != 0.0 ==> r.averageEntryPrice == p.averageEntryPrice)
  }

  lemma VwapOfFlat(x: real, n: real, price: real)
    requires n != 0.0
    ensures Vwap(0.0, Finite(x), n, price) == Finite(price)
  {
    assert 0.0 * x == 0.0;
    assert n * price / n == price;
  }

  lemma MirrorStep(p: Position, r: Position, f: Fill)
    requires Opposed(p, r) && f.quantity > 0.0
    ensures Opposed(Apply(p, f), Apply(r, Mirror(f)))
  {
    hide Vwap;
    var q, n, c := p.quantity, f.quantity, f.price;
    if q == 0.0 {
      VwapOfFlat(p.averageEntryPrice.x, n, c);
      VwapOfFlat(r.averageEntryPrice.x, n, c);
    } else {
      var avg := p.averageEntryPrice.x;
      if f.side.Buy? && q > 0.0 { VwapBack(q, avg, n, c); }
      if f.side.Sell? && q < 0.0 { VwapBack(-q, avg, n, c); }
      GainOpposed(n, avg, c);
      GainOpposed(q, avg, c);
      GainOpposed(-q, avg, c);
    }
  }

  lemma GainOpposed(n: real, a: real, b: real)
    ensures Gain(n, Finite(a), Finite(b)) == Finite(n * (b - a))
    ensures n * (b - a) == -(n * (a - b))
  {}

  /** Long and short obey the same rules: a run with every side swapped ends with the opposite quantity,
      the opposite realised profit and, while open, the same average entry price. */
  lemma {:induction false} MirrorRun(fills: seq<Fill>)
    requires PositiveFills(fills)
    ensures Opposed(Fold(FLAT, fills), Fold(FLAT, MirrorAll(fills)))
  {
    hide Apply, Opposed;
    if fills == [] {
      assert Opposed(FLAT, FLAT) by { FlatOpposed(); }
    } else {
      var prefix, f := fills[..|fills| - 1], fills[|fills| - 1];
      assert f in fills;
      MirrorRun(prefix);
      var m := MirrorAll(fills);
      assert m[..|m| - 1] == MirrorAll(prefix) && m[|m| - 1] == Mirror(f);
      MirrorStep(Fold(FLAT, prefix), Fold(FLAT, MirrorAll(prefix)), f);
    }
  }

  lemma FlatOpposed()
    ensures Opposed(FLAT, FLAT)
  {}

  /** The average left standing on a flat position has no effect on the next fill: the new average is the
      fill's price, or no number if the fill buys nothing. */
  lemma StaleAverage(p: Position, f: Fill)
    requires p.quantity == 0.0 && p.averageEntryPrice.Finite?
    ensures Apply(p, f) == Position(
      f.Signed(), if f.side.Buy? && f.quantity == 0.0 then NonFinite else Finite(f.price), p.realisedPnl)
  {
    hide Vwap;
    if f.quantity == 0.0 { VwapOfNothing(p.averageEntryPrice, f.price); }
    else { VwapOfFlat(p.averageEntryPrice.x, f.quantity, f.price); }
  }

  /** Nor on any position after that: from a flat position every run of fills, of any quantities, ends as
      it does from any other average. */
  lemma {:induction false} StaleAverageIsHarmless(p: Position, average: real, fills: seq<Fill>)
    requires p.quantity == 0.0 && p.averageEntryPrice.Finite? && fills != []
    ensures Fold(p, fills) == Fold(p.(averageEntryPrice := Finite(average)), fills)
  {
    hide Apply;
    var other, n := p.(averageEntryPrice := Finite(average)), |fills| - 1;
    if n == 0 {
      assert Fold(p, fills[..n]) == p && Fold(other, fills[..n]) == other;
      StaleAverage(p, fills[n]);
      StaleAverage(other, fills[n]);
    } else {
      StaleAverageIsHarmless(p, average, fills[..n]);
    }
  }

  // ---------------------------------------------------------------------------------------------
  // The current leg

  /** Prices of the fills that opened or increased the current position; empty when flat. A fill that
      goes through zero starts a new leg with its own price. */
  function LegAfter(q: real, leg: seq<real>, f: Fill): seq<real> {
    var r := q + f.Signed();
    if r == 0.0 then []
    else if q == 0.0 || (q > 0.0) != (r > 0.0) then [f.price]
    else if (q > 0.0) == (f.Signed() > 0.0) then leg + [f.price]
    else leg
  }

  function Leg(fills: seq<Fill>): seq<real> {
    if fills == [] then []
    else LegAfter(NetQuantity(fills[..|fills| - 1]), Leg(fills[..|fills| - 1]), fills[|fills| - 1])
  }

  ghost predicate Within(leg: seq<real>, x: real) {
    exists i, j :: 0 <= i < |leg| && 0 <= j < |leg| && leg[i] <= x <= leg[j]
  }

  lemma WithinExtends(leg: seq<real>, x: real, price: real, y: real)
    requires Within(leg, x)
    requires (x <= y <= price) || (price <= y <= x)
    ensures Within(leg + [price], y)
  {
    var i, j :| 0 <= i < |leg| && 0 <= j < |leg| && leg[i] <= x <= leg[j];
    var l := leg + [price];
    assert l[i] == leg[i] && l[j] == leg[j] && l[|leg|] == price;
    if x <= y <= price { assert l[i] <= y <= l[|leg|]; } else { assert l[|leg|] <= y <= l[j]; }
  }

  /** A weighted mean of two prices lies between them. */
  lemma MeanBetween(w: real, x: real, n: real, price: real)
    requires w > 0.0 && n > 0.0
    ensures Vwap(w, Finite(x), n, price).Finite?
    ensures var y := Vwap(w, Finite(x), n, price).x; (x <= y <= price) || (price <= y <= x)
  {
    hide Vwap;
    VwapBack(w, x, n, price);
    var y, d := Vwap(w, Finite(x), n, price).x, price - x;
    assert (w + n) * (y - x) == n * d;
    assert (w + n) * (price - y) == w * d;
    if d >= 0.0 {
      NonNegative(w + n, y - x, n, d);
      NonNegative(w + n, price - y, w, d);
    } else {
      NonNegative(w + n, x - y, n, -d);
      NonNegative(w + n, y - price, w, -d);
    }
  }

  lemma NonNegative(k: real, z: real, n: real, d: real)
    requires k > 0.0 && n > 0.0 && d >= 0.0 && k * z == n * d
    ensures z >= 0.0
  {
    assert n * d >= 0.0;
    assert z == (n * d) / k;
  }

  lemma ApplyKeepsWithin(p: Position, leg: seq<real>, f: Fill)
    requires IsFinite(p) && f.quantity > 0.0
    requires p.quantity == 0.0 || Within(leg, p.averageEntryPrice.x)
    ensures var r := Apply(p, f);
      IsFinite(r) && (r.quantity == 0.0 || Within(LegAfter(p.quantity, leg, f), r.averageEntryPrice.x))
  {
    hide Within, Vwap, Gain;
    ApplyFinite(p, f);
    var q, avg, n, r := p.quantity, p.averageEntryPrice.x, f.quantity, Apply(p, f);
    WithinOne(f.price);
    if f.side.Buy? && q > 0.0 {
      MeanBetween(q, avg, n, f.price);
      WithinExtends(leg, avg, f.price, r.averageEntryPrice.x);
    } else if f.side.Sell? && q < 0.0 {
      MeanBetween(-q, avg, n, f.price);
      WithinExtends(leg, avg, f.price, r.averageEntryPrice.x);
    } else if q == 0.0 {
      StaleAverage(p, f);
    }
  }

  lemma WithinOne(price: real)
    ensures Within([price], price)
  {
    assert [price][0] <= price <= [price][0];
  }

  /** Over every run of positive fills, the average entry price of an open position lies between the
      lowest and the highest price of the fills that opened or increased the current leg. */
  lemma {:induction false} AverageWithinLeg(fills: seq<Fill>)
    requires PositiveFills(fills)
    ensures var p := Fold(FLAT, fills);
      IsFinite(p) && (p.quantity != 0.0 ==> Within(Leg(fills), p.averageEntryPrice.x))
  {
    hide Apply, Within, LegAfter, IsFinite;
    if fills == [] {
      FlatFinite();
    } else {
      var prefix, f := fills[..|fills| - 1], fills[|fills| - 1];
      AverageWithinLeg(prefix);
      RunQuantity(prefix);
      assert f in fills;
      ApplyKeepsWithin(Fold(FLAT, prefix), Leg(prefix), f);
    }
  }

  // ---------------------------------------------------------------------------------------------
  // The ledger of all symbols

  type Symbols = map<seq<Byte>, Position>

  function FillOf(e: Execution): Fill { Fill(e.side, e.quantity as real, e.tradePrice) }

  function At(positions: Symbols, symbol: seq<Byte>): Position {
    if symbol in positions then positions[symbol] else FLAT
  }

  /** The ledger after a stream of executions. */
  function Book(execs: seq<Execution>): Symbols {
    if execs == [] then map[]
    else
      var before, last := Book(execs[..|execs| - 1]), execs[|execs| - 1];
      before[CString(last.symbol) := Apply(At(before, CString(last.symbol)), FillOf(last))]
  }

  /** The fills of one symbol, in order. */
  function FillsOf(execs: seq<Execution>, symbol: seq<Byte>): seq<Fill> {
    if execs == [] then []
    else
      var last := execs[|execs| - 1];
      FillsOf(execs[..|execs| - 1], symbol) + (if CString(last.symbol) == symbol then [FillOf(last)] else [])
  }

  predicate PositiveExecs(execs: seq<Execution>) {
    forall e :: e in execs ==> e.quantity > 0
  }

  /** Executions of positive quantity are positive fills, so none of them divides by zero. */
  lemma {:induction false} FillsPositive(execs: seq<Execution>, symbol: seq<Byte>)
    requires PositiveExecs(execs)
    ensures PositiveFills(FillsOf(execs, symbol)) && AllDefined(FillsOf(execs, symbol))
  {
    hide AllDefined;
    if execs != [] {
      assert execs[|execs| - 1] in execs;
      FillsPositive(execs[..|execs| - 1], symbol);
    }
    NonNegativeDefined(FillsOf(execs, symbol));
  }

  /** Net quantity and net cash of a symbol, straight from the executions. */
  function Net(execs: seq<Execution>, symbol: seq<Byte>): int {
    if execs == [] then 0
    else
      var e := execs[|execs| - 1];
      Net(execs[..|execs| - 1], symbol)
      + (if CString(e.symbol) != symbol then 0 else if e.side.Buy? then e.quantity else -e.quantity)
  }

  function Cash(execs: seq<Execution>, symbol: seq<Byte>): real {
    if execs == [] then 0.0
    else
      var e := execs[|execs| - 1];
      var value := e.quantity as real * e.tradePrice;
      Cash(execs[..|execs| - 1], symbol)
      + (if CString(e.symbol) != symbol then 0.0 else if e.side.Buy? then value else -value)
  }

  lemma FillsOfLast(execs: seq<Execution>, symbol: seq<Byte>)
    requires execs != []
    ensures var fills, prefix, e := FillsOf(execs, symbol), FillsOf(execs[..|execs| - 1], symbol), execs[|execs| - 1];
      if CString(e.symbol) != symbol then fills == prefix
      else fills != [] && fills[..|fills| - 1] == prefix && fills[|fills| - 1] == FillOf(e)
  {}

  /** The fills of a symbol carry the quantity of its executions; and its position, a number or not, has that
      quantity. */
  lemma {:induction false} NetOfExecutions(execs: seq<Execution>, symbol: seq<Byte>)
    ensures NetQuantity(FillsOf(execs, symbol)) == Net(execs, symbol) as real
    ensures At(Book(execs), symbol).quantity == Net(execs, symbol) as real
  {
    hide Book, Fold, CString, FillsOf;
    if execs == [] {
      NoFills(symbol);
    } else {
      NetOfExecutions(execs[..|execs| - 1], symbol);
      FillsOfLast(execs, symbol);
    }
    BookBySymbol(execs, symbol);
    RunQuantity(FillsOf(execs, symbol));
  }

  lemma NoFills(symbol: seq<Byte>)
    ensures FillsOf([], symbol) == []
  {}

  /** The fills of a symbol cost the cash its executions cost. */
  lemma {:induction false} CashOfExecutions(execs: seq<Execution>, symbol: seq<Byte>)
    ensures CashPaid(FillsOf(execs, symbol)) == Cash(execs, symbol)
  {
    hide CString, FillsOf;
    if execs == [] {
      NoFills(symbol);
    } else {
      CashOfExecutions(execs[..|execs| - 1], symbol);
      FillsOfLast(execs, symbol);
    }
  }

  lemma {:induction false} FillsNonNegative(execs: seq<Execution>, symbol: seq<Byte>)
    requires forall e :: e in execs ==> e.quantity >= 0
    ensures forall f :: f in FillsOf(execs, symbol) ==> f.quantity >= 0.0
  {
    if execs != [] {
      assert execs[|execs| - 1] in execs;
      FillsNonNegative(execs[..|execs| - 1], symbol);
    }
  }

  /** Symbols are tracked independently: each position is the fold of that symbol's own fills, so all
      the laws above hold of it, and only symbols that traded have an entry. */
  lemma {:induction false} BookBySymbol(execs: seq<Execution>, symbol: seq<Byte>)
    ensures At(Book(execs), symbol) == Fold(FLAT, FillsOf(execs, symbol))
    ensures symbol in Book(execs) <==> FillsOf(execs, symbol) != []
  {
    hide Apply;
    if execs != [] {
      var prefix, last := execs[..|execs| - 1], execs[|execs| - 1];
      BookBySymbol(prefix, symbol);
      var fills := FillsOf(execs, symbol);
      if CString(last.symbol) == symbol {
        assert fills[..|fills| - 1] == FillsOf(prefix, symbol);
      } else {
        assert fills == FillsOf(prefix, symbol);
      }
    }
  }

  class PositionManager {
    var positions: Symbols
    ghost var execs: seq<Execution>

    /** The entries are the ledger of the executions received so far. */
    ghost predicate Valid()
      reads this
    {
      positions == Book(execs)
    }

    constructor ()
      ensures Valid() && execs == []
    {
      positions := map[];
      execs := [];
    }

    /** `onExecution`. */
    method OnExecution(exec: Execution)
      requires Valid()
      modifies this
      ensures Valid() && execs == old(execs) + [exec]
    {
      hide Vwap, Gain, CString, Plus;
      ghost var entry := At(positions, CString(exec.symbol));
      ghost var was := positions;
      var sym := CString(exec.symbol);
      if sym !in positions { positions := positions[sym := FLAT]; }
      var quantity := positions[sym].quantity;
      var averageEntryPrice := positions[sym].averageEntryPrice;
      var realisedPnl := positions[sym].realisedPnl;
      var filled, tradePrice := exec.quantity as real, Finite(exec.tradePrice);

      if exec.side == Buy {
        if quantity < 0.0 {
          var coverQty := if filled <= -quantity then filled else -quantity;
          realisedPnl := Plus(realisedPnl, Gain(coverQty, tradePrice, averageEntryPrice));
          quantity := quantity + filled;
          if quantity > 0.0 {
            averageEntryPrice := tradePrice;
          }
        } else {
          var newAvg := Vwap(quantity, averageEntryPrice, filled, exec.tradePrice);
          quantity := quantity + filled;
          averageEntryPrice := newAvg;
        }
      }
      if exec.side == Sell {
        if quantity > 0.0 {
          if filled >= quantity {
            var remainder := filled - quantity;
            realisedPnl := Plus(realisedPnl, Gain(quantity, averageEntryPrice, tradePrice));
            quantity := -remainder;
            averageEntryPrice := if remainder > 0.0 then tradePrice else Finite(0.0);
          } else {
            realisedPnl := Plus(realisedPnl, Gain(filled, averageEntryPrice, tradePrice));
            quantity := quantity - filled;
          }
        } else if quantity == 0.0 {
          quantity := -filled;
          averageEntryPrice := tradePrice;
        } else {
          var existingShort := -quantity;
          averageEntryPrice := Vwap(existingShort, averageEntryPrice, filled, exec.tradePrice);
          quantity := quantity - filled;
        }
      }
      positions := positions[sym := Position(quantity, averageEntryPrice, realisedPnl)];

      assert Position(quantity, averageEntryPrice, realisedPnl) == Apply(entry, FillOf(exec));
      assert positions == was[sym := Apply(entry, FillOf(exec))];
      execs := execs + [exec];
      assert execs[..|execs| - 1] == old(execs);
    }

    /** `getPosition`: the lookup throws exactly for a symbol that has not traded; otherwise it gives the
        fold of all that symbol's fills. */
    method GetPosition(symbol: seq<Byte>) returns (r: Option<Position>)
      requires Valid()
      ensures r.Some? <==> FillsOf(execs, symbol) != []
      ensures r.Some? ==> r.value == Fold(FLAT, FillsOf(execs, symbol))
    {
      hide Fold, FillsOf;
      BookBySymbol(execs, symbol);
      if symbol in positions { return Some(positions[symbol]); }
      r := None;
    }

    /** The laws of the ledger hold of every entry, at every moment, of any manager whose executions of
        the symbol did not divide by zero; in particular when all their quantities are positive. */
    lemma Laws(symbol: seq<Byte>)
      requires Valid() && symbol in positions
      requires PositiveExecs(execs) || AllDefined(FillsOf(execs, symbol))
      ensures var p, fills := positions[symbol], FillsOf(execs, symbol);
        && IsFinite(p) && p.quantity == NetQuantity(fills) == Net(execs, symbol) as real
        && Balance(p) == -CashPaid(fills) == -Cash(execs, symbol)
        && (PositiveExecs(execs) && p.quantity != 0.0 ==> Within(Leg(fills), p.averageEntryPrice.x))
    {
      hide Fold, FillsOf, NetQuantity, CashPaid, Leg, Within, AllDefined, PositiveFills, Balance, IsFinite, Book,
           Net, Cash;
      BookBySymbol(execs, symbol);
      NetOfExecutions(execs, symbol);
      CashOfExecutions(execs, symbol);
      if PositiveExecs(execs) {
        FillsPositive(execs, symbol);
        AverageWithinLeg(FillsOf(execs, symbol));
      }
      RunQuantity(FillsOf(execs, symbol));
      RunBalance(FillsOf(execs, symbol));
    }
  }
}
