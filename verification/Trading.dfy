/** Orders, executions and the price grid. */
module Trading {

  /** A `char` of the source: one byte. */
  type Byte = c: char | c as int < 256

  const NUL: Byte := '\0'

  const ZEROES: seq<Byte> := [NUL, NUL, NUL, NUL, NUL, NUL, NUL, NUL, NUL, NUL, NUL, NUL, NUL, NUL, NUL, NUL]

  /** `char id[16]` and `char symbol[8]`: fixed arrays, every element always defined. */
  type Id = s: seq<Byte> | |s| == 16 witness seq(16, _ => NUL)
  type Symbol = s: seq<Byte> | |s| == 8 witness seq(8, _ => NUL)

  /** `OrderType` of an order and `Side` of an execution. */
  datatype Side = Buy | Sell {
    function Opposite(): Side { if Buy? then Sell else Buy }
  }

  datatype Order = Order(id: Id, symbol: Symbol, price: real, side: Side, quantity: int, arrivalNs: int)

  /** An order as `Order{}` makes it: all bytes zero. */
  const ZEROED := Order(ZEROES[..16], ZEROES[..8], 0.0, Buy, 0, 0)

  /** One trade. `arrival_ns`, the clock reading at emission, is not part of the model. */
  datatype Execution = Execution(
    buyId: Id, sellId: Id, symbol: Symbol,
    tradePrice: real, quantity: int, side: Side, orderArrivalNs: int)

  function Min(a: int, b: int): int { if a <= b then a else b }

  /** Conversion of a double to an integer: the fraction is dropped, towards zero. */
  function Trunc(x: real): int {
    if x >= 0.0 then x.Floor else -((-x).Floor)
  }

  function PriceToTick(price: real): int { Trunc(price * 100.0 + 0.5) }

  function TickToPrice(tick: int): real { tick as real / 100.0 }

  function Tick(o: Order): int { PriceToTick(o.price) }

  /** A tick survives the round trip through its price. */
  lemma TickRoundTrip(tick: nat)
    ensures PriceToTick(TickToPrice(tick)) == tick
  {
    assert TickToPrice(tick) * 100.0 == tick as real;
    assert (tick as real + 0.5).Floor == tick;
  }

  /** Every price of at least zero lands on its nearest tick, halves upwards. */
  lemma NearestTick(price: real)
    requires price >= 0.0
    ensures PriceToTick(price) >= 0
    ensures TickToPrice(PriceToTick(price)) - 0.005 <= price < TickToPrice(PriceToTick(price)) + 0.005
  {
    var x := price * 100.0 + 0.5;
    assert x.Floor as real <= x < x.Floor as real + 1.0;
  }

  /** Two limit prices never swap order on the grid, though they may share a tick. */
  lemma TicksKeepOrder(p: real, q: real)
    requires p <= q
    ensures PriceToTick(p) <= PriceToTick(q)
  {}

  /** Truncation takes negative prices down to -0.015, not included, to tick 0; lower ones are off the grid. */
  lemma NegativePrices(price: real)
    requires price < 0.0
    ensures PriceToTick(price) == 0 <==> price > -0.015
    ensures PriceToTick(price) < 0 <==> price <= -0.015
  {
    var x := -(price * 100.0 + 0.5);
    assert x >= 0.0 ==> x.Floor as real <= x < x.Floor as real + 1.0;
  }

  /** The C string held in a byte array: the bytes before the first NUL. */
  function CString(s: seq<Byte>): (r: seq<Byte>)
    ensures |r| <= |s| && r == s[..|r|] && NUL !in r
    ensures |r| < |s| ==> s[|r|] == NUL
  {
    if s == [] || s[0] == NUL then [] else [s[0]] + CString(s[1..])
  }

  /** The byte array that holds `s`, cut to `n - 1` bytes and filled up with NULs. */
  function Padded(s: seq<Byte>, n: nat): (r: seq<Byte>)
    requires n > 0
    ensures |r| == n && r[n - 1] == NUL
  {
    seq(n, i requires 0 <= i => if i < |s| && i < n - 1 then s[i] else NUL)
  }

  /** `strncpy(dst, s, sizeof(dst) - 1)` into a zeroed array of the same size as `s`. */
  function StrNCopy(s: seq<Byte>): (r: seq<Byte>)
    requires |s| > 0
    ensures |r| == |s|
  {
    Padded(CString(s), |s|)
  }

  /** A text without NUL that fits its array is copied unchanged. */
  lemma StrNCopyOfText(text: seq<Byte>, n: nat)
    requires |text| < n && NUL !in text
    ensures StrNCopy(Padded(text, n)) == Padded(text, n)
    ensures CString(Padded(text, n)) == text
  {
    var p := Padded(text, n);
    var c := CString(p);
    assert forall i :: 0 <= i < |text| ==> p[i] == text[i];
    assert p[|text|] == NUL;
    assert |c| == |text|;
  }

  /** Any array is copied up to its first NUL, all but its last byte if it has none, and filled up with NULs. */
  lemma StrNCopyCuts(s: seq<Byte>, i: nat)
    requires i < |s|
    ensures StrNCopy(s)[i] == if i < |s| - 1 && NUL !in s[..i + 1] then s[i] else NUL
  {
    var c := CString(s);
    if i < |c| {
      assert s[..i + 1] <= c;
      assert forall x :: x in s[..i + 1] ==> x in c;
    } else {
      assert s[..i + 1][|c|] == NUL;
    }
  }

  /** `sym_key`: the eight bytes read as one little-endian 64-bit number. */
  function SymKey(s: seq<Byte>): nat {
    if s == [] then 0 else s[0] as int + 256 * SymKey(s[1..])
  }

  /** Different symbol arrays have different keys. */
  lemma {:induction false} SymKeyInjective(s: seq<Byte>, t: seq<Byte>)
    requires |s| == |t| && SymKey(s) == SymKey(t)
    ensures s == t
  {
    if s != [] {
      var a, b := SymKey(s[1..]), SymKey(t[1..]);
      assert s[0] as int + 256 * a == t[0] as int + 256 * b;
      assert (s[0] as int + 256 * a) % 256 == s[0] as int;
      assert (t[0] as int + 256 * b) % 256 == t[0] as int;
      SymKeyInjective(s[1..], t[1..]);
      assert s == [s[0]] + s[1..] && t == [t[0]] + t[1..];
    }
  }

  function Pow256(n: nat): nat { if n == 0 then 1 else 256 * Pow256(n - 1) }

  lemma {:induction false} SymKeyBelow(s: seq<Byte>)
    ensures SymKey(s) < Pow256(|s|)
  {
    if s != [] { SymKeyBelow(s[1..]); }
  }

  /** The key of a symbol fits the 64-bit number it is copied into. */
  lemma SymKeyFits(s: Symbol)
    ensures SymKey(s) <= 0xffff_ffff_ffff_ffff
  {
    SymKeyBelow(s);
    assert Pow256(4) == 0x1_0000_0000;
    assert Pow256(8) == 0x1_0000_0000_0000_0000;
  }
}
