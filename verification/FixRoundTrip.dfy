/** Printing orders in the simulator's format and reading the file back. */
module FixRoundTrip {
  import opened Trading
  import opened Fix

  // ---------------------------------------------------------------------------------------------
  // Reading a file

  /** The orders of the non-empty lines; `clock(i)` is the arrival time stamped on the i-th of them. */
  function ReadLines(data: Text, clock: nat -> int, i: nat): seq<Order>
    decreases |data|
  {
    if data == [] then []
    else
      var eol := Find(data, '\n');
      var rest := Past(data, eol);
      if eol == 0 then ReadLines(rest, clock, i)
      else [Parse(data[..eol], clock(i))] + ReadLines(rest, clock, i + 1)
  }

  /** What is still to be read at position `p`, which may be one past the end. */
  function From(data: Text, p: nat): Text { if p < |data| then data[p..] else [] }

  lemma ReadUnfold(data: Text, clock: nat -> int, i: nat)
    requires data != []
    ensures var eol := Find(data, '\n');
      ReadLines(data, clock, i) ==
        if eol == 0 then ReadLines(Past(data, eol), clock, i)
        else [Parse(data[..eol], clock(i))] + ReadLines(Past(data, eol), clock, i + 1)
  {
    hide Parse, Find;
  }

  lemma LineSlices(data: Text, p: nat, eol: nat)
    requires p <= eol <= |data| && p < |data|
    ensures From(data, p) == data[p..] && data[p..][..eol - p] == data[p..eol]
    ensures Past(data[p..], eol - p) == From(data, eol + 1)
  {}

  lemma ReadTurn(data: Text, p: nat, eol: nat, clock: nat -> int, i: nat)
    requires p < |data| && eol == p + Find(data[p..], '\n')
    ensures p <= eol <= |data|
    ensures ReadLines(From(data, p), clock, i) ==
      if eol == p then ReadLines(From(data, eol + 1), clock, i)
      else [Parse(data[p..eol], clock(i))] + ReadLines(From(data, eol + 1), clock, i + 1)
  {
    hide Parse, Find, ReadLines, From, Past;
    LineSlices(data, p, eol);
    ReadUnfold(data[p..], clock, i);
  }

  /** The line loop of `start`, with the callback's orders collected in call order. */
  method ReadFile(data: Text, clock: nat -> int) returns (orders: seq<Order>)
    ensures orders == ReadLines(data, clock, 0)
  {
    hide Parse, Find, From, ReadLines;
    orders := [];
    var p := 0;
    FromEnds(data, p, clock);
    while p < |data|
      invariant 0 <= p
      invariant orders + ReadLines(From(data, p), clock, |orders|) == ReadLines(data, clock, 0)
      decreases |data| - p
    {
      var lineEnd := p + Find(data[p..], '\n');
      ReadTurn(data, p, lineEnd, clock, |orders|);
      if lineEnd > p {
        var order := ParseFixLine(data[p..lineEnd], clock(|orders|));
        orders := orders + [order];
      }
      p := lineEnd + 1;
    }
    FromEnds(data, p, clock);
  }

  lemma FromEnds(data: Text, p: nat, clock: nat -> int)
    ensures From(data, 0) == data
    ensures p >= |data| ==> forall i :: ReadLines(From(data, p), clock, i) == []
  {}

  /** Lines, each with its newline. */
  function Lines(lines: seq<Text>): Text {
    if lines == [] then [] else lines[0] + ['\n'] + Lines(lines[1..])
  }

  /** The orders of lines: empty ones are skipped and do not use up a clock reading. */
  function OrdersOf(lines: seq<Text>, clock: nat -> int, i: nat): seq<Order> {
    if lines == [] then []
    else if lines[0] == [] then OrdersOf(lines[1..], clock, i)
    else [Parse(lines[0], clock(i))] + OrdersOf(lines[1..], clock, i + 1)
  }

  /** The file is these lines: all but the last end with a newline, which none of them contains. */
  predicate SplitInto(data: Text, lines: seq<Text>) {
    && lines != [] && (forall l :: l in lines ==> '\n' !in l)
    && data == Lines(lines[..|lines| - 1]) + lines[|lines| - 1]
  }

  lemma SplitMore(line: Text, rest: Text, more: seq<Text>)
    requires '\n' !in line && SplitInto(rest, more)
    ensures SplitInto(line + ['\n'] + rest, [line] + more)
  {
    var lines := [line] + more;
    assert lines[..|lines| - 1] == [line] + more[..|more| - 1];
    assert ([line] + more[..|more| - 1])[1..] == more[..|more| - 1];
    assert line + ['\n'] + rest == line + ['\n'] + Lines(more[..|more| - 1]) + more[|more| - 1];
  }

  lemma SplitOne(line: Text)
    requires '\n' !in line
    ensures SplitInto(line, [line])
  {
    assert [line][..0] == [];
  }

  lemma OrdersOfFirst(line: Text, more: seq<Text>, clock: nat -> int, i: nat)
    ensures OrdersOf([line] + more, clock, i) ==
      if line == [] then OrdersOf(more, clock, i) else [Parse(line, clock(i))] + OrdersOf(more, clock, i + 1)
  {
    hide Parse;
    assert ([line] + more)[1..] == more;
  }

  lemma NoOrders(clock: nat -> int, i: nat)
    ensures OrdersOf([], clock, i) == [] && ReadLines([], clock, i) == []
  {}

  /** Any file at all: the reader hands over the order of each line that is not empty, also of a last line
      without a newline. */
  lemma {:induction false} ReadAnything(data: Text, clock: nat -> int, i: nat) returns (lines: seq<Text>)
    ensures SplitInto(data, lines) && ReadLines(data, clock, i) == OrdersOf(lines, clock, i)
    decreases |data|
  {
    hide Parse, Find, SplitInto, OrdersOf, ReadLines;
    var eol := Find(data, '\n');
    var line := data[..eol];
    var next := if eol == 0 then i else i + 1;
    NoOrders(clock, next);
    if eol == |data| {
      lines := [line];
      assert line == data && lines == [line] + [];
      SplitOne(line);
      OrdersOfFirst(line, [], clock, i);
      NoOrders(clock, i);
      if data != [] { ReadUnfold(data, clock, i); }
    } else {
      var rest := Past(data, eol);
      ReadUnfold(data, clock, i);
      var more := ReadAnything(rest, clock, next);
      lines := [line] + more;
      assert data == line + ['\n'] + rest;
      SplitMore(line, rest, more);
      OrdersOfFirst(line, more, clock, i);
    }
  }

  // ---------------------------------------------------------------------------------------------
  // Printing

  /** An order as the simulator writes it: the price in whole cents. */
  datatype Quote = Quote(id: Text, symbol: Text, side: Side, cents: nat, quantity: nat)

  function Digit(d: nat): Byte
    requires d < 10
  {
    ('0' as int + d) as char
  }

  /** A number in decimal. */
  function Decimal(n: nat): Text {
    if n < 10 then [Digit(n)] else Decimal(n / 10) + [Digit(n % 10)]
  }

  /** A price with two decimals. */
  function PriceText(cents: nat): Text {
    Decimal(cents / 100) + ['.'] + [Digit(cents / 10 % 10), Digit(cents % 10)]
  }

  function Fields(q: Quote): seq<Field> {
    [Field("11", q.id), Field("35", "D"), Field("55", q.symbol),
     Field("54", if q.side.Buy? then "1" else "2"),
     Field("44", PriceText(q.cents)), Field("38", Decimal(q.quantity))]
  }

  function Line(q: Quote): Text { Join(Fields(q)) + ['\n'] }

  function Print(quotes: seq<Quote>): Text {
    if quotes == [] then [] else Line(quotes[0]) + Print(quotes[1..])
  }

  /** What fits the fixed arrays and the 32-bit quantity and does not contain a separator. The price text
      must fit the parser's 31-byte buffer. */
  predicate Printable(q: Quote) {
    && |q.id| <= 15 && |q.symbol| <= 7 && |PriceText(q.cents)| <= 31 && q.quantity <= INT32_MAX
    && (forall c :: c in q.id + q.symbol ==> c != '|' && c != '\n')
  }

  /** The order a quote stands for. */
  function AsOrder(q: Quote, arrivalNs: int): Order {
    Order(Padded(q.id, 16), Padded(q.symbol, 8), TickToPrice(q.cents), q.side, q.quantity, arrivalNs)
  }

  function AsOrders(quotes: seq<Quote>, clock: nat -> int, i: nat): (r: seq<Order>)
    ensures |r| == |quotes| && forall k :: 0 <= k < |r| ==> r[k] == AsOrder(quotes[k], clock(i + k))
  {
    if quotes == [] then [] else [AsOrder(quotes[0], clock(i))] + AsOrders(quotes[1..], clock, i + 1)
  }

  // ---------------------------------------------------------------------------------------------
  // The round trip

  lemma {:induction false} DecimalBack(n: nat)
    ensures AllDigits(Decimal(n)) && Decimal(n) != [] && Digits(Decimal(n)) == n
  {
    if n < 10 {
      assert Digits([]) == 0;
      assert [Digit(n)][..0] == [];
    } else {
      DecimalBack(n / 10);
      var s := Decimal(n);
      assert s[..|s| - 1] == Decimal(n / 10);
    }
  }

  lemma {:induction false} DigitRunStops(s: Text, rest: Text)
    requires AllDigits(s) && (rest == [] || !IsDigit(rest[0]))
    ensures DigitRun(s + rest) == |s|
  {
    if s == [] {
      assert s + rest == rest;
    } else {
      assert s[0] in s && forall c :: c in s[1..] ==> c in s;
      assert (s + rest)[1..] == s[1..] + rest;
      DigitRunStops(s[1..], rest);
    }
  }

  lemma TwoDigits(d1: nat, d2: nat)
    requires d1 < 10 && d2 < 10
    ensures var u := [Digit(d1), Digit(d2)];
      AllDigits(u) && Digits(u) == 10 * d1 + d2
  {
    var u := [Digit(d1), Digit(d2)];
    assert u[..1] == [Digit(d1)] && [Digit(d1)][..0] == [];
    assert Digits([Digit(d1)]) == d1;
  }

  /** The digit loop counts a single byte, digit or not, by its distance from '0'. Together with the next
      lemma that fixes its value on any bytes. */
  lemma DigitsOfByte(c: Byte)
    ensures Digits([c]) == c as int - '0' as int
  {
    assert [c][..0] == [];
  }

  /** Two texts one after the other: the first moves up by as many places as the second has bytes. */
  lemma {:induction false} DigitsConcat(w: Text, u: Text)
    ensures Digits(w + u) == Digits(w) * Pow10(|u|) + Digits(u)
    decreases |u|
  {
    if u == [] {
      assert w + u == w;
    } else {
      var t := u[..|u| - 1];
      DigitsConcat(w, t);
      assert (w + u)[..|w + u| - 1] == w + t;
      assert Digits(w) * Pow10(|u|) == Digits(w) * Pow10(|t|) * 10;
    }
  }

  /** A number with a decimal point: the digits before and after it read as one number, divided by ten for
      each digit after it. There may be no digits on either side, and what follows them is ignored. */
  lemma AtofPoint(w: Text, u: Text, rest: Text)
    requires AllDigits(w) && AllDigits(u) && (rest == [] || !IsDigit(rest[0]))
    ensures Atof(w + ['.'] + u + rest) == Scaled(Digits(w + u), |u|)
  {
    hide Digits, AllDigits, Scaled, Atof, IsDigit;
    assert w + ['.'] + u + rest == w + (['.'] + (u + rest));
    AtofPointTail(w, u, rest);
  }

  lemma AtofPointTail(w: Text, u: Text, rest: Text)
    requires AllDigits(w) && AllDigits(u) && (rest == [] || !IsDigit(rest[0]))
    ensures Atof(w + (['.'] + (u + rest))) == Scaled(Digits(w + u), |u|)
  {
    hide Digits, Pow10, DigitRun, AllDigits, Scaled, Atof;
    var tail := u + rest;
    PointParts(w, tail);
    DigitRunStops(w, ['.'] + tail);
    DigitRunStops(u, rest);
    assert tail[..|u|] == u;
    AtofParts(w + (['.'] + tail), |w|, tail, |u|);
    DigitsConcat(w, u);
    ScaledSum(Digits(w), Digits(u), |u|);
  }

  lemma PointParts(w: Text, tail: Text)
    requires AllDigits(w)
    ensures var t := w + (['.'] + tail);
      t[0] != '-' && t[0] != '+' && t[..|w|] == w && t[|w|] == '.' && t[|w| + 1..] == tail
  {
    if w != [] { assert w[0] in w; }
  }

  lemma AtofParts(t: Text, n: nat, tail: Text, m: nat)
    requires n < |t| && t[0] != '-' && t[0] != '+' && t[n] == '.' && t[n + 1..] == tail
    requires DigitRun(t) == n && DigitRun(tail) == m
    ensures Atof(t) == Digits(t[..n]) as real + Scaled(Digits(tail[..m]), m)
  {
    hide Digits, Scaled, DigitRun;
  }

  lemma ScaledSum(whole: int, part: int, places: nat)
    ensures whole as real + Scaled(part, places) == Scaled(whole * Pow10(places) + part, places)
  {
    hide Pow10;
    var scale := Pow10(places);
    assert (whole * scale + part) as real == whole as real * scale as real + part as real;
    assert whole as real * scale as real / scale as real == whole as real;
  }

  /** A number without a point. */
  lemma AtofWhole(w: Text, rest: Text)
    requires AllDigits(w) && w != [] && (rest == [] || (!IsDigit(rest[0]) && rest[0] != '.'))
    ensures Atof(w + rest) == Digits(w) as real
  {
    hide Digits, Scaled, DigitRun;
    DigitRunStops(w, rest);
    var t := w + rest;
    assert t[0] == w[0] && w[0] in w;
    assert t[..|w|] == w;
  }

  /** A sign in front of a text without one: plus is ignored and minus negates. */
  lemma AtofSigned(t: Text)
    requires t == [] || (t[0] != '-' && t[0] != '+')
    ensures Atof(['+'] + t) == Atof(t) && Atof(['-'] + t) == -Atof(t)
  {
    hide Digits, Scaled, DigitRun;
    assert (['+'] + t)[1..] == t && (['-'] + t)[1..] == t;
  }

  /** A text that begins with something else is zero. */
  lemma AtofNothing(t: Text)
    requires t == [] || !(IsDigit(t[0]) || t[0] == '.' || t[0] == '-' || t[0] == '+')
    ensures Atof(t) == 0.0
  {}

  lemma CentDigits(cents: nat)
    ensures cents == cents / 100 * 100 + (10 * (cents / 10 % 10) + cents % 10)
  {}

  lemma CentsBack(whole: nat, d1: nat, d2: nat)
    requires d1 < 10 && d2 < 10
    ensures var w, u := Decimal(whole), [Digit(d1), Digit(d2)];
      AllDigits(w) && AllDigits(u) && Digits(w + u) == whole * 100 + (10 * d1 + d2)
  {
    hide Decimal, Digits, Pow10, Digit;
    DecimalBack(whole);
    TwoDigits(d1, d2);
    DigitsConcat(Decimal(whole), [Digit(d1), Digit(d2)]);
    Hundredths(0);
  }

  /** Cents printed with two decimals read back as the same amount. */
  lemma AtofPrice(cents: nat)
    ensures Atof(PriceText(cents)) == TickToPrice(cents)
  {
    hide Decimal, Digits, Pow10, Digit, TickToPrice, Atof, Scaled, AllDigits;
    CentDigits(cents);
    var whole, d1, d2 := cents / 100, cents / 10 % 10, cents % 10;
    CentsBack(whole, d1, d2);
    assert PriceText(cents) == Decimal(whole) + ['.'] + [Digit(d1), Digit(d2)] + [];
    AtofPoint(Decimal(whole), [Digit(d1), Digit(d2)], []);
    Hundredths(cents);
  }

  lemma Hundredths(cents: nat)
    ensures Pow10(2) == 100 && Scaled(cents, 2) == TickToPrice(cents)
  {
    assert Pow10(1) == 10;
  }

  lemma PriceTextBytes(cents: nat)
    ensures forall c :: c in PriceText(cents) ==> IsDigit(c) || c == '.'
  {
    hide Decimal;
    DecimalBack(cents / 100);
  }

  lemma FieldsWellFormed(q: Quote)
    requires Printable(q)
    ensures forall f :: f in Fields(q) ==> WellFormed(f) && '\n' !in f.tag && '\n' !in f.val
  {
    hide Decimal, PriceText;
    PriceTextBytes(q.cents);
    DecimalBack(q.quantity);
    var f := Fields(q);
    assert forall c :: c in q.id ==> c in q.id + q.symbol;
    assert forall c :: c in q.symbol ==> c in q.id + q.symbol;
  }

  lemma PrintedQuantityFits(q: Quote)
    requires Printable(q)
    ensures LoopFits(Decimal(q.quantity))
  {
    hide Decimal, LoopFits, Digits;
    DecimalBack(q.quantity);
    LoopFitsIff(Decimal(q.quantity));
  }

  lemma PrintedLookup(q: Quote, i: nat)
    requires i < 6 && Known(Fields(q)[i].tag)
    ensures Unique(Fields(q)) && Lookup(Fields(q), Fields(q)[i].tag) == Present(Fields(q)[i].val)
  {
    hide Decimal, PriceText, Lookup;
    var f := Fields(q);
    assert f[i] in f;
    LookupIffMember(f, f[i].tag, f[i].val);
  }

  /** One printed line parses back to the order it was printed from, and no turn of the digit loop
      overflows on the way. */
  lemma ParsePrinted(q: Quote, arrivalNs: int)
    requires Printable(q)
    ensures Parse(Join(Fields(q)), arrivalNs) == AsOrder(q, arrivalNs)
    ensures LoopFits(Decimal(q.quantity))
  {
    hide Decimal, PriceText, Atof, Digits, Lookup, Parse, Join, LoopFits;
    PrintedQuantityFits(q);
    FieldsWellFormed(q);
    PrintedLookup(q, 0); PrintedLookup(q, 2); PrintedLookup(q, 3); PrintedLookup(q, 4); PrintedLookup(q, 5);
    ParsedFields(Fields(q), arrivalNs);
    AtofPrice(q.cents);
    DecimalBack(q.quantity);
    assert PriceText(q.cents)[..|PriceText(q.cents)|] == PriceText(q.cents);
  }

  lemma {:induction false} JoinWithoutNewline(fields: seq<Field>)
    requires forall f :: f in fields ==> '\n' !in f.tag && '\n' !in f.val
    ensures '\n' !in Join(fields)
    ensures fields != [] ==> Join(fields) != []
  {
    if fields != [] {
      assert fields[0] in fields && forall g :: g in fields[1..] ==> g in fields;
      JoinWithoutNewline(fields[1..]);
    }
  }

  /** Any list of printable quotes, printed and read back, gives the same orders in the same order,
      apart from the arrival times stamped on reading, without overflow at any digit. */
  lemma {:induction false} RoundTrip(quotes: seq<Quote>, clock: nat -> int, i: nat)
    requires forall q :: q in quotes ==> Printable(q)
    ensures ReadLines(Print(quotes), clock, i) == AsOrders(quotes, clock, i)
    ensures forall q :: q in quotes ==> LoopFits(Decimal(q.quantity))
  {
    hide Parse, Fields, Join, Printable, LoopFits, Decimal;
    if quotes != [] {
      var q := quotes[0];
      assert q in quotes && forall x :: x in quotes[1..] ==> x in quotes;
      FieldsWellFormed(q);
      SixFields(q);
      JoinWithoutNewline(Fields(q));
      var text, rest := Join(Fields(q)), Print(quotes[1..]);
      FindAt(text, '\n', rest);
      var data := Print(quotes);
      assert data == text + ['\n'] + rest;
      assert data[..|text|] == text && data[|text| + 1..] == rest;
      ParsePrinted(q, clock(i));
      RoundTrip(quotes[1..], clock, i + 1);
    }
  }

  lemma SixFields(q: Quote)
    ensures |Fields(q)| == 6
  {}

  /** The tick of a parsed price is the number of cents printed. */
  lemma ParsedTick(q: Quote, arrivalNs: int)
    requires Printable(q)
    ensures Tick(Parse(Join(Fields(q)), arrivalNs)) == q.cents
  {
    hide Parse, Fields, Join, Printable;
    ParsePrinted(q, arrivalNs);
    TickRoundTrip(q.cents);
  }
}
