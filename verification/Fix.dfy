/** The FIX line parser, and messages as lists of fields. */
module Fix {
  import opened Trading

  type Text = seq<Byte>

  // ---------------------------------------------------------------------------------------------
  // Scanning

  /** `memchr`: index of the first `c` in `s`, or the length when there is none. */
  function Find(s: Text, c: Byte): (i: nat)
    ensures i <= |s| && c !in s[..i] && (i < |s| ==> s[i] == c)
  {
    if s == [] || s[0] == c then 0 else 1 + Find(s[1..], c)
  }

  lemma {:induction false} FindAt(front: Text, c: Byte, rest: Text)
    requires c !in front
    ensures Find(front + [c] + rest, c) == |front|
    ensures Find(front, c) == |front|
  {
    if front == [] {
      assert front + [c] + rest == [c] + rest;
    } else {
      assert (front + [c] + rest)[1..] == front[1..] + [c] + rest;
      FindAt(front[1..], c, rest);
    }
  }

  /** The digit loop of tag 38, for any bytes. */
  function Digits(s: Text): int {
    if s == [] then 0 else Digits(s[..|s| - 1]) * 10 + (s[|s| - 1] as int - '0' as int)
  }

  predicate IsDigit(c: Byte) { '0' <= c <= '9' }

  predicate AllDigits(s: Text) { forall c :: c in s ==> IsDigit(c) }

  const INT32_MAX: int := 0x7fff_ffff

  predicate InInt32(x: int) { -INT32_MAX - 1 <= x <= INT32_MAX }

  /** Neither the product nor the sum of the i-th turn of the digit loop leaves the 32-bit range. */
  predicate TurnFits(s: Text, i: nat)
    requires i < |s|
  {
    InInt32(Digits(s[..i]) * 10) && InInt32(Digits(s[..i + 1]))
  }

  predicate LoopFits(s: Text) {
    forall i :: 0 <= i < |s| ==> TurnFits(s, i)
  }

  lemma {:induction false} DigitsStayInRange(s: Text, i: nat)
    requires AllDigits(s) && i <= |s|
    ensures 0 <= Digits(s[..i]) <= Digits(s)
    ensures i < |s| ==> Digits(s[..i]) * 10 <= Digits(s)
    decreases |s|
  {
    if i == |s| {
      assert s[..i] == s;
      if s != [] {
        assert s[|s| - 1] in s && forall c :: c in s[..|s| - 1] ==> c in s;
        DigitsStayInRange(s[..|s| - 1], |s| - 1);
      }
    } else {
      var t := s[..|s| - 1];
      assert s[|s| - 1] in s && forall c :: c in t ==> c in s;
      DigitsStayInRange(t, i);
      assert t[..i] == s[..i];
    }
  }

  /** On digits the 32-bit loop is right exactly for numbers it can hold: no turn overflows if and only
      if the result does not. */
  lemma LoopFitsIff(s: Text)
    requires AllDigits(s)
    ensures LoopFits(s) <==> Digits(s) <= INT32_MAX
  {
    hide Digits;
    if Digits(s) <= INT32_MAX {
      forall i | 0 <= i < |s| ensures TurnFits(s, i) {
        DigitsStayInRange(s, i);
        DigitsStayInRange(s, i + 1);
      }
    }
    if s == [] {
      NoDigits();
    } else {
      assert s[..|s| - 1 + 1] == s;
      assert LoopFits(s) ==> TurnFits(s, |s| - 1);
    }
  }

  lemma NoDigits()
    ensures Digits([]) == 0
  {}

  /** Length of the longest prefix of digits. */
  function DigitRun(s: Text): (n: nat)
    ensures n <= |s|
  {
    if s == [] || !IsDigit(s[0]) then 0 else 1 + DigitRun(s[1..])
  }

  function Pow10(n: nat): (r: nat)
    ensures r > 0
  {
    if n == 0 then 1 else 10 * Pow10(n - 1)
  }

  /** A number with its decimal point moved this many places to the left. */
  function Scaled(n: int, places: nat): real { n as real / Pow10(places) as real }

  /** `atof` on decimal notation: an optional sign, digits, and digits after a point; anything that
      follows is ignored. */
  function Atof(s: Text): real {
    var signed := s != [] && (s[0] == '-' || s[0] == '+');
    var t := if signed then s[1..] else s;
    var n := DigitRun(t);
    var whole := Digits(t[..n]) as real;
    var fraction :=
      if n < |t| && t[n] == '.' then
        var u := t[n + 1..];
        Scaled(Digits(u[..DigitRun(u)]), DigitRun(u))
      else 0.0;
    if signed && s[0] == '-' then -(whole + fraction) else whole + fraction
  }

  // ---------------------------------------------------------------------------------------------
  // Parsing one line

  /** Copies at most size - 1 bytes and a NUL over the front of a byte array. */
  function Overwrite(was: Text, val: Text): (r: Text)
    requires |was| > 0
    ensures |r| == |was|
  {
    var n := Min(|val|, |was| - 1);
    val[..n] + [NUL] + was[n + 1..]
  }

  /** The effect of one `tag=value` field; tags other than these five have none. */
  function SetField(o: Order, tag: Text, val: Text): Order {
    if tag == "11" then o.(id := Overwrite(o.id, val))
    else if tag == "55" then o.(symbol := Overwrite(o.symbol, val))
    else if tag == "54" then o.(side := if val != [] && val[0] == '1' then Buy else Sell)
    else if tag == "44" then o.(price := Atof(val[..Min(|val|, 31)]))
    else if tag == "38" then o.(quantity := Digits(val))
    else o
  }

  /** What is left of a text after position `i` and one separator. */
  function Past(s: Text, i: nat): Text {
    if i < |s| then s[i + 1..] else []
  }

  /** The fields of `text`, applied to `o` one after the other. */
  function ParseText(text: Text, o: Order): Order
    decreases |text|
  {
    var eq := Find(text, '=');
    if eq == |text| then o
    else
      var val := text[eq + 1..];
      var sep := Find(val, '|');
      ParseText(Past(val, sep), SetField(o, text[..eq], val[..sep]))
  }

  function Parse(line: Text, arrivalNs: int): Order {
    ParseText(line, ZEROED.(arrivalNs := arrivalNs))
  }

  lemma ParseUnfold(text: Text, o: Order)
    ensures var eq := Find(text, '=');
      ParseText(text, o) ==
        if eq == |text| then o
        else
          var val := text[eq + 1..];
          var sep := Find(val, '|');
          ParseText(Past(val, sep), SetField(o, text[..eq], val[..sep]))
  {}

  lemma Slices(line: Text, p: nat, eq: nat, sep: nat)
    requires p <= eq < sep <= |line|
    ensures line[p..][..eq - p] == line[p..eq] && line[p..][eq - p + 1..] == line[eq + 1..]
    ensures line[eq + 1..][..sep - (eq + 1)] == line[eq + 1..sep]
    ensures Past(line[eq + 1..], sep - (eq + 1)) == line[if sep < |line| then sep + 1 else |line|..]
  {}

  /** One turn of the cursor loop, at position `p` of the line. */
  lemma ParseTurn(line: Text, p: nat, eq: nat, sep: nat, o: Order)
    requires p <= eq < sep <= |line|
    requires eq == p + Find(line[p..], '=') && sep == eq + 1 + Find(line[eq + 1..], '|')
    ensures ParseText(line[p..], o)
      == ParseText(line[if sep < |line| then sep + 1 else |line|..], SetField(o, line[p..eq], line[eq + 1..sep]))
  {
    hide SetField, Find, ParseText, Past;
    Slices(line, p, eq, sep);
    ParseUnfold(line[p..], o);
  }

  /** `parseFixLine`: terminates on any bytes and reads only inside the line. */
  method ParseFixLine(line: Text, now: int) returns (order: Order)
    ensures order == Parse(line, now)
  {
    hide SetField, ParseText;
    order := ZEROED.(arrivalNs := now);
    var p := 0;
    assert line[0..] == line;
    while p < |line|
      invariant 0 <= p <= |line|
      invariant ParseText(line[p..], order) == Parse(line, now)
    {
      ParseUnfold(line[p..], order);
      var eq := p + Find(line[p..], '=');
      if eq == |line| { return; }
      var sep := eq + 1 + Find(line[eq + 1..], '|');
      ParseTurn(line, p, eq, sep, order);
      order := ApplyField(order, line[p..eq], line[eq + 1..sep]);
      p := if sep < |line| then sep + 1 else |line|;
    }
    assert line[p..] == [];
    ParseNothing(order);
  }

  /** The tag dispatch, with its inner digit loop. */
  method ApplyField(o: Order, tag: Text, val: Text) returns (order: Order)
    ensures order == SetField(o, tag, val)
  {
    order := o;
    if |tag| == 2 {
      var t0, t1 := tag[0], tag[1];
      assert tag == [t0, t1];
      if t0 == '1' && t1 == '1' {
        order := order.(id := Overwrite(order.id, val));
      } else if t0 == '5' && t1 == '5' {
        order := order.(symbol := Overwrite(order.symbol, val));
      } else if t0 == '5' && t1 == '4' {
        order := order.(side := if |val| > 0 && val[0] == '1' then Buy else Sell);
      } else if t0 == '4' && t1 == '4' {
        order := order.(price := Atof(val[..Min(|val|, 31)]));
      } else if t0 == '3' && t1 == '8' {
        var qty := 0;
        for i := 0 to |val|
          invariant qty == Digits(val[..i])
        {
          assert val[..i + 1][..i] == val[..i];
          qty := qty * 10 + (val[i] as int - '0' as int);
        }
        assert val[..|val|] == val;
        order := order.(quantity := qty);
      }
    }
  }

  // ---------------------------------------------------------------------------------------------
  // Messages as lists of fields

  datatype Field = Field(tag: Text, val: Text)

  predicate WellFormed(f: Field) { '=' !in f.tag && '|' !in f.val }

  /** `tag=value|tag=value|...` */
  function Join(fields: seq<Field>): Text {
    if fields == [] then []
    else if |fields| == 1 then fields[0].tag + ['='] + fields[0].val
    else fields[0].tag + ['='] + fields[0].val + ['|'] + Join(fields[1..])
  }

  function ApplyAll(o: Order, fields: seq<Field>): Order
    decreases |fields|
  {
    if fields == [] then o else ApplyAll(SetField(o, fields[0].tag, fields[0].val), fields[1..])
  }

  lemma ParseField(f: Field, rest: Text, o: Order)
    requires WellFormed(f)
    ensures ParseText(f.tag + ['='] + f.val + ['|'] + rest, o) == ParseText(rest, SetField(o, f.tag, f.val))
  {
    hide SetField, Find;
    var text, val := f.tag + ['='] + f.val + ['|'] + rest, f.val + ['|'] + rest;
    assert text == f.tag + ['='] + val;
    FindAt(f.tag, '=', val);
    FindAt(f.val, '|', rest);
    assert text[..|f.tag|] == f.tag && text[|f.tag| + 1..] == val;
    assert val[..|f.val|] == f.val && val[|f.val| + 1..] == rest;
  }

  lemma ParseLastField(f: Field, o: Order)
    requires WellFormed(f)
    ensures ParseText(f.tag + ['='] + f.val, o) == SetField(o, f.tag, f.val)
  {
    hide SetField;
    var text := f.tag + ['='] + f.val;
    FindAt(f.tag, '=', f.val);
    FindAt(f.val, '|', []);
    assert text[..|f.tag|] == f.tag && text[|f.tag| + 1..] == f.val && f.val[..|f.val|] == f.val;
  }

  /** A joined message parses to its fields, applied in order. */
  lemma {:induction false} ParseJoin(fields: seq<Field>, o: Order)
    requires forall f :: f in fields ==> WellFormed(f)
    ensures ParseText(Join(fields), o) == ApplyAll(o, fields)
    decreases |fields|
  {
    hide SetField, ParseText;
    if fields == [] {
      assert ParseText([], o) == o by { ParseNothing(o); }
    } else {
      var f := fields[0];
      assert f in fields && forall g :: g in fields[1..] ==> g in fields;
      if |fields| == 1 {
        ParseLastField(f, o);
      } else {
        ParseField(f, Join(fields[1..]), o);
        ParseJoin(fields[1..], SetField(o, f.tag, f.val));
      }
    }
  }

  lemma ParseNothing(o: Order)
    ensures ParseText([], o) == o
  {}

  predicate Known(tag: Text) { tag == "11" || tag == "55" || tag == "54" || tag == "44" || tag == "38" }

  /** No tag the parser knows occurs twice. */
  predicate Unique(fields: seq<Field>) {
    forall i, j :: 0 <= i < j < |fields| && Known(fields[i].tag) ==> fields[i].tag != fields[j].tag
  }

  datatype Maybe = Absent | Present(val: Text)

  /** The value of the first field with this tag. */
  function Lookup(fields: seq<Field>, tag: Text): Maybe {
    if fields == [] then Absent
    else if fields[0].tag == tag then Present(fields[0].val)
    else Lookup(fields[1..], tag)
  }

  /** The order that holds the given values, and what `o` has where one is absent. */
  function With(o: Order, id: Maybe, symbol: Maybe, side: Maybe, price: Maybe, quantity: Maybe): Order {
    var o1 := if id.Present? then SetField(o, "11", id.val) else o;
    var o2 := if symbol.Present? then SetField(o1, "55", symbol.val) else o1;
    var o3 := if side.Present? then SetField(o2, "54", side.val) else o2;
    var o4 := if price.Present? then SetField(o3, "44", price.val) else o3;
    if quantity.Present? then SetField(o4, "38", quantity.val) else o4
  }

  /** The order that holds, for each known tag, the field's value or what `o` has. */
  function Assembled(o: Order, fields: seq<Field>): Order {
    With(o, Lookup(fields, "11"), Lookup(fields, "55"), Lookup(fields, "54"),
         Lookup(fields, "44"), Lookup(fields, "38"))
  }

  /** `m`, or the value of `f` if that has this tag. */
  function Or(f: Field, tag: Text, m: Maybe): Maybe { if f.tag == tag then Present(f.val) else m }

  lemma WithField(o: Order, f: Field, id: Maybe, symbol: Maybe, side: Maybe, price: Maybe, quantity: Maybe)
    requires f.tag == "11" ==> id.Absent?
    requires f.tag == "55" ==> symbol.Absent?
    requires f.tag == "54" ==> side.Absent?
    requires f.tag == "44" ==> price.Absent?
    requires f.tag == "38" ==> quantity.Absent?
    ensures
      With(SetField(o, f.tag, f.val), id, symbol, side, price, quantity)
      == With(o, Or(f, "11", id), Or(f, "55", symbol), Or(f, "54", side), Or(f, "44", price), Or(f, "38", quantity))
  {
    hide Atof, Digits, Overwrite;
  }

  lemma {:induction false} LookupAbsent(fields: seq<Field>, tag: Text)
    requires forall f :: f in fields ==> f.tag != tag
    ensures Lookup(fields, tag) == Absent
  {
    if fields != [] {
      assert fields[0] in fields && forall g :: g in fields[1..] ==> g in fields;
      LookupAbsent(fields[1..], tag);
    }
  }

  lemma LookupFirst(fields: seq<Field>, tag: Text)
    ensures fields == [] ==> Lookup(fields, tag) == Absent
    ensures fields != [] ==> Lookup(fields, tag) == Or(fields[0], tag, Lookup(fields[1..], tag))
  {}

  /** With distinct known tags the order of the fields does not matter: the result is assembled from
      the looked-up values. */
  lemma {:induction false} ApplyAllAssembles(o: Order, fields: seq<Field>)
    requires Unique(fields)
    ensures ApplyAll(o, fields) == Assembled(o, fields)
    decreases |fields|
  {
    hide SetField, Lookup, Or;
    LookupFirst(fields, "11"); LookupFirst(fields, "55"); LookupFirst(fields, "54");
    LookupFirst(fields, "44"); LookupFirst(fields, "38");
    if fields != [] {
      var f, rest := fields[0], fields[1..];
      ApplyAllAssembles(SetField(o, f.tag, f.val), rest);
      if Known(f.tag) {
        forall g | g in rest ensures g.tag != f.tag {
          var i :| 0 <= i < |rest| && rest[i] == g;
          assert fields[i + 1] == g;
        }
        LookupAbsent(rest, f.tag);
      }
      hide With;
      WithField(o, f, Lookup(rest, "11"), Lookup(rest, "55"), Lookup(rest, "54"),
                Lookup(rest, "44"), Lookup(rest, "38"));
    }
  }

  lemma {:induction false} LookupIffMember(fields: seq<Field>, tag: Text, val: Text)
    requires Unique(fields) && Known(tag)
    ensures Lookup(fields, tag) == Present(val) <==> Field(tag, val) in fields
  {
    if fields != [] {
      LookupIffMember(fields[1..], tag, val);
    }
  }

  lemma SameLookup(f: seq<Field>, g: seq<Field>, tag: Text)
    requires Unique(f) && Unique(g) && Known(tag)
    requires forall x: Field :: Known(x.tag) ==> (x in f <==> x in g)
    ensures Lookup(f, tag) == Lookup(g, tag)
  {
    var a, b := Lookup(f, tag), Lookup(g, tag);
    if a.Present? { LookupIffMember(f, tag, a.val); LookupIffMember(g, tag, a.val); assert Field(tag, a.val) in f; }
    if b.Present? { LookupIffMember(g, tag, b.val); LookupIffMember(f, tag, b.val); assert Field(tag, b.val) in g; }
  }

  /** Two messages with the same known fields, each tag once, parse to the same order: any permutation
      of the fields and any number of unknown fields, anywhere, make no difference. */
  lemma ParseIgnoresOrderAndUnknown(f: seq<Field>, g: seq<Field>, arrivalNs: int)
    requires forall x :: x in f || x in g ==> WellFormed(x)
    requires Unique(f) && Unique(g)
    requires forall x: Field :: Known(x.tag) ==> (x in f <==> x in g)
    ensures Parse(Join(f), arrivalNs) == Parse(Join(g), arrivalNs)
  {
    hide SetField, Lookup;
    var o := ZEROED.(arrivalNs := arrivalNs);
    ParseJoin(f, o); ParseJoin(g, o);
    ApplyAllAssembles(o, f); ApplyAllAssembles(o, g);
    SameLookup(f, g, "11"); SameLookup(f, g, "55"); SameLookup(f, g, "54");
    SameLookup(f, g, "44"); SameLookup(f, g, "38");
  }

  lemma OverwriteZeroes(n: nat, val: Text)
    requires 0 < n <= |ZEROES|
    ensures Overwrite(ZEROES[..n], val) == Padded(val, n)
  {
    var r := Overwrite(ZEROES[..n], val);
    var k := Min(|val|, n - 1);
    assert forall i :: 0 <= i < |ZEROES| ==> ZEROES[i] == NUL;
    forall i | 0 <= i < n ensures r[i] == Padded(val, n)[i] {
      if i > k { assert r[i] == ZEROES[..n][k + 1..][i - k - 1] == ZEROES[i]; }
    }
  }

  function ValueOf(fields: seq<Field>, tag: Text): Text {
    var r := Lookup(fields, tag);
    if r.Present? then r.val else []
  }

  /** What a message of distinct tags parses to, field by field: ids are cut to 15 and symbols to 7
      bytes, the side is BUY exactly when tag 54 is missing or starts with '1', and a missing price or
      quantity is zero. */
  lemma ParsedFields(fields: seq<Field>, arrivalNs: int)
    requires (forall f :: f in fields ==> WellFormed(f)) && Unique(fields)
    ensures var price, side := ValueOf(fields, "44"), Lookup(fields, "54");
      Parse(Join(fields), arrivalNs) ==
        Order(Padded(ValueOf(fields, "11"), 16), Padded(ValueOf(fields, "55"), 8),
              Atof(price[..Min(|price|, 31)]),
              if side.Absent? || (side.val != [] && side.val[0] == '1') then Buy else Sell,
              Digits(ValueOf(fields, "38")), arrivalNs)
  {
    hide Lookup, Overwrite, ParseText, Join, ApplyAll;
    var o := ZEROED.(arrivalNs := arrivalNs);
    ParseJoin(fields, o);
    ApplyAllAssembles(o, fields);
    OverwriteZeroes(16, ValueOf(fields, "11"));
    OverwriteZeroes(8, ValueOf(fields, "55"));
    OverwriteZeroes(16, []);
    OverwriteZeroes(8, []);
    assert Padded([], 16) == ZEROES[..16] && Padded([], 8) == ZEROES[..8];
  }

  // ---------------------------------------------------------------------------------------------
  // Any bytes

  /** The value of the last field with this tag. */
  function LastValue(fields: seq<Field>, tag: Text): Maybe {
    if fields == [] then Absent
    else if fields[|fields| - 1].tag == tag then Present(fields[|fields| - 1].val)
    else LastValue(fields[..|fields| - 1], tag)
  }

  lemma {:induction false} ApplyAllLast(o: Order, fields: seq<Field>)
    requires fields != []
    ensures ApplyAll(o, fields)
         == SetField(ApplyAll(o, fields[..|fields| - 1]), fields[|fields| - 1].tag, fields[|fields| - 1].val)
    decreases |fields|
  {
    hide SetField;
    if |fields| > 1 {
      var first, rest := fields[0], fields[1..];
      ApplyAllLast(SetField(o, first.tag, first.val), rest);
      assert fields[..|fields| - 1][1..] == rest[..|rest| - 1];
    }
  }

  lemma OverwrittenText(was: Text, val: Text)
    requires |was| > 0
    ensures CString(Overwrite(was, val)) == CString(val[..Min(|val|, |was| - 1)])
  {
    var cut, r := val[..Min(|val|, |was| - 1)], Overwrite(was, val);
    assert r[..|cut|] == cut && r[|cut|] == NUL;
    assert |CString(r)| == |CString(cut)|;
  }

  /** The text of an id or symbol array of `n` bytes after the field `m`, when it was `was` before. */
  function TextAfter(m: Maybe, was: Text, n: nat): Text
    requires n > 0
  {
    if m.Present? then CString(m.val[..Min(|m.val|, n - 1)]) else CString(was)
  }

  /** `r` is `o` with the values of these fields: of each known tag the last one counts. */
  predicate Holds(r: Order, o: Order, fields: seq<Field>) {
    var side, price, quantity := LastValue(fields, "54"), LastValue(fields, "44"), LastValue(fields, "38");
    && CString(r.id) == TextAfter(LastValue(fields, "11"), o.id, 16)
    && CString(r.symbol) == TextAfter(LastValue(fields, "55"), o.symbol, 8)
    && r.side == (if side.Absent? then o.side else if side.val != [] && side.val[0] == '1' then Buy else Sell)
    && r.price == (if price.Absent? then o.price else Atof(price.val[..Min(|price.val|, 31)]))
    && r.quantity == (if quantity.Absent? then o.quantity else Digits(quantity.val))
    && r.arrivalNs == o.arrivalNs
  }

  lemma {:induction false} LastFieldCounts(o: Order, fields: seq<Field>)
    ensures Holds(ApplyAll(o, fields), o, fields)
    decreases |fields|
  {
    hide Atof, Digits, Overwrite, ApplyAll, CString;
    if fields == [] {
      AppliesNothing(o);
    } else {
      var prefix, f := fields[..|fields| - 1], fields[|fields| - 1];
      LastFieldCounts(o, prefix);
      ApplyAllLast(o, fields);
      OverwrittenText(ApplyAll(o, prefix).id, f.val);
      OverwrittenText(ApplyAll(o, prefix).symbol, f.val);
    }
  }

  lemma AppliesNothing(o: Order)
    ensures ApplyAll(o, []) == o
  {}

  /** `tag=value|tag=value|`: each field with its separator. */
  function Closed(fields: seq<Field>): Text {
    if fields == [] then [] else fields[0].tag + ['='] + fields[0].val + ['|'] + Closed(fields[1..])
  }

  /** The text is these fields, with or without a separator at the end, and then bytes without '='. */
  predicate MadeOf(text: Text, fields: seq<Field>, junk: Text) {
    && (forall f :: f in fields ==> WellFormed(f)) && '=' !in junk
    && (text == Closed(fields) + junk || (fields != [] && junk == [] && text == Join(fields)))
  }

  lemma MadeOfMore(f: Field, rest: Text, more: seq<Field>, junk: Text)
    requires WellFormed(f) && MadeOf(rest, more, junk)
    ensures MadeOf(f.tag + ['='] + f.val + ['|'] + rest, [f] + more, junk)
  {
    var fields, text := [f] + more, f.tag + ['='] + f.val + ['|'] + rest;
    assert fields[1..] == more;
    if rest == Closed(more) + junk {
      assert text == f.tag + ['='] + f.val + ['|'] + Closed(more) + junk;
    }
  }

  lemma CutField(text: Text, eq: nat, sep: nat)
    requires eq < |text| && text[eq] == '=' && eq + 1 + sep <= |text|
    requires eq + 1 + sep < |text| ==> text[eq + 1 + sep] == '|'
    ensures var tag, val, rest := text[..eq], text[eq + 1..][..sep], Past(text[eq + 1..], sep);
      && |rest| < |text|
      && (if eq + 1 + sep == |text| then rest == [] && text == tag + ['='] + val
          else text == tag + ['='] + val + ['|'] + rest)
  {}

  /** The first field of a text that has one. */
  lemma FirstField(text: Text, o: Order) returns (f: Field, sep: nat)
    requires Find(text, '=') < |text|
    ensures WellFormed(f) && |f.tag| + 1 + sep <= |text|
    ensures var rest := Past(text[|f.tag| + 1..], sep);
      && |rest| < |text| && ParseText(text, o) == ParseText(rest, SetField(o, f.tag, f.val))
      && (if |f.tag| + 1 + sep == |text| then rest == [] && text == f.tag + ['='] + f.val
          else text == f.tag + ['='] + f.val + ['|'] + rest)
  {
    hide SetField, Find, ParseText, Past;
    ParseUnfold(text, o);
    var eq := Find(text, '=');
    sep := Find(text[eq + 1..], '|');
    f := Field(text[..eq], text[eq + 1..][..sep]);
    CutField(text, eq, sep);
  }

  lemma ApplyFirst(o: Order, f: Field, more: seq<Field>)
    ensures ApplyAll(o, [f] + more) == ApplyAll(SetField(o, f.tag, f.val), more)
  {
    hide SetField;
    assert ([f] + more)[1..] == more;
  }

  lemma {:induction false} Dissect(text: Text, o: Order) returns (fields: seq<Field>, junk: Text)
    ensures MadeOf(text, fields, junk) && ParseText(text, o) == ApplyAll(o, fields)
    decreases |text|
  {
    hide SetField, Find, MadeOf, ParseText, ApplyAll;
    if Find(text, '=') == |text| {
      fields, junk := [], text;
      assert text[..|text|] == text;
      ParseUnfold(text, o);
      AppliesNothing(o);
      MadeOfJunk(text);
    } else {
      var f, sep := FirstField(text, o);
      var more;
      more, junk := Dissect(Past(text[|f.tag| + 1..], sep), SetField(o, f.tag, f.val));
      if |f.tag| + 1 + sep == |text| {
        fields, junk := [f], [];
        ParseNothing(SetField(o, f.tag, f.val));
        ApplyFirst(o, f, []);
        AppliesNothing(SetField(o, f.tag, f.val));
        assert [f] + [] == [f];
        MadeOfOne(f);
      } else {
        fields := [f] + more;
        ApplyFirst(o, f, more);
        MadeOfMore(f, Past(text[|f.tag| + 1..], sep), more, junk);
      }
    }
  }

  lemma MadeOfJunk(text: Text)
    requires '=' !in text
    ensures MadeOf(text, [], text)
  {
    assert Closed([]) + text == text;
  }

  lemma MadeOfOne(f: Field)
    requires WellFormed(f)
    ensures MadeOf(f.tag + ['='] + f.val, [f], [])
  {}

  /** Any bytes at all: a line is a list of fields, of which a tag may be repeated, unknown or odd, and
      perhaps a rest without '='. The rest is ignored, and of each known tag the last field counts. */
  lemma ParseAnything(line: Text, arrivalNs: int) returns (fields: seq<Field>, junk: Text)
    ensures MadeOf(line, fields, junk)
    ensures Holds(Parse(line, arrivalNs), ZEROED.(arrivalNs := arrivalNs), fields)
  {
    hide MadeOf, Holds, ParseText, ApplyAll;
    fields, junk := Dissect(line, ZEROED.(arrivalNs := arrivalNs));
    LastFieldCounts(ZEROED.(arrivalNs := arrivalNs), fields);
  }
}
